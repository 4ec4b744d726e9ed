/** Run detection and run extension of myPowersort: reverseRange (inclusive end),
    findRun and insertionsort, all working in place on an int array. */
module Runs {
  import opened JavaInt
  import opened Sorting

  /** reverseRange(array, start, end): reverses array[start..end], both ends included. */
  method ReverseRange(a: array<int>, start: int, end: int)
    requires start < end ==> 0 <= start && end < a.Length
    modifies a
    ensures start < end ==>
      a[..] == old(a[..start]) + Reverse(old(a[start..end + 1])) + old(a[end + 1..])
    ensures start < end ==> forall q :: start <= q <= end ==> a[q] == old(a[start + end - q])
    ensures start >= end ==> a[..] == old(a[..])
  {
    if start >= end {
      return;  // the loop guard fails at once
    }
    ghost var s := a[..];
    var lo, hi := start, end;
    while lo < hi
      invariant start <= lo <= hi + 1 && hi <= end && lo - start == end - hi
      invariant forall q :: 0 <= q < a.Length && (q < start || end < q) ==> a[q] == s[q]
      invariant forall q :: lo <= q <= hi ==> a[q] == s[q]
      invariant forall q :: start <= q < lo ==> a[q] == s[start + end - q]
      invariant forall q :: hi < q <= end ==> a[q] == s[start + end - q]
      decreases hi - lo
    {
      var temp := a[lo];
      a[lo] := a[hi];
      lo := lo + 1;
      a[hi] := temp;
      hi := hi - 1;
    }
    ReversedSlice(s, a[..], start, end);
  }

  /** The pointwise description of a reversed slice gives the sequence one. */
  lemma ReversedSlice(s: seq<int>, t: seq<int>, start: int, end: int)
    requires 0 <= start <= end < |s| == |t|
    requires forall q :: 0 <= q < |s| && (q < start || end < q) ==> t[q] == s[q]
    requires forall q :: start <= q <= end ==> t[q] == s[start + end - q]
    ensures t == s[..start] + Reverse(s[start..end + 1]) + s[end + 1..]
  {
    var r := s[..start] + Reverse(s[start..end + 1]) + s[end + 1..];
    forall q | 0 <= q < |s|
      ensures t[q] == r[q]
    {
      if q < start {
        assert r[q] == s[q];
      } else if q <= end {
        assert r[q] == s[start..end + 1][end - q];
      } else {
        assert r[q] == s[end + 1..][q - end - 1];
      }
    }
  }

  /** s[start..e] is a weakly ascending run that cannot be extended within end. */
  predicate AscendingRunAt(s: seq<int>, start: int, end: int, e: int)
    requires 0 <= start && end < |s|
  {
    start <= e <= end && Sorted(s[start..e + 1]) && (e == end || s[e + 1] < s[e])
  }

  /** s[start..e] is a strictly descending run that cannot be extended within end. */
  predicate DescendingRunAt(s: seq<int>, start: int, end: int, e: int)
    requires 0 <= start && end < |s|
  {
    start <= e <= end && StrictlyDescending(s[start..e + 1]) && (e == end || s[e + 1] >= s[e])
  }

  /** s with the run s[start..e] reversed in place. */
  function ReversedRun(s: seq<int>, start: int, e: int): (r: seq<int>)
    requires 0 <= start <= e < |s|
    ensures |r| == |s| && r[..start] == s[..start] && r[e + 1..] == s[e + 1..]
    ensures Permutation(r, s)
  {
    Split3(s, start, e + 1);
    ReversePermutes(s[start..e + 1]);
    s[..start] + Reverse(s[start..e + 1]) + s[e + 1..]
  }

  lemma AdjacentAscending(s: seq<int>, lo: int, hi: int)
    requires 0 <= lo <= hi < |s|
    requires forall k :: lo < k <= hi ==> s[k - 1] <= s[k]
    ensures Sorted(s[lo..hi + 1])
  {
    var t := s[lo..hi + 1];
    forall k | 0 < k < |t|
      ensures t[k - 1] <= t[k]
    {
      assert t[k - 1] == s[lo + k - 1] && t[k] == s[lo + k];
    }
    SortedByAdjacent(t);
  }

  lemma AdjacentDescending(s: seq<int>, lo: int, hi: int)
    requires 0 <= lo <= hi < |s|
    requires forall k :: lo < k <= hi ==> s[k] < s[k - 1]
    ensures StrictlyDescending(s[lo..hi + 1])
  {
    var t := s[lo..hi + 1];
    forall k | 0 < k < |t|
      ensures t[k] < t[k - 1]
    {
      assert t[k - 1] == s[lo + k - 1] && t[k] == s[lo + k];
    }
  }

  /** findRun(array, startIndex, arrayEnd) as written. It first compares
      array[startIndex + 1] with array[startIndex], which throws when startIndex is the
      last index of the array, even if startIndex == arrayEnd. A weakly ascending run is
      returned as it is; a strictly descending run is reversed, but only when it stops
      before arrayEnd. When arrayEnd < startIndex the loops do not run and the final
      return gives startIndex. */
  method FindRun(a: array<int>, startIndex: int, arrayEnd: int) returns (r: Result<int>)
    requires 0 <= startIndex < a.Length && arrayEnd < a.Length
    modifies a
    ensures r.Throws? <==> startIndex + 1 == a.Length
    ensures r.Throws? ==> r.error == IndexOutOfBounds && a[..] == old(a[..])
    ensures r.Ok? && arrayEnd < startIndex ==> r.value == startIndex && a[..] == old(a[..])
    // a weakly ascending run, maximal, left in place
    ensures r.Ok? && startIndex <= arrayEnd && old(a[startIndex + 1]) >= old(a[startIndex]) ==>
      AscendingRunAt(old(a[..]), startIndex, arrayEnd, r.value) && a[..] == old(a[..])
    // a strictly descending run, maximal, reversed unless it reaches arrayEnd
    ensures r.Ok? && startIndex <= arrayEnd && old(a[startIndex + 1]) < old(a[startIndex]) ==>
      DescendingRunAt(old(a[..]), startIndex, arrayEnd, r.value)
      && a[..] == (if r.value < arrayEnd then ReversedRun(old(a[..]), startIndex, r.value) else old(a[..]))
    // so the run found is ascending, except a descending run that reaches arrayEnd
    ensures r.Ok? && startIndex <= arrayEnd ==>
      Sorted(a[startIndex..r.value + 1])
      || (r.value == arrayEnd && StrictlyDescending(a[startIndex..r.value + 1]) && a[..] == old(a[..]))
  {
    if startIndex + 1 == a.Length {
      return Throws(IndexOutOfBounds);
    }
    if a[startIndex + 1] >= a[startIndex] {
      var i := startIndex;
      while i <= arrayEnd
        invariant startIndex <= i <= arrayEnd || (arrayEnd < startIndex && i == startIndex)
        invariant forall k :: startIndex < k <= i ==> a[k - 1] <= a[k]
        invariant a[..] == old(a[..])
      {
        if i == arrayEnd || a[i + 1] < a[i] {
          AdjacentAscending(a[..], startIndex, i);
          return Ok(i);
        }
        i := i + 1;
      }
    } else {
      var i := startIndex;
      while i <= arrayEnd
        invariant startIndex <= i <= arrayEnd || (arrayEnd < startIndex && i == startIndex)
        invariant forall k :: startIndex < k <= i ==> a[k] < a[k - 1]
        invariant a[..] == old(a[..])
      {
        if i == arrayEnd {
          AdjacentDescending(a[..], startIndex, i);
          return Ok(arrayEnd);
        }
        if a[i + 1] >= a[i] {
          AdjacentDescending(a[..], startIndex, i);
          ReverseRange(a, startIndex, i);
          ReverseOfDescending(old(a[startIndex..i + 1]));
          assert a[startIndex..i + 1] == Reverse(old(a[startIndex..i + 1]));
          return Ok(i);
        }
        i := i + 1;
      }
    }
    return Ok(startIndex);
  }

  /** Everything in a sorted run up to an element at most v is at most v. */
  lemma SortedBelowLast(s: seq<int>, left: int, i: int, j: int, v: int)
    requires 0 <= left <= i <= |s| && left - 1 <= j < i
    requires Sorted(s[left..i]) && (j < left || s[j] <= v)
    ensures forall k :: left <= k <= j ==> s[k] <= v
  {
    forall k | left <= k <= j
      ensures s[k] <= v
    {
      SortedSliceOrder(s, left, i, k, j);
    }
  }

  /** One step of insertionsort: s[i] is moved down to just after the last element of
      the sorted s[left..i) that is at most it. */
  lemma InsertionStep(s: seq<int>, left: int, i: int, j: int)
    requires 0 <= left <= i < |s| && left - 1 <= j <= i - 1
    requires Sorted(s[left..i])
    requires j < left || s[j] <= s[i]
    requires forall k :: j < k < i ==> s[i] < s[k]
    ensures Sorted(InsertAt(s, i, j + 1)[left..i + 1])
  {
    SortedBelowLast(s, left, i, j, s[i]);
    InsertAtSorted(s, left, i, j + 1);
  }

  lemma InsertAtPointwise(s: seq<int>, from: nat, to: nat)
    requires to <= from < |s|
    ensures forall k :: 0 <= k < |s| ==>
      InsertAt(s, from, to)[k] == if k < to || from < k then s[k] else if k == to then s[from] else s[k - 1]
  {
    var r := InsertAt(s, from, to);
    forall k | 0 <= k < |s|
      ensures r[k] == if k < to || from < k then s[k] else if k == to then s[from] else s[k - 1]
    {
      if k < to {
        assert r[k] == r[..to][k];
      } else if from < k {
        assert r[k] == r[from + 1..][k - from - 1];
      }
    }
  }

  /** The array after one step of insertionsort is InsertAt of the array before it. */
  lemma InsertionResult(s: seq<int>, t: seq<int>, left: int, i: int, j: int)
    requires 0 <= left <= i < |s| == |t| && left - 1 <= j <= i - 1
    requires Sorted(s[left..i])
    requires j < left || s[j] <= s[i]
    requires forall k :: j < k < i ==> s[i] < s[k]
    requires forall k :: 0 <= k <= j ==> t[k] == s[k]
    requires t[j + 1] == s[i]
    requires forall k :: j + 1 < k <= i ==> t[k] == s[k - 1]
    requires forall k :: i < k < |s| ==> t[k] == s[k]
    ensures t == InsertAt(s, i, j + 1)
    ensures Sorted(t[left..i + 1])
  {
    InsertAtPointwise(s, i, j + 1);
    InsertionStep(s, left, i, j);
  }

  /** The inner loop of insertionsort: the elements of array[left..i) greater than v
      move up one place, from the right, and j + 1 is the hole left behind. */
  method ShiftGreater(a: array<int>, left: int, i: int, v: int) returns (j: int)
    requires 0 <= left < i < a.Length
    modifies a
    ensures left - 1 <= j <= i - 1
    ensures j < left || old(a[j]) <= v
    ensures forall k :: j < k < i ==> v < old(a[k])
    ensures forall k :: 0 <= k <= j ==> a[k] == old(a[k])
    ensures forall k :: j + 1 < k <= i ==> a[k] == old(a[k - 1])
    ensures forall k :: i < k < a.Length ==> a[k] == old(a[k])
  {
    j := i - 1;
    while v < a[j]
      invariant left <= j <= i - 1
      invariant forall k :: 0 <= k <= j + 1 ==> a[k] == old(a[k])
      invariant forall k :: i < k < a.Length ==> a[k] == old(a[k])
      invariant forall k :: j + 1 < k <= i ==> a[k] == old(a[k - 1])
      invariant forall k :: j < k < i ==> v < old(a[k])
      decreases j
    {
      a[j + 1] := a[j];
      j := j - 1;
      if j < left {
        break;
      }
    }
  }

  /** The body of insertionsort's outer loop: array[i] is moved down past the greater
      elements of the sorted array[left..i), which each move up one place. */
  method InsertOne(a: array<int>, left: int, i: int) returns (ghost to: int)
    requires 0 <= left < i < a.Length && Sorted(a[left..i])
    modifies a
    ensures left <= to <= i && a[..] == InsertAt(old(a[..]), i, to)
    ensures Sorted(a[left..i + 1])
  {
    ghost var s := a[..];
    var currentValue := a[i];
    var j := ShiftGreater(a, left, i, currentValue);
    a[j + 1] := currentValue;
    InsertionResult(s, a[..], left, i, j);
    to := j + 1;
  }

  /** One step of insertionsort keeps the array a rearrangement of the original one
      that leaves everything outside [left, right] alone. */
  lemma InsertionKeeps(o: seq<int>, s: seq<int>, t: seq<int>, left: nat, right: nat, i: nat, to: nat)
    requires left <= to <= i <= right < |s| == |o|
    requires Permutation(s, o) && s[..left] == o[..left] && s[right + 1..] == o[right + 1..]
    requires t == InsertAt(s, i, to)
    ensures Permutation(t, o) && t[..left] == o[..left] && t[right + 1..] == o[right + 1..]
  {
    InsertAtPermutes(s, i, to);
    InsertAtFrame(s, i, to, left, right + 1);
  }

  /** insertionsort(array, left, right): sorts array[left..right] in place, inserting
      each element after the equal keys before it by shifting greater ones up. When
      right <= left the outer loop does not run and nothing is read. */
  method InsertionSort(a: array<int>, left: int, right: int)
    requires left < right ==> 0 <= left && right < a.Length
    modifies a
    ensures left < right ==> a[..left] == old(a[..left]) && a[right + 1..] == old(a[right + 1..])
    ensures left < right ==> SortedPermutation(a[left..right + 1], old(a[left..right + 1]))
    ensures right <= left ==> a[..] == old(a[..])
  {
    var i := left + 1;
    while i <= right
      invariant left < right ==> left + 1 <= i <= right + 1
      invariant right <= left ==> i == left + 1
      invariant left < right ==> a[..left] == old(a[..left]) && a[right + 1..] == old(a[right + 1..])
      invariant left < right ==> Sorted(a[left..i])
      invariant Permutation(a[..], old(a[..]))
      invariant right <= left ==> a[..] == old(a[..])
    {
      ghost var s := a[..];
      ghost var to := InsertOne(a, left, i);
      InsertionKeeps(old(a[..]), s, a[..], left, right, i, to);
      i := i + 1;
    }
    if left < right {
      SlicePermutation(a[..], old(a[..]), left, right + 1);
    }
  }
}
