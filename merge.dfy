/** Merging two adjacent runs with Sedgewick's bitonic merge, as mergeRuns and
    sebMergeRunsRename do: the first run is copied into the buffer in order and the
    second one reversed after it, and the output is then taken from whichever end of
    the buffer holds the smaller element. */
module Merge {
  import opened JavaInt
  import opened Sorting

  /** The output of the merge loop on the buffer contents t: the last element when it
      is smaller than the first one, otherwise the first one, then the same on what is
      left. */
  function BitonicMerge(t: seq<int>): (r: seq<int>)
    ensures |r| == |t|
    decreases |t|
  {
    if |t| == 0 then []
    else if t[|t| - 1] < t[0] then [t[|t| - 1]] + BitonicMerge(t[..|t| - 1])
    else [t[0]] + BitonicMerge(t[1..])
  }

  /** One step of the merge loop on the buffer window t[i..j]. */
  lemma BitonicMergeStep(t: seq<int>, i: nat, j: nat)
    requires i <= j < |t|
    ensures BitonicMerge(t[i..j + 1]) ==
      if t[j] < t[i] then [t[j]] + BitonicMerge(t[i..j]) else [t[i]] + BitonicMerge(t[i + 1..j + 1])
  {
    var w := t[i..j + 1];
    assert w[|w| - 1] == t[j] && w[0] == t[i];
    assert w[..|w| - 1] == t[i..j];
    assert w[1..] == t[i + 1..j + 1];
  }

  /** The merge only rearranges the buffer. */
  lemma {:induction false} BitonicMergePermutes(t: seq<int>)
    ensures Permutation(BitonicMerge(t), t)
    decreases |t|
  {
    if |t| > 0 {
      if t[|t| - 1] < t[0] {
        BitonicMergePermutes(t[..|t| - 1]);
        assert t == t[..|t| - 1] + [t[|t| - 1]];
      } else {
        BitonicMergePermutes(t[1..]);
        assert t == [t[0]] + t[1..];
      }
    }
  }

  /** t rises up to m and falls from there on. */
  predicate BitonicAt(t: seq<int>, m: nat)
    requires m <= |t|
  {
    Sorted(t[..m]) && NonIncreasing(t[m..])
  }

  /** In a rising-then-falling sequence the smaller of the two ends is the least element. */
  lemma BitonicEndsLeast(t: seq<int>, m: nat, k: nat)
    requires m <= |t| && BitonicAt(t, m) && k < |t|
    ensures t[0] <= t[k] || t[|t| - 1] <= t[k]
  {
    if k < m {
      assert t[..m][0] <= t[..m][k];
    } else {
      assert t[m..][k - m] >= t[m..][|t| - 1 - m];
    }
  }

  /** Taking off either end keeps a sequence rising-then-falling. */
  lemma BitonicWithoutLast(t: seq<int>, m: nat)
    requires m <= |t| && |t| > 0 && BitonicAt(t, m)
    ensures var m' := if m == |t| then m - 1 else m;
      m' <= |t| - 1 && BitonicAt(t[..|t| - 1], m')
  {
    var u := t[..|t| - 1];
    var m' := if m == |t| then m - 1 else m;
    assert u[..m'] == t[..m'] == t[..m][..m'];
    assert u[m'..] == t[m'..][..|t| - 1 - m'];
  }

  lemma BitonicWithoutFirst(t: seq<int>, m: nat)
    requires m <= |t| && |t| > 0 && BitonicAt(t, m)
    ensures var m' := if m == 0 then 0 else m - 1;
      m' <= |t| - 1 && BitonicAt(t[1..], m')
  {
    var u := t[1..];
    if m > 0 {
      assert u[..m - 1] == t[..m][1..];
      assert u[m - 1..] == t[m..];
    } else {
      assert u == t[m..][1..];
    }
  }

  /** A value at most every element of t is at most every element of a rearrangement of t. */
  lemma LeastOfPermutation(x: int, t: seq<int>, u: seq<int>)
    requires Permutation(u, t)
    requires forall k :: 0 <= k < |t| ==> x <= t[k]
    ensures forall k :: 0 <= k < |u| ==> x <= u[k]
  {
    forall k | 0 <= k < |u|
      ensures x <= u[k]
    {
      assert u[k] in multiset(u);
      assert u[k] in t;
    }
  }

  lemma ConsSorted(x: int, u: seq<int>)
    requires Sorted(u) && forall k :: 0 <= k < |u| ==> x <= u[k]
    ensures Sorted([x] + u)
  {
    var v := [x] + u;
    forall a, b | 0 <= a < b < |v|
      ensures v[a] <= v[b]
    {
      assert v[b] == u[b - 1];
      if a > 0 {
        assert v[a] == u[a - 1];
      }
    }
  }

  /** The bitonic merge of a rising-then-falling sequence is sorted: each step takes the
      least element that is left. */
  lemma {:induction false} BitonicMergeSorted(t: seq<int>, m: nat)
    requires m <= |t| && BitonicAt(t, m)
    ensures Sorted(BitonicMerge(t))
    decreases |t|
  {
    if |t| > 0 {
      var x, rest, m';
      if t[|t| - 1] < t[0] {
        x, rest := t[|t| - 1], t[..|t| - 1];
        m' := if m == |t| then m - 1 else m;
        BitonicWithoutLast(t, m);
        assert t == rest + [x];
      } else {
        x, rest := t[0], t[1..];
        m' := if m == 0 then 0 else m - 1;
        BitonicWithoutFirst(t, m);
        assert t == [x] + rest;
      }
      forall k | 0 <= k < |rest|
        ensures x <= rest[k]
      {
        if t[|t| - 1] < t[0] {
          BitonicEndsLeast(t, m, k);
        } else {
          BitonicEndsLeast(t, m, k + 1);
        }
      }
      BitonicMergeSorted(rest, m');
      BitonicMergePermutes(rest);
      LeastOfPermutation(x, rest, BitonicMerge(rest));
      ConsSorted(x, BitonicMerge(rest));
    }
  }

  /** Merging sorted runs x and y through the buffer x + reverse(y) gives the sorted
      rearrangement of x + y. */
  lemma MergeOfSortedRuns(x: seq<int>, y: seq<int>)
    requires Sorted(x) && Sorted(y)
    ensures SortedPermutation(BitonicMerge(x + Reverse(y)), x + y)
  {
    var t := x + Reverse(y);
    ReverseOfSorted(y);
    assert t[..|x|] == x && t[|x|..] == Reverse(y);
    BitonicMergeSorted(t, |x|);
    BitonicMergePermutes(t);
    ReversePermutes(y);
  }

  /** What the merge loop outputs from the buffer window t[i..j], stated on indices.
      BitonicMerge says what a merge means on a sequence; this form follows the loop's
      own counters i and j, so that the loop invariant of MergeFromBuffer can name the
      rest of its output without slicing. MergeOutIsBitonicMerge shows the two agree. */
  function MergeOut(t: seq<int>, i: nat, j: int): (r: seq<int>)
    requires i <= j + 1 <= |t|
    decreases j - i
  {
    if j < i then []
    else if t[j] < t[i] then [t[j]] + MergeOut(t, i, j - 1)
    else [t[i]] + MergeOut(t, i + 1, j)
  }

  /** The loop's output is the bitonic merge of the window. */
  lemma {:induction false} MergeOutIsBitonicMerge(t: seq<int>, i: nat, j: int)
    requires i <= j + 1 <= |t|
    ensures MergeOut(t, i, j) == BitonicMerge(t[i..j + 1])
    decreases j - i
  {
    if i <= j {
      BitonicMergeStep(t, i, j);
      if t[j] < t[i] {
        MergeOutIsBitonicMerge(t, i, j - 1);
      } else {
        MergeOutIsBitonicMerge(t, i + 1, j);
      }
    }
  }

  /** What one pass of the merge loop outputs and what it leaves of the window. */
  lemma MergeLoopStep(t: seq<int>, out: seq<int>, i: nat, j: nat)
    requires i <= j < |t|
    ensures t[j] < t[i] ==> out + MergeOut(t, i, j) == (out + [t[j]]) + MergeOut(t, i, j - 1)
    ensures !(t[j] < t[i]) ==> out + MergeOut(t, i, j) == (out + [t[i]]) + MergeOut(t, i + 1, j)
  {
  }

  /** t is s after X = s[startX..startY) and Y = s[startY..endY] have been merged: the
      cells [startX, endY] hold the merge of the buffer X + reverse(Y), the other cells
      are as they were. */
  predicate MergedRuns(t: seq<int>, s: seq<int>, startX: int, startY: int, endY: int) {
    0 <= startX <= startY <= endY + 1 <= |s| == |t|
    && t[..startX] == s[..startX] && t[endY + 1..] == s[endY + 1..]
    && t[startX..endY + 1] == BitonicMerge(s[startX..startY] + Reverse(s[startY..endY + 1]))
  }

  /** Merging only rearranges [startX, endY], and two sorted runs merge into a sorted
      one. */
  lemma MergedRunsFacts(t: seq<int>, s: seq<int>, startX: int, startY: int, endY: int)
    requires MergedRuns(t, s, startX, startY, endY)
    ensures Rearranged(t, s, startX, endY + 1)
    ensures Sorted(s[startX..startY]) && Sorted(s[startY..endY + 1]) ==> Sorted(t[startX..endY + 1])
  {
    var x, y := s[startX..startY], s[startY..endY + 1];
    MergePermutes(x, y);
    MultisetSplit(s, startX, startY, endY + 1);
    SliceRearranged(t, s, startX, endY + 1);
    if Sorted(x) && Sorted(y) {
      MergeOfSortedRuns(x, y);
    }
  }

  /** Merging the buffer x + reverse(y) rearranges x + y. */
  lemma MergePermutes(x: seq<int>, y: seq<int>)
    ensures multiset(BitonicMerge(x + Reverse(y))) == multiset(x) + multiset(y)
  {
    BitonicMergePermutes(x + Reverse(y));
    ReversePermutes(y);
    assert multiset(x + Reverse(y)) == multiset(x) + multiset(Reverse(y));
  }


  /** The merge loop shared by both merges (mergeRuns line 51-53 and
      sebMergeRunsRename line 72-74): the buffer holds the bitonic sequence in
      temp[startX..endY], and the output goes to array[startX..endY]. */
  method MergeFromBuffer(a: array<int>, startX: int, endY: int, temp: array<int>)
    requires a != temp
    requires 0 <= startX <= endY + 1 <= a.Length && endY < temp.Length
    modifies a
    ensures a[..startX] == old(a[..startX]) && a[endY + 1..] == old(a[endY + 1..])
    ensures a[startX..endY + 1] == BitonicMerge(temp[startX..endY + 1])
  {
    ghost var tt, a0 := temp[..], a[..];
    ghost var out: seq<int> := [];
    var i, j := startX, endY;
    var k := startX;
    while k <= endY
      invariant startX <= i <= j + 1 <= endY + 1
      invariant k == i + (endY - j) && |out| == k - startX
      invariant out + MergeOut(tt, i, j) == MergeOut(tt, startX, endY)
      invariant a[..] == a0[..startX] + out + a0[k..]
    {
      MergeLoopStep(tt, out, i, j);
      var v;
      if temp[j] < temp[i] {
        v := temp[j];
        j := j - 1;
      } else {
        v := temp[i];
        i := i + 1;
      }
      OutputOne(a0, startX, out, k, v);
      a[k] := v;
      out := out + [v];
      k := k + 1;
    }
    assert out == MergeOut(tt, startX, endY) by {
      assert MergeOut(tt, i, j) == [];
    }
    MergeOutIsBitonicMerge(tt, startX, endY);
    assert tt[startX..endY + 1] == temp[startX..endY + 1];
    SpliceSlices(a0, startX, endY + 1, out);
  }

  /** Writing the next output element at index k. */
  lemma OutputOne(s: seq<int>, lo: nat, out: seq<int>, k: nat, v: int)
    requires lo + |out| == k < |s|
    ensures (s[..lo] + out + s[k..])[k := v] == s[..lo] + (out + [v]) + s[k + 1..]
  {
    var x := s[..lo] + out + s[k..];
    var y := s[..lo] + (out + [v]) + s[k + 1..];
    assert |x[k := v]| == |y|;
    forall q | 0 <= q < |y|
      ensures x[k := v][q] == y[q]
    {
      if q < lo {
      } else if q < k {
        assert y[q] == (out + [v])[q - lo];
      } else if q > k {
        assert x[q] == s[k..][q - k];
        assert y[q] == s[k + 1..][q - k - 1];
      }
    }
  }

  /** mergeRuns(array, startX, startY, endY, temp): merges X = array[startX..startY)
      and Y = array[startY..endY] through temp, which it indexes with the same indices
      as array. A temp shorter than endY + 1 makes the copy loops throw before array
      is written; what temp held then is not modelled. */
  method MergeRuns(a: array<int>, startX: int, startY: int, endY: int, temp: array<int>)
    returns (r: Outcome)
    requires a != temp
    requires 0 <= startX <= startY <= endY + 1 <= a.Length
    modifies a, temp
    ensures r.Abrupt? <==> startX <= endY && temp.Length <= endY
    ensures r.Abrupt? ==> r.error == IndexOutOfBounds && a[..] == old(a[..])
    ensures r.Normal? ==> MergedRuns(a[..], old(a[..]), startX, startY, endY)
  {
    if startX > endY {
      return Normal;  // both runs empty: no loop runs
    } else if temp.Length <= endY {
      return Abrupt(IndexOutOfBounds);
    }
    var i := startX;
    while i < startY
      invariant startX <= i <= startY
      invariant forall q :: startX <= q < i ==> temp[q] == a[q]
      invariant a[..] == old(a[..])
    {
      temp[i] := a[i];
      i := i + 1;
    }
    var j := startY;
    while j <= endY
      invariant startY <= j <= endY + 1
      invariant forall q :: startX <= q < startY ==> temp[q] == a[q]
      invariant forall q :: startY <= q < j ==> temp[q] == a[endY + startY - q]
      invariant a[..] == old(a[..])
    {
      temp[j] := a[endY + startY - j];
      j := j + 1;
    }
    BufferHoldsBitonic(a[..], temp[..], startX, startY, endY);
    MergeFromBuffer(a, startX, endY, temp);
    return Normal;
  }

  /** After the copy loops the buffer window is X followed by Y reversed. */
  lemma BufferHoldsBitonic(a: seq<int>, t: seq<int>, startX: nat, startY: nat, endY: int)
    requires startX <= startY <= endY + 1 <= |a| && endY < |t|
    requires forall q :: startX <= q < startY ==> t[q] == a[q]
    requires forall q :: startY <= q <= endY ==> t[q] == a[endY + startY - q]
    ensures t[startX..endY + 1] == a[startX..startY] + Reverse(a[startY..endY + 1])
  {
    var x, y := a[startX..startY], a[startY..endY + 1];
    var w := x + Reverse(y);
    forall q | 0 <= q < |w|
      ensures t[startX..endY + 1][q] == w[q]
    {
      if q < |x| {
        assert w[q] == x[q];
      } else {
        assert w[q] == Reverse(y)[q - |x|] == y[|y| - 1 - (q - |x|)];
      }
    }
  }

  /** sebMergeRunsRename(A, startX, startY, endY, B): the same merge with its copy loops
      running the other way: the first fills B[startX..startY - 1] from the top down,
      the second writes A[startY..endY] into B in reverse from endY down. The
      source's assert on B.length is disabled in Java by default, so a short B throws
      at the first out-of-range write instead. */
  method SebMergeRunsRename(a: array<int>, startX: int, startY: int, endY: int, b: array<int>)
    returns (r: Outcome)
    requires a != b
    requires 0 <= startX <= startY <= endY + 1 <= a.Length
    modifies a, b
    ensures r.Abrupt? <==> startX <= endY && b.Length <= endY
    ensures r.Abrupt? ==> r.error == IndexOutOfBounds && a[..] == old(a[..])
    ensures r.Normal? ==> MergedRuns(a[..], old(a[..]), startX, startY, endY)
  {
    if startX > endY {
      return Normal;  // both runs empty: no loop runs
    } else if b.Length <= endY {
      return Abrupt(IndexOutOfBounds);
    }
    var lastX := startY - 1;  // --startY: the last index of X
    var i := lastX + 1;
    while i > startX
      invariant startX <= i <= lastX + 1
      invariant forall q :: i <= q <= lastX ==> b[q] == a[q]
      invariant a[..] == old(a[..])
    {
      b[i - 1] := a[i - 1];
      i := i - 1;
    }
    var j := lastX;
    while j < endY
      invariant lastX <= j <= endY
      invariant forall q :: startX <= q <= lastX ==> b[q] == a[q]
      invariant forall q :: endY + lastX - j < q <= endY ==> b[q] == a[endY + lastX + 1 - q]
      invariant a[..] == old(a[..])
    {
      b[endY + lastX - j] := a[j + 1];
      j := j + 1;
    }
    BufferHoldsBitonic(a[..], b[..], startX, startY, endY);
    MergeFromBuffer(a, startX, endY, b);
    return Normal;
  }

  /** powerSort gives the buffer as many cells as the range [left, right] has, but the
      merge indexes it by array position. powerSort(a, 1, 8) on [9, 5, 6, 7, 8, 1, 2, 3, 4]
      leaves its two runs [1, 4] and [5, 8] in place and ends with the merge of line 138,
      mergeRuns(a, 1, 5, 8, buffer), with a buffer of 8 cells: it writes past the buffer
      and throws. */
  method ShortBufferExample() returns (r: Outcome)
    ensures r == Abrupt(IndexOutOfBounds)
  {
    var a := new int[] [9, 5, 6, 7, 8, 1, 2, 3, 4];
    var buffer := new int[8];
    r := MergeRuns(a, 1, 5, 8, buffer);
  }
}
