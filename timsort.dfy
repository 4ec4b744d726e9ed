/** The JDK TimSort helpers of TimSortAlterNoComparator: binary insertion sort, run
    counting with the half-open reverseRange, minRunLength, and the small-array path of
    sort. mergeRuns and nodePower of that class are the same code as in myPowersort and
    are modelled once, in the modules Merge and MergePolicy. */
module Timsort {
  import opened JavaInt
  import opened Sorting
  import opened Runs
  import opened MergePolicy

  /** MIN_MERGE: below this length sort does a binary insertion sort without merges. */
  const MinMerge: int := 32

  /** reverseRange(a, lo, hi): reverses a[lo..hi), hi excluded. hi is decremented first,
      so nothing is read unless at least two cells lie in the range. */
  method ReverseRange(a: array<int>, lo: int, hi: int)
    requires lo < hi - 1 ==> 0 <= lo && hi <= a.Length
    modifies a
    ensures lo < hi - 1 ==> a[..] == old(a[..lo]) + Reverse(old(a[lo..hi])) + old(a[hi..])
    ensures lo < hi - 1 ==> forall q :: lo <= q < hi ==> a[q] == old(a[lo + hi - 1 - q])
    ensures hi - 1 <= lo ==> a[..] == old(a[..])
  {
    var i := lo;
    var j := hi - 1;
    if j <= i {
      return;  // the loop guard fails at once
    }
    ghost var s := a[..];
    while i < j
      invariant lo <= i <= j + 1 && j < hi && i - lo == hi - 1 - j
      invariant forall q :: 0 <= q < a.Length && (q < lo || hi <= q) ==> a[q] == s[q]
      invariant forall q :: i <= q <= j ==> a[q] == s[q]
      invariant forall q :: lo <= q < i ==> a[q] == s[lo + hi - 1 - q]
      invariant forall q :: j < q < hi ==> a[q] == s[lo + hi - 1 - q]
      decreases j - i
    {
      var t := a[i];
      a[i] := a[j];
      i := i + 1;
      a[j] := t;
      j := j - 1;
    }
    ReversedHalfOpen(s, a[..], lo, hi);
  }

  /** ReversedSlice for the half-open range [lo, hi). */
  lemma ReversedHalfOpen(s: seq<int>, t: seq<int>, lo: int, hi: int)
    requires 0 <= lo < hi <= |s| == |t|
    requires forall q :: 0 <= q < |s| && (q < lo || hi <= q) ==> t[q] == s[q]
    requires forall q :: lo <= q < hi ==> t[q] == s[lo + hi - 1 - q]
    ensures t == s[..lo] + Reverse(s[lo..hi]) + s[hi..]
  {
    ReversedSlice(s, t, lo, hi - 1);
  }

  /** What countRunAndMakeAscending does to the array s, leaving t: the run of length
      len at lo is the longest weakly ascending one, left in place, or the longest
      strictly descending one, reversed; either way t[lo..lo + len) is ascending. A
      single element is a run of length 1. */
  predicate CountedRun(s: seq<int>, t: seq<int>, lo: int, hi: int, len: int)
    requires 0 <= lo < hi <= |s| == |t| && 1 <= len <= hi - lo
  {
    (hi - lo == 1 ==> len == 1 && t == s)
    && (hi - lo > 1 && s[lo + 1] >= s[lo] ==> AscendingRunAt(s, lo, hi - 1, lo + len - 1) && t == s)
    && (hi - lo > 1 && s[lo + 1] < s[lo] ==>
          DescendingRunAt(s, lo, hi - 1, lo + len - 1) && t == ReversedRun(s, lo, lo + len - 1))
    && Sorted(t[lo..lo + len])
  }

  /** countRunAndMakeAscending(a, lo, hi): the length of the run starting at lo within
      a[lo..hi), reversing a descending run so the run is ascending on return. With one
      element it returns 1 without comparing. */
  method CountRunAndMakeAscending(a: array<int>, lo: int, hi: int) returns (len: int)
    requires 0 <= lo < hi <= a.Length
    modifies a
    ensures 1 <= len <= hi - lo
    ensures CountedRun(old(a[..]), a[..], lo, hi, len)
  {
    var runHi := lo + 1;
    if runHi == hi {
      return 1;
    }
    var second := a[runHi];
    runHi := runHi + 1;
    if second < a[lo] {
      while runHi < hi && a[runHi] < a[runHi - 1]
        invariant lo + 2 <= runHi <= hi
        invariant forall k :: lo < k < runHi ==> a[k] < a[k - 1]
        invariant a[..] == old(a[..])
      {
        runHi := runHi + 1;
      }
      ghost var s := a[..];
      ReverseRange(a, lo, runHi);
      DescendingCounted(s, a[..], lo, hi, runHi);
    } else {
      while runHi < hi && a[runHi] >= a[runHi - 1]
        invariant lo + 2 <= runHi <= hi
        invariant forall k :: lo < k < runHi ==> a[k - 1] <= a[k]
        invariant a[..] == old(a[..])
      {
        runHi := runHi + 1;
      }
      AscendingCounted(a[..], lo, hi, runHi);
    }
    return runHi - lo;
  }

  /** The weakly ascending run s[lo..runHi), stopped by hi or by a descent. */
  lemma AscendingCounted(s: seq<int>, lo: int, hi: int, runHi: int)
    requires 0 <= lo && lo + 2 <= runHi <= hi <= |s| && s[lo + 1] >= s[lo]
    requires forall k :: lo < k < runHi ==> s[k - 1] <= s[k]
    requires runHi == hi || s[runHi] < s[runHi - 1]
    ensures CountedRun(s, s, lo, hi, runHi - lo)
  {
    AdjacentAscending(s, lo, runHi - 1);
  }

  /** The strictly descending run s[lo..runHi), stopped by hi or by a non-descending
      step, reversed in place. */
  lemma DescendingCounted(s: seq<int>, t: seq<int>, lo: int, hi: int, runHi: int)
    requires 0 <= lo && lo + 2 <= runHi <= hi <= |s| == |t| && s[lo + 1] < s[lo]
    requires forall k :: lo < k < runHi ==> s[k] < s[k - 1]
    requires runHi == hi || s[runHi] >= s[runHi - 1]
    requires t == s[..lo] + Reverse(s[lo..runHi]) + s[runHi..]
    ensures CountedRun(s, t, lo, hi, runHi - lo)
  {
    var e := runHi - 1;
    AdjacentDescending(s, lo, e);
    assert DescendingRunAt(s, lo, hi - 1, e);
    assert t == ReversedRun(s, lo, e);
    ReverseOfDescending(s[lo..runHi]);
    assert t[lo..runHi] == Reverse(s[lo..runHi]);
    assert Sorted(t[lo..lo + (runHi - lo)]);
  }

  /** The binary search of binarySort: the first index of the sorted a[lo..start) whose
      element is greater than pivot, so pivot goes after every element equal to it. With
      lo, start <= Integer.MAX_VALUE, (left + right) >>> 1 is the floor of the mean. */
  method InsertionPoint(a: array<int>, lo: int, start: int, pivot: int) returns (left: int)
    requires 0 <= lo <= start <= a.Length && Sorted(a[lo..start])
    ensures lo <= left <= start
    ensures forall k :: lo <= k < left ==> a[k] <= pivot
    ensures forall k :: left <= k < start ==> pivot < a[k]
  {
    left := lo;
    var right := start;
    while left < right
      invariant lo <= left <= right <= start
      invariant forall k :: lo <= k < left ==> a[k] <= pivot
      invariant forall k :: right <= k < start ==> pivot < a[k]
      decreases right - left
    {
      var mid := (left + right) / 2;
      if pivot < a[mid] {
        forall k | mid <= k < right
          ensures pivot < a[k]
        {
          SortedSliceOrder(a[..], lo, start, mid, k);
        }
        right := mid;
      } else {
        forall k | left <= k <= mid
          ensures a[k] <= pivot
        {
          SortedSliceOrder(a[..], lo, start, k, mid);
        }
        left := mid + 1;
      }
    }
  }

  /** System.arraycopy(src, srcPos, dest, destPos, length) within bounds: dest then holds
      what src held before the call, even when the two ranges of one array overlap. */
  method ArrayCopy(src: array<int>, srcPos: int, dest: array<int>, destPos: int, length: int)
    requires 0 <= srcPos && 0 <= destPos && 0 <= length
    requires srcPos + length <= src.Length && destPos + length <= dest.Length
    modifies dest
    ensures forall q :: 0 <= q < dest.Length && (q < destPos || destPos + length <= q) ==> dest[q] == old(dest[q])
    ensures forall q :: destPos <= q < destPos + length ==> dest[q] == old(src[q - destPos + srcPos])
  {
    if src == dest && srcPos < destPos {
      var k := length;
      while k > 0
        invariant 0 <= k <= length
        invariant forall q :: 0 <= q < dest.Length && (q < destPos + k || destPos + length <= q) ==> dest[q] == old(dest[q])
        invariant forall q :: destPos + k <= q < destPos + length ==> dest[q] == old(src[q - destPos + srcPos])
      {
        k := k - 1;
        dest[destPos + k] := src[srcPos + k];
      }
    } else {
      var k := 0;
      while k < length
        invariant 0 <= k <= length
        invariant forall q :: 0 <= q < dest.Length && (q < destPos || destPos + k <= q) ==> dest[q] == old(dest[q])
        invariant forall q :: srcPos + k <= q < srcPos + length ==> src[q] == old(src[q])
        invariant forall q :: destPos <= q < destPos + k ==> dest[q] == old(src[q - destPos + srcPos])
      {
        dest[destPos + k] := src[srcPos + k];
        k := k + 1;
      }
    }
  }

  /** The switch of binarySort: a[left..left + n) moves up one place, by hand for n = 2
      (falling through to the n = 1 case) and by System.arraycopy otherwise. */
  method SlideUp(a: array<int>, left: int, n: int)
    requires 0 <= left && 0 <= n && left + n < a.Length
    modifies a
    ensures forall q :: 0 <= q < a.Length && (q <= left || left + n < q) ==> a[q] == old(a[q])
    ensures forall q :: left < q <= left + n ==> a[q] == old(a[q - 1])
  {
    if n == 2 {
      a[left + 2] := a[left + 1];
      a[left + 1] := a[left];
    } else if n == 1 {
      a[left + 1] := a[left];
    } else {
      ArrayCopy(a, left, a, left + 1, n);
    }
  }

  /** The body of binarySort's for loop: a[start] is inserted into the sorted
      a[lo..start) after every element at most it and before every greater one; this
      upper-bound insertion keeps equal keys in their order, which is why the sort is
      stable. */
  method BinaryInsert(a: array<int>, lo: int, start: int) returns (ghost to: int)
    requires 0 <= lo < start < a.Length && Sorted(a[lo..start])
    modifies a
    ensures lo <= to <= start && a[..] == InsertAt(old(a[..]), start, to)
    ensures forall k :: lo <= k < to ==> old(a[k]) <= old(a[start])
    ensures forall k :: to <= k < start ==> old(a[start]) < old(a[k])
    ensures Sorted(a[lo..start + 1])
  {
    ghost var s0 := a[..];
    var pivot := a[start];
    var left := InsertionPoint(a, lo, start, pivot);
    var n := start - left;
    SlideUp(a, left, n);
    a[left] := pivot;
    InsertionResult(s0, a[..], lo, start, left - 1);
    to := left;
  }

  /** InsertionKeeps for the half-open range [lo, hi) of binarySort. */
  lemma BinaryInsertKeeps(o: seq<int>, s: seq<int>, t: seq<int>, lo: nat, hi: nat, i: nat, to: nat)
    requires lo <= to <= i < hi <= |s| == |o|
    requires Permutation(s, o) && s[..lo] == o[..lo] && s[hi..] == o[hi..]
    requires t == InsertAt(s, i, to)
    ensures Permutation(t, o) && t[..lo] == o[..lo] && t[hi..] == o[hi..]
  {
    InsertionKeeps(o, s, t, lo, hi - 1, i, to);
  }

  /** binarySort(a, lo, hi, start): given a[lo..start) sorted, sorts a[lo..hi) by
      inserting each following element with BinaryInsert. Nothing outside [lo, hi)
      changes, and nothing at all when start == hi. */
  method BinarySort(a: array<int>, lo: int, hi: int, start: int)
    requires 0 <= lo <= start <= hi <= a.Length && Sorted(a[lo..start])
    modifies a
    ensures a[..lo] == old(a[..lo]) && a[hi..] == old(a[hi..])
    ensures SortedPermutation(a[lo..hi], old(a[lo..hi]))
    ensures start == hi ==> a[..] == old(a[..])
  {
    var s := start;
    if s == lo {
      s := s + 1;
    }
    while s < hi
      invariant start <= s && lo < s
      invariant s <= hi || (lo == hi && s == hi + 1)
      invariant s <= hi ==> Sorted(a[lo..s])
      invariant a[..lo] == old(a[..lo]) && a[hi..] == old(a[hi..])
      invariant Permutation(a[..], old(a[..]))
      invariant start == hi ==> a[..] == old(a[..])
    {
      ghost var s0 := a[..];
      ghost var to := BinaryInsert(a, lo, s);
      BinaryInsertKeeps(old(a[..]), s0, a[..], lo, hi, s, to);
      s := s + 1;
    }
    SlicePermutation(a[..], old(a[..]), lo, hi);
  }

  /** Two rearrangements of a slice, each leaving the rest alone, make one. */
  lemma SliceRearrangementsCompose(s0: seq<int>, s1: seq<int>, s2: seq<int>, lo: nat, hi: nat)
    requires lo <= hi <= |s0| == |s1| == |s2|
    requires Permutation(s1, s0) && s1[..lo] == s0[..lo] && s1[hi..] == s0[hi..]
    requires Permutation(s2[lo..hi], s1[lo..hi]) && s2[..lo] == s1[..lo] && s2[hi..] == s1[hi..]
    ensures Permutation(s2[lo..hi], s0[lo..hi])
  {
    SlicePermutation(s1, s0, lo, hi);
  }

  /** sort(a, lo, hi, ...) for fewer than MIN_MERGE elements: a run is counted (and
      made ascending) at lo, then binarySort extends it over a[lo..hi). Ranges of fewer
      than two elements are left alone. */
  method Sort(a: array<int>, lo: int, hi: int)
    requires 0 <= lo <= hi <= a.Length && hi - lo < MinMerge
    modifies a
    ensures a[..lo] == old(a[..lo]) && a[hi..] == old(a[hi..])
    ensures SortedPermutation(a[lo..hi], old(a[lo..hi]))
    ensures hi - lo < 2 ==> a[..] == old(a[..])
  {
    var nRemaining := hi - lo;
    if nRemaining < 2 {
      return;
    }
    var initRunLen := CountRunAndMakeAscending(a, lo, hi);
    ghost var s1 := a[..];
    CountedRunKeeps(old(a[..]), s1, lo, hi, initRunLen);
    BinarySort(a, lo, hi, lo + initRunLen);
    SliceRearrangementsCompose(old(a[..]), s1, a[..], lo, hi);
  }

  /** countRunAndMakeAscending only rearranges a[lo..hi). */
  lemma CountedRunKeeps(s: seq<int>, t: seq<int>, lo: int, hi: int, len: int)
    requires 0 <= lo < hi <= |s| == |t| && 1 <= len <= hi - lo
    requires CountedRun(s, t, lo, hi, len)
    ensures Permutation(t, s) && t[..lo] == s[..lo] && t[hi..] == s[hi..]
  {
    if hi - lo > 1 && s[lo + 1] < s[lo] {
      ReversedRunFrame(s, lo, lo + len - 1, hi);
    }
  }

  /** Reversing a run inside [lo, hi) leaves the cells outside [lo, hi) alone. */
  lemma ReversedRunFrame(s: seq<int>, lo: nat, e: nat, hi: nat)
    requires lo <= e < hi <= |s|
    ensures ReversedRun(s, lo, e)[hi..] == s[hi..]
  {
    var r := ReversedRun(s, lo, e);
    assert r[hi..] == r[e + 1..][hi - e - 1..];
    assert s[hi..] == s[e + 1..][hi - e - 1..];
  }

  /** The shift count of minRunLength: the k with 2^(k + 4) <= n < 2^(k + 5), i.e.
      floor(log2 n) - 4, which takes n to [16, 32). */
  function MinRunShift(n: int): (k: nat)
    requires IsInt(n) && n >= MinMerge
    ensures Pow2(k + 4) <= n < Pow2(k + 5)
  {
    var v := Log2(n).value;
    LogAtLeastFive(n, v);
    v - 4
  }

  lemma LogAtLeastFive(n: int, v: nat)
    requires n >= MinMerge && n < Pow2(v + 1)
    ensures v >= 4
  {
    assert Pow2(5) == 32;
    if v < 4 {
      Pow2Less(v + 1, 5);
    }
  }

  /** The minimum run length of an array of n elements: n itself below MIN_MERGE,
      otherwise n / 2^k rounded up, for the shift k that brings n into [16, 32). */
  function MinRun(n: int): (r: int)
    requires IsInt(n) && n >= 0
    ensures n < MinMerge ==> r == n
    ensures n >= MinMerge ==> 16 <= r <= 32
  {
    if n < MinMerge then n
    else
      var k := MinRunShift(n);
      ShiftedIntoRange(n, k);
      Shr(n, k) + (if n % Pow2(k) == 0 then 0 else 1)
  }

  lemma ShiftedIntoRange(n: nat, k: nat)
    requires Pow2(k + 4) <= n < Pow2(k + 5)
    ensures 16 <= Shr(n, k) < 32
  {
    Pow2Add(k, 4);
    Pow2Add(k, 5);
    assert Pow2(4) == 16 && Pow2(5) == 32;
    ShrIsDiv(n, k);
    DivLowerBound(n, Pow2(k), 16);
    DivUpperBound(n, Pow2(k), 32);
  }

  /** A number in [lo, hi) after k halvings was in [2^k lo, 2^k hi) before them. */
  lemma ShiftedFrom(n: nat, k: nat, lo: nat, hi: nat)
    requires lo <= Shr(n, k) < hi
    ensures Pow2(k) * lo <= n < Pow2(k) * hi
  {
    ShrIsDiv(n, k);
    QuotientBracket(n, Pow2(k), lo, hi);
  }

  /** A quotient in [lo, hi) puts the dividend in [p lo, p hi). */
  lemma QuotientBracket(n: nat, p: nat, lo: nat, hi: nat)
    requires p > 0 && lo <= n / p < hi
    ensures p * lo <= n < p * hi
  {
    var q := n / p;
    assert n == p * q + n % p;
    MulMonotone(p, lo, q);
    MulMonotone(p, q + 1, hi);
    Distribute(p, q, 1);
  }

  /** Which bits are shifted off: the low k + 1 bits of x are zero exactly when the low
      k bits are zero and bit k is zero. */
  lemma LowBitsStep(x: nat, k: nat)
    ensures x % Pow2(k + 1) == 0 <==> x % Pow2(k) == 0 && Shr(x, k) % 2 == 0
  {
    ShrIsDiv(x, k);
    assert Pow2(k + 1) == 2 * Pow2(k);
    ModOfDouble(x, Pow2(k));
  }

  /** x is a multiple of 2p exactly when it is a multiple of p with an even quotient. */
  lemma ModOfDouble(x: nat, p: nat)
    requires p > 0
    ensures x % (2 * p) == 0 <==> x % p == 0 && (x / p) % 2 == 0
  {
    var q, r := x / p, x % p;
    var q2, b := q / 2, q % 2;
    assert x == p * q + r;
    assert p * q == p * (2 * q2) + p * b by {
      Distribute(p, 2 * q2, b);
    }
    assert p * (2 * q2) == (2 * p) * q2;
    MulMonotone(p, b, 1);
    DivModUnique(x, 2 * p, q2, p * b + r);
    if b == 1 {
      assert p * b == p;
    } else {
      assert p * b == 0;
    }
  }

  /** When the loop of minRunLength stops, its k halvings of n are the shift of MinRun. */
  lemma MinRunAtExit(n: int, k: nat, r: int)
    requires IsInt(n) && n >= MinMerge
    requires 16 <= Shr(n, k) < 32 && r == (if n % Pow2(k) == 0 then 0 else 1)
    ensures Shr(n, k) + r == MinRun(n)
  {
    assert Pow2(k + 4) <= n < Pow2(k + 5) by {
      ShiftedFrom(n, k, 16, 32);
      Pow2Add(k, 4);
      Pow2Add(k, 5);
      assert Pow2(4) == 16 && Pow2(5) == 32;
    }
    FloorLogUnique(n, MinRunShift(n) + 4, k + 4);
    assert MinRunShift(n) == k;
  }

  /** minRunLength(n): n is halved until it is below MIN_MERGE, and r becomes 1 once a
      1-bit is shifted off. r |= n & 1 is the or of two bits, and n >>= 1 on a
      non-negative n halves it. */
  method MinRunLength(n: int) returns (result: int)
    requires IsInt(n) && n >= 0
    ensures result == MinRun(n)
  {
    var m := n;
    var r := 0;
    ghost var k: nat := 0;
    while m >= MinMerge
      invariant m == Shr(n, k) && r == (if n % Pow2(k) == 0 then 0 else 1)
      invariant k > 0 ==> m >= 16
      invariant n < MinMerge ==> k == 0
      decreases m
    {
      LowBitsStep(n, k);
      ShrSucc(n, k);
      r := if r == 1 || m % 2 == 1 then 1 else 0;
      m := m / 2;
      k := k + 1;
    }
    if n >= MinMerge {
      MinRunAtExit(n, k, r);
    }
    result := m + r;
  }

  /** Rounding up a quotient: c copies of p cover n, and c - 1 do not. */
  lemma CeilingBounds(n: nat, p: nat)
    requires p > 0
    ensures var c := n / p + (if n % p == 0 then 0 else 1);
      (c - 1) * p < n <= c * p
  {
    var q, rem := n / p, n % p;
    assert n == q * p + rem;
    if rem == 0 {
      assert (q - 1) * p == q * p - p;
    } else {
      assert (q + 1) * p == q * p + p;
    }
  }

  /** For n >= MIN_MERGE the minimum run length is the ceiling of n / 2^k: k runs of it
      cover n, and k runs one shorter do not. */
  lemma MinRunIsCeiling(n: int)
    requires IsInt(n) && n >= MinMerge
    ensures var k := MinRunShift(n);
      (MinRun(n) - 1) * Pow2(k) < n <= MinRun(n) * Pow2(k)
  {
    var k := MinRunShift(n);
    ShrIsDiv(n, k);
    CeilingBounds(n, Pow2(k));
  }

  /** An exact power of two of at least MIN_MERGE has minimum run length MIN_MERGE / 2. */
  lemma MinRunOfPowerOfTwo(n: int, j: nat)
    requires IsInt(n) && n == Pow2(j) && n >= MinMerge
    ensures MinRun(n) == 16
  {
    var k := MinRunShift(n);
    assert k + 4 == j by {
      assert Pow2(j + 1) == 2 * Pow2(j);
      FloorLogUnique(n, k + 4, j);
    }
    var d := Pow2(k);
    assert n == d * 16 + 0 by {
      Pow2Add(k, 4);
      assert Pow2(4) == 16;
    }
    DivModUnique(n, d, 16, 0);
    ShrIsDiv(n, k);
    assert Shr(n, k) == 16 && n % d == 0;
  }
}
