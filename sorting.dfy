/** What "sorted" means for the int arrays the sorts work on, and the sequence
    operations their specifications are written with: reversal and the insertion of
    one element at an earlier position. */
module Sorting {

  /** Non-decreasing order, as Main.isSorted checks it. */
  predicate Sorted(s: seq<int>) {
    forall i, j :: 0 <= i < j < |s| ==> s[i] <= s[j]
  }

  /** Each element is strictly smaller than the one before it. */
  predicate StrictlyDescending(s: seq<int>) {
    forall i :: 0 < i < |s| ==> s[i] < s[i - 1]
  }

  /** Each element is at most the one before it. */
  predicate NonIncreasing(s: seq<int>) {
    forall i, j :: 0 <= i < j < |s| ==> s[i] >= s[j]
  }

  /** Same elements with the same multiplicities. */
  predicate Permutation(s: seq<int>, t: seq<int>) {
    multiset(s) == multiset(t)
  }

  /** t is the sorted rearrangement of s. */
  predicate SortedPermutation(t: seq<int>, s: seq<int>) {
    Sorted(t) && Permutation(t, s)
  }

  /** Reading a sorted slice at two absolute indices. */
  lemma SortedSliceOrder(s: seq<int>, lo: nat, hi: nat, x: nat, y: nat)
    requires lo <= x <= y < hi <= |s| && Sorted(s[lo..hi])
    ensures s[x] <= s[y]
  {
    assert s[lo..hi][x - lo] == s[x] && s[lo..hi][y - lo] == s[y];
  }

  /** Sortedness stated on adjacent pairs is enough. */
  lemma {:induction false} SortedByAdjacent(s: seq<int>)
    requires forall i :: 0 < i < |s| ==> s[i - 1] <= s[i]
    ensures Sorted(s)
    decreases |s|
  {
    if |s| > 1 {
      SortedByAdjacent(s[..|s| - 1]);
      assert forall i :: 0 <= i < |s| - 1 ==> s[i] <= s[|s| - 2];
    }
  }

  function Reverse<T>(s: seq<T>): (r: seq<T>)
    ensures |r| == |s|
    ensures forall i :: 0 <= i < |s| ==> r[i] == s[|s| - 1 - i]
  {
    if s == [] then [] else Reverse(s[1..]) + [s[0]]
  }

  lemma {:induction false} ReversePermutes(s: seq<int>)
    ensures Permutation(Reverse(s), s)
  {
    if s != [] {
      ReversePermutes(s[1..]);
      assert s == [s[0]] + s[1..];
    }
  }

  lemma ReverseTwice<T>(s: seq<T>)
    ensures Reverse(Reverse(s)) == s
  {
    assert forall i :: 0 <= i < |s| ==> Reverse(Reverse(s))[i] == s[i];
  }

  /** A strictly descending run reversed is sorted. */
  lemma ReverseOfDescending(s: seq<int>)
    requires StrictlyDescending(s)
    ensures Sorted(Reverse(s))
  {
    var r := Reverse(s);
    forall i | 0 < i < |r|
      ensures r[i - 1] <= r[i]
    {
      assert r[i] == s[|s| - 1 - i] && r[i - 1] == s[|s| - 1 - (i - 1)];
    }
    SortedByAdjacent(r);
  }

  /** A sorted run reversed does not increase. */
  lemma ReverseOfSorted(s: seq<int>)
    requires Sorted(s)
    ensures NonIncreasing(Reverse(s))
  {
  }

  /** s with its element at index from moved to index to, the elements in between
      moving up by one place. */
  function InsertAt(s: seq<int>, from: nat, to: nat): (r: seq<int>)
    requires to <= from < |s|
    ensures |r| == |s|
    ensures r[..to] == s[..to] && r[from + 1..] == s[from + 1..]
    ensures r[to] == s[from]
    ensures forall k :: to < k <= from ==> r[k] == s[k - 1]
  {
    s[..to] + [s[from]] + s[to..from] + s[from + 1..]
  }

  lemma InsertAtPermutes(s: seq<int>, from: nat, to: nat)
    requires to <= from < |s|
    ensures Permutation(InsertAt(s, from, to), s)
  {
    assert s == s[..to] + s[to..from] + [s[from]] + s[from + 1..];
  }

  /** Moving an element within [lo, hi) leaves everything outside it alone. */
  lemma InsertAtFrame(s: seq<int>, from: nat, to: nat, lo: nat, hi: nat)
    requires lo <= to <= from < hi <= |s|
    ensures InsertAt(s, from, to)[..lo] == s[..lo]
    ensures InsertAt(s, from, to)[hi..] == s[hi..]
  {
    var r := InsertAt(s, from, to);
    assert r[..lo] == r[..to][..lo];
    assert s[..lo] == s[..to][..lo];
    assert r[hi..] == r[from + 1..][hi - from - 1..];
    assert s[hi..] == s[from + 1..][hi - from - 1..];
  }

  /** Inserting the element at from after everything in [lo, to) that is at most it and
      before everything in [to, from) that is greater keeps the run [lo, from] sorted,
      and puts it after every equal key (upper-bound insertion). */
  lemma InsertAtSorted(s: seq<int>, lo: nat, from: nat, to: nat)
    requires lo <= to <= from < |s|
    requires Sorted(s[lo..from])
    requires forall k :: lo <= k < to ==> s[k] <= s[from]
    requires forall k :: to <= k < from ==> s[from] < s[k]
    ensures Sorted(InsertAt(s, from, to)[lo..from + 1])
  {
    var r := InsertAt(s, from, to);
    forall i | lo < i <= from
      ensures r[i - 1] <= r[i]
    {
      if i < to {
        assert r[i - 1] == s[i - 1] && r[i] == s[i];
        assert s[lo..from][i - 1 - lo] <= s[lo..from][i - lo];
      } else if i == to {
        assert r[i - 1] == s[i - 1];
      } else if i == to + 1 {
        assert r[i - 1] == s[from] && r[i] == s[i - 1];
      } else {
        assert r[i - 1] == s[i - 2] && r[i] == s[i - 1];
        assert s[lo..from][i - 2 - lo] <= s[lo..from][i - 1 - lo];
      }
    }
    var t := r[lo..from + 1];
    forall i | 0 < i < |t|
      ensures t[i - 1] <= t[i]
    {
      assert t[i - 1] == r[lo + i - 1] && t[i] == r[lo + i];
    }
    SortedByAdjacent(t);
  }

  /** The first element of a non-empty sorted sequence is its least element. */
  lemma SortedHeadIsLeast(t: seq<int>, x: int)
    requires Sorted(t) && |t| > 0 && x in multiset(t)
    ensures t[0] <= x
  {
    assert x in t;
  }

  /** Two sorted rearrangements of each other have the same least element first. */
  lemma SortedPermutationHeads(t1: seq<int>, t2: seq<int>)
    requires Sorted(t1) && Sorted(t2) && Permutation(t1, t2) && |t1| > 0
    ensures |t2| > 0 && t1[0] == t2[0]
  {
    assert |t2| == |multiset(t2)| == |multiset(t1)| == |t1|;
    assert t1[0] in t1 && t2[0] in t2;
    SortedHeadIsLeast(t2, t1[0]);
    SortedHeadIsLeast(t1, t2[0]);
  }

  /** Taking off the head of a sequence takes one copy of it off its multiset. */
  lemma MultisetOfTail(t: seq<int>)
    requires |t| > 0
    ensures multiset(t[1..]) == multiset(t) - multiset{t[0]}
  {
    assert t == [t[0]] + t[1..];
  }

  lemma SortedTail(t: seq<int>)
    requires Sorted(t) && |t| > 0
    ensures Sorted(t[1..])
  {
  }

  /** There is only one sorted rearrangement of a sequence: any two sorts agree. */
  lemma {:induction false} SortedPermutationUnique(t1: seq<int>, t2: seq<int>)
    requires Sorted(t1) && Sorted(t2) && Permutation(t1, t2)
    ensures t1 == t2
    decreases |t1|
  {
    if |t1| == 0 {
      assert |t2| == |multiset(t2)| == |multiset(t1)| == 0;
    } else {
      SortedPermutationHeads(t1, t2);
      MultisetOfTail(t1);
      MultisetOfTail(t2);
      SortedTail(t1);
      SortedTail(t2);
      SortedPermutationUnique(t1[1..], t2[1..]);
      assert t1 == [t1[0]] + t1[1..] && t2 == [t2[0]] + t2[1..];
    }
  }

  /** A three-way split of a sequence at lo <= hi. */
  lemma Split3(s: seq<int>, lo: nat, hi: nat)
    requires lo <= hi <= |s|
    ensures s == s[..lo] + s[lo..hi] + s[hi..]
    ensures multiset(s) == multiset(s[..lo]) + multiset(s[lo..hi]) + multiset(s[hi..])
  {
    assert s == s[..lo] + s[lo..hi] + s[hi..];
  }

  /** A rearrangement of a whole sequence that leaves [..lo] and [hi..] alone rearranges
      [lo, hi). */
  lemma SlicePermutation(s: seq<int>, t: seq<int>, lo: nat, hi: nat)
    requires |s| == |t| && lo <= hi <= |s|
    requires Permutation(s, t) && s[..lo] == t[..lo] && s[hi..] == t[hi..]
    ensures Permutation(s[lo..hi], t[lo..hi])
  {
    Split3(s, lo, hi);
    Split3(t, lo, hi);
    assert multiset(s[lo..hi]) == multiset(s) - multiset(s[..lo]) - multiset(s[hi..]);
    assert multiset(t[lo..hi]) == multiset(t) - multiset(t[..lo]) - multiset(t[hi..]);
  }

  /** The pointwise description of overwriting s[lo..lo + |m|) with m gives the
      sequence one. */
  lemma Spliced(s: seq<int>, t: seq<int>, lo: nat, m: seq<int>)
    requires |s| == |t| && lo + |m| <= |s|
    requires forall q :: 0 <= q < |s| && (q < lo || lo + |m| <= q) ==> t[q] == s[q]
    requires forall q :: lo <= q < lo + |m| ==> t[q] == m[q - lo]
    ensures t == s[..lo] + m + s[lo + |m|..]
  {
    var r := s[..lo] + m + s[lo + |m|..];
    forall q | 0 <= q < |s|
      ensures t[q] == r[q]
    {
      if q < lo {
        assert r[q] == s[q];
      } else if q < lo + |m| {
        assert r[q] == m[q - lo];
      } else {
        assert r[q] == s[lo + |m|..][q - lo - |m|];
      }
    }
  }

  /** t is s with at most the cells of [lo, hi) rearranged. */
  predicate Rearranged(t: seq<int>, s: seq<int>, lo: int, hi: int) {
    0 <= lo <= hi <= |s| == |t| && Permutation(t, s) && t[..lo] == s[..lo] && t[hi..] == s[hi..]
  }

  /** A rearrangement of the slice [lo, hi) with the rest left alone rearranges the
      whole sequence within [lo, hi). */
  lemma SliceRearranged(t: seq<int>, s: seq<int>, lo: int, hi: int)
    requires 0 <= lo <= hi <= |s| == |t|
    requires t[..lo] == s[..lo] && t[hi..] == s[hi..] && Permutation(t[lo..hi], s[lo..hi])
    ensures Rearranged(t, s, lo, hi)
  {
    Split3(s, lo, hi);
    Split3(t, lo, hi);
  }

  lemma RearrangedTrans(u: seq<int>, t: seq<int>, s: seq<int>, lo: int, hi: int)
    requires Rearranged(u, t, lo, hi) && Rearranged(t, s, lo, hi)
    ensures Rearranged(u, s, lo, hi)
  {
  }

  /** A rearrangement of [x, hi) after one of [c, hi), x <= c, rearranges [x, hi). */
  lemma RearrangedGrow(u: seq<int>, t: seq<int>, s: seq<int>, x: int, c: int, hi: int)
    requires x <= c && Rearranged(u, t, x, hi) && Rearranged(t, s, c, hi)
    ensures Rearranged(u, s, x, hi)
  {
    RearrangedWiden(t, s, c, hi, x, hi);
  }

  /** The multiset of a slice is the sum of the multisets of its two parts. */
  lemma MultisetSplit(s: seq<int>, a: nat, b: nat, c: nat)
    requires a <= b <= c <= |s|
    ensures multiset(s[a..c]) == multiset(s[a..b]) + multiset(s[b..c])
  {
    assert s[a..c] == s[a..b] + s[b..c];
  }

  /** The three parts of s with the slice [lo, hi) replaced by m. */
  lemma SpliceSlices(s: seq<int>, lo: nat, hi: nat, m: seq<int>)
    requires lo <= hi <= |s| && |m| == hi - lo
    ensures var t := s[..lo] + m + s[hi..];
      |t| == |s| && t[..lo] == s[..lo] && t[lo..hi] == m && t[hi..] == s[hi..]
  {
    var t := s[..lo] + m + s[hi..];
    assert t[..lo] == s[..lo] && t[lo..hi] == m && t[hi..] == s[hi..];
  }


  /** A rearrangement within a range is one within any larger range. */
  lemma RearrangedWiden(t: seq<int>, s: seq<int>, lo: int, hi: int, lo': int, hi': int)
    requires Rearranged(t, s, lo, hi) && 0 <= lo' <= lo && hi <= hi' <= |s|
    ensures Rearranged(t, s, lo', hi')
  {
    assert t[..lo'] == t[..lo][..lo'] && s[..lo'] == s[..lo][..lo'];
    assert t[hi'..] == t[hi..][hi' - hi..] && s[hi'..] == s[hi..][hi' - hi..];
  }

  /** Cells in front of lo are the same after a rearrangement within [lo, hi). */
  lemma RearrangedPrefix(t: seq<int>, s: seq<int>, lo: int, hi: int, x: int, y: int)
    requires Rearranged(t, s, lo, hi) && 0 <= x <= y <= lo
    ensures t[x..y] == s[x..y]
  {
    assert t[x..y] == t[..lo][x..y] && s[x..y] == s[..lo][x..y];
  }

  /** Cells from hi on are the same after a rearrangement within [lo, hi). */
  lemma RearrangedSuffix(t: seq<int>, s: seq<int>, lo: int, hi: int, x: int, y: int)
    requires Rearranged(t, s, lo, hi) && hi <= x <= y <= |s|
    ensures t[x..y] == s[x..y]
  {
    forall q | x <= q < y
      ensures t[q] == s[q]
    {
      assert t[q] == t[hi..][q - hi] && s[q] == s[hi..][q - hi];
    }
  }
}
