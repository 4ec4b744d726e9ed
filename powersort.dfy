/** Powersort (myPowersort.powerSort): runs are found left to right, each new run gets
    the node power of its boundary with the run before it, and a stack indexed by power
    holds the runs still waiting; before a run is pushed at power p, every run stored
    above p is merged into the run in hand. */
module Powersort {
  import opened JavaInt
  import opened Sorting
  import opened Runs
  import opened Merge
  import opened MergePolicy
  import Timsort

  /** NULL_INDEX: the mark of an empty stack slot. */
  const NullIndex: int := IntMin

  /** minRunLength: shorter runs are extended by insertion sort to this many more cells. */
  const MinRunLength: int := 3

  /** The last three cells of input[left..right] strictly descend: the shape the
      unreversed final run of findRun leaves unsorted. */
  predicate DescendingTail(s: seq<int>, left: int, right: int)
    requires 0 <= left && right < |s|
  {
    right - left >= 2 && s[right - 1] < s[right - 2] && s[right] < s[right - 1]
  }

  /** What findRun left behind, as Runs.FindRun states it, for a start with a next cell. */
  predicate FoundRun(s: seq<int>, t: seq<int>, start: int, right: int, e: int)
    requires 0 <= start <= right && start + 1 < |s| == |t| && right < |s|
  {
    (s[start + 1] >= s[start] ==> AscendingRunAt(s, start, right, e) && t == s)
    && (s[start + 1] < s[start] ==>
          DescendingRunAt(s, start, right, e)
          && t == (if e < right then ReversedRun(s, start, e) else s))
  }

  /** The run [start, e] that findRun or countRunAndMakeAscending found in s, leaving
      t: only the run is rearranged, and it is sorted, except (as written) a strictly
      descending stretch up to right, which is found whole and left in place. */
  predicate RunFinderResult(s: seq<int>, t: seq<int>, start: int, right: int, e: int, corrected: bool)
    requires 0 <= start <= right < |s| == |t|
  {
    start <= e <= right && Rearranged(t, s, start, e + 1)
    && (Sorted(t[start..e + 1])
        || (!corrected && e == right && StrictlyDescending(s[start..right + 1]) && t == s))
    && (!corrected && right - start >= 1 && StrictlyDescending(s[start..right + 1]) ==> e == right && t == s)
  }

  /** The run [start, e] that lines 106-111 or 113-118 leave: as RunFinderResult, and the
      descending stretch left in place has at least three cells. */
  predicate RunFound(s: seq<int>, t: seq<int>, start: int, right: int, e: int, corrected: bool)
    requires 0 <= start <= right < |s| == |t|
  {
    start <= e <= right && Rearranged(t, s, start, e + 1)
    && (Sorted(t[start..e + 1])
        || (!corrected && e == right && right - start >= 2 && StrictlyDescending(s[start..right + 1]) && t == s))
    && (!corrected && right - start >= 2 && StrictlyDescending(s[start..right + 1]) ==> e == right && t == s)
  }

  /** A strictly descending stretch up to right is one maximal descending run. */
  lemma DescendingToEnd(s: seq<int>, start: int, right: int, e: int)
    requires 0 <= start < right < |s| && StrictlyDescending(s[start..right + 1])
    requires s[start + 1] >= s[start] ==> AscendingRunAt(s, start, right, e)
    requires s[start + 1] < s[start] ==> DescendingRunAt(s, start, right, e)
    ensures s[start + 1] < s[start] && e == right
  {
    assert s[start..right + 1][1] < s[start..right + 1][0];
  }

  /** findRun only rearranges its run, and a strictly descending stretch up to right is
      found whole and left as it is. */
  lemma FoundRunRearranges(s: seq<int>, t: seq<int>, start: int, right: int, e: int)
    requires 0 <= start <= right && start + 1 < |s| == |t| && right < |s|
    requires FoundRun(s, t, start, right, e)
    requires Sorted(t[start..e + 1]) || (e == right && StrictlyDescending(t[start..e + 1]) && t == s)
    ensures RunFinderResult(s, t, start, right, e, false)
  {
    if s[start + 1] >= s[start] {
      assert start <= e <= right && t == s;
    } else {
      assert start <= e <= right;
    }
    if right - start >= 1 && StrictlyDescending(s[start..right + 1]) {
      DescendingToEnd(s, start, right, e);
    }
  }

  /** countRunAndMakeAscending only rearranges the run it returns, and that run is
      sorted. */
  lemma CountedRunRearranges(s: seq<int>, t: seq<int>, lo: int, right: int, len: int)
    requires 0 <= lo <= right < |s| == |t| && 1 <= len <= right + 1 - lo
    requires Timsort.CountedRun(s, t, lo, right + 1, len)
    ensures RunFinderResult(s, t, lo, right, lo + len - 1, true)
  {
  }

  /** A run of at least minRunLength cells is kept as found. */
  lemma LongRun(s: seq<int>, t: seq<int>, start: int, right: int, e: int, corrected: bool)
    requires 0 <= start <= right < |s| == |t| && e - start >= 2
    requires RunFinderResult(s, t, start, right, e, corrected)
    ensures RunFound(s, t, start, right, e, corrected)
  {
  }

  /** Insertion sorting [start, end] after the short run [start, short] was found is a
      run found up to end. */
  lemma ExtendedRun(s: seq<int>, t: seq<int>, u: seq<int>, start: int, right: int, short: int, end: int, corrected: bool)
    requires 0 <= start <= short <= end <= right < |s| == |t| == |u| && short - start < 2
    requires end == right || end - start >= 2
    requires RunFinderResult(s, t, start, right, short, corrected)
    requires start < end ==> u[..start] == t[..start] && u[end + 1..] == t[end + 1..]
    requires start < end ==> SortedPermutation(u[start..end + 1], t[start..end + 1])
    requires end <= start ==> u == t
    ensures RunFound(s, u, start, right, end, corrected)
  {
    RearrangedWiden(t, s, start, short + 1, start, end + 1);
    if start < end {
      SliceRearranged(u, t, start, end + 1);
    }
  }

  /** The run from start as found by findRun (line 107 and 114) or, with corrected, by
      countRunAndMakeAscending, which never reads past right and always leaves an
      ascending run. */
  method FindOrCountRun(input: array<int>, start: int, right: int, corrected: bool) returns (r: Result<int>)
    requires 0 <= start <= right < input.Length
    modifies input
    ensures r.Throws? <==> !corrected && start + 1 == input.Length
    ensures r.Throws? ==> r.error == IndexOutOfBounds && input[..] == old(input[..])
    ensures r.Ok? ==> RunFinderResult(old(input[..]), input[..], start, right, r.value, corrected)
  {
    if corrected {
      var len := Timsort.CountRunAndMakeAscending(input, start, right + 1);
      CountedRunRearranges(old(input[..]), input[..], start, right, len);
      return Ok(start + len - 1);
    }
    r := FindRun(input, start, right);
    if r.Ok? {
      FoundRunRearranges(old(input[..]), input[..], start, right, r.value);
    }
  }

  /** The next run from start (lines 106-111 and 113-118): the run found from start,
      and a run shorter than minRunLength is extended to min(start + 3, right) and
      insertion sorted. */
  method NextRun(input: array<int>, start: int, right: int, corrected: bool) returns (r: Result<int>)
    requires 0 <= start <= right < input.Length
    modifies input
    ensures r.Throws? <==> !corrected && start + 1 == input.Length
    ensures r.Throws? ==> r.error == IndexOutOfBounds && input[..] == old(input[..])
    ensures r.Ok? ==> RunFound(old(input[..]), input[..], start, right, r.value, corrected)
  {
    r := FindOrCountRun(input, start, right, corrected);
    if r.Throws? {
      return;
    }
    var end := r.value;
    if end - start + 1 >= MinRunLength {
      LongRun(old(input[..]), input[..], start, right, end, corrected);
    } else {
      ghost var found, short := input[..], end;
      end := if start + MinRunLength < right then start + MinRunLength else right;
      InsertionSort(input, start, end);
      ExtendedRun(old(input[..]), found, input[..], start, right, short, end, corrected);
    }
    return Ok(end);
  }

  /** A strictly descending stretch [start, right] of at least three cells, copied
      unchanged from s0, ends s0[left..right] in a descending tail. */
  lemma DescendingTailFrom(s: seq<int>, s0: seq<int>, left: int, start: int, right: int)
    requires 0 <= left <= start && right - start >= 2 && right < |s| == |s0|
    requires StrictlyDescending(s[start..right + 1])
    requires s[start..] == s0[start..]
    ensures DescendingTail(s0, left, right)
  {
    var d := s[start..right + 1];
    assert d[right - 1 - start] == s[right - 1] == s0[start..][right - 1 - start] == s0[right - 1];
    assert d[right - 2 - start] == s[right - 2] == s0[start..][right - 2 - start] == s0[right - 2];
    assert d[right - start] == s[right] == s0[start..][right - start] == s0[right];
  }

  /** The run stack (rs, re) below slot k, read from slot k - 1 downwards: the occupied
      slots hold sorted runs [rs[q], re[q]] of s lying next to each other, the highest
      ending just before start and the lowest beginning at left. An empty slot holds
      NULL_INDEX in rs. */
  ghost predicate Chain(s: seq<int>, rs: seq<int>, re: seq<int>, k: nat, start: int, left: int)
    requires k <= |rs| == |re|
    decreases k
  {
    if k == 0 then start == left
    else if rs[k - 1] == NullIndex then Chain(s, rs, re, k - 1, start, left)
    else
      0 <= left <= rs[k - 1] <= re[k - 1] && re[k - 1] + 1 == start && start <= |s|
      && Sorted(s[rs[k - 1]..start]) && Chain(s, rs, re, k - 1, rs[k - 1], left)
  }

  /** The stacks s and t hold the same entries in the slots below p. */
  ghost predicate SameBelow(s: seq<int>, t: seq<int>, p: int) {
    forall q :: 0 <= q < p && q < |s| && q < |t| ==> s[q] == t[q]
  }

  /** Every slot in [k, k2) is empty. */
  ghost predicate EmptyFrom(rs: seq<int>, k: nat, k2: nat)
    requires k2 <= |rs|
  {
    forall q :: k <= q < k2 ==> rs[q] == NullIndex
  }

  /** The runs on the stack start at left or later. */
  lemma {:induction false} ChainLeft(s: seq<int>, rs: seq<int>, re: seq<int>, k: nat, start: int, left: int)
    requires k <= |rs| == |re| && Chain(s, rs, re, k, start, left)
    ensures left <= start
    decreases k
  {
    if k > 0 {
      if rs[k - 1] == NullIndex {
        ChainLeft(s, rs, re, k - 1, start, left);
      }
    }
  }

  /** Empty slots on top of the stack do not matter. */
  lemma {:induction false} ChainEmptyAbove(s: seq<int>, rs: seq<int>, re: seq<int>, k: nat, k2: nat, start: int, left: int)
    requires k <= k2 <= |rs| == |re| && EmptyFrom(rs, k, k2)
    ensures Chain(s, rs, re, k2, start, left) == Chain(s, rs, re, k, start, left)
    decreases k2
  {
    if k < k2 {
      ChainEmptyAbove(s, rs, re, k, k2 - 1, start, left);
    }
  }

  /** The stack below slot k stays valid when nothing below k and nothing in front of
      start changes. */
  lemma {:induction false} ChainFrame(s: seq<int>, t: seq<int>, rs: seq<int>, re: seq<int>,
                                      rs': seq<int>, re': seq<int>, k: nat, start: int, left: int)
    requires k <= |rs| == |re| && k <= |rs'| == |re'|
    requires forall q :: 0 <= q < k ==> rs'[q] == rs[q] && re'[q] == re[q]
    requires 0 <= left && 0 <= start <= |s| == |t| && s[..start] == t[..start]
    requires Chain(s, rs, re, k, start, left)
    ensures Chain(t, rs', re', k, start, left)
    decreases k
  {
    if k > 0 {
      if rs[k - 1] == NullIndex {
        ChainFrame(s, t, rs, re, rs', re', k - 1, start, left);
      } else {
        var st := rs[k - 1];
        ChainLeft(s, rs, re, k - 1, st, left);
        assert s[st..start] == s[..start][st..start] == t[..start][st..start] == t[st..start];
        assert s[..st] == s[..start][..st] == t[..start][..st] == t[..st];
        ChainFrame(s, t, rs, re, rs', re', k - 1, st, left);
      }
    }
  }

  /** The stack holds nothing but the runs it chains: with the stack empty, the run in
      hand starts at left. */
  lemma ChainOfEmpty(s: seq<int>, rs: seq<int>, re: seq<int>, k: nat, start: int, left: int)
    requires k <= |rs| == |re| && EmptyFrom(rs, 0, k) && Chain(s, rs, re, k, start, left)
    ensures start == left
  {
    ChainEmptyAbove(s, rs, re, 0, k, start, left);
  }

  /** Merging the top run [rs[i], start) of the stack into the run in hand
      [start, endA] leaves the run [rs[i], endA] in hand, sorted if [start, endA] was,
      with the stack below slot i as it was. */
  lemma MergedTop(s: seq<int>, t: seq<int>, rs: seq<int>, re: seq<int>,
                  i: nat, start: int, endA: int, left: int)
    requires i < |rs| == |re| && rs[i] != NullIndex
    requires 0 <= left && start <= endA < |s|
    requires Chain(s, rs, re, i + 1, start, left)
    requires MergedRuns(t, s, rs[i], re[i] + 1, endA)
    ensures left <= rs[i] < start && re[i] + 1 == start
    ensures Chain(t, rs, re, i, rs[i], left)
    ensures Rearranged(t, s, rs[i], endA + 1)
    ensures Sorted(s[start..endA + 1]) ==> Sorted(t[rs[i]..endA + 1])
  {
    var x := rs[i];
    assert re[i] + 1 == start && Sorted(s[x..start]);
    MergedRunsFacts(t, s, x, start, endA);
    RearrangedPrefix(t, s, x, endA + 1, 0, x);
    assert t[..x] == t[0..x] && s[..x] == s[0..x];
    ChainFrame(s, t, rs, re, rs, re, i, x, left);
  }

  /** Lines 125 and 138: the run of slot i, which ends just before the run in hand
      [start, endA], is merged into it. */
  method MergeSlotRun(input: array<int>, rs: array<int>, re: array<int>, i: int,
                      ghost start: int, endA: int, buffer: array<int>, ghost left: int)
    returns (r: Outcome)
    requires input != buffer && rs != input && rs != buffer && re != input && re != buffer
    requires 0 <= i < rs.Length == re.Length && rs[i] != NullIndex
    requires 0 <= left && start <= endA < input.Length
    requires Chain(input[..], rs[..], re[..], i + 1, start, left)
    modifies input, buffer
    ensures left <= rs[i] < start
    ensures r.Abrupt? ==> r.error == IndexOutOfBounds && input[..] == old(input[..])
    ensures buffer.Length > endA ==> r.Normal?
    ensures r.Normal? ==> Chain(input[..], rs[..], re[..], i, rs[i], left)
    ensures r.Normal? ==> Rearranged(input[..], old(input[..]), rs[i], endA + 1)
    ensures r.Normal? && Sorted(old(input[start..endA + 1])) ==> Sorted(input[rs[i]..endA + 1])
  {
    ghost var s := input[..];
    r := MergeRuns(input, rs[i], re[i] + 1, endA, buffer);
    if r.Normal? {
      MergedTop(s, input[..], rs[..], re[..], i, start, endA, left);
    }
  }

  /** Lines 125-127: the run of slot i, which ends just before the run in hand
      [start, endA], is merged into it, and the slot gets NULL_INDEX. */
  method MergeSlot(input: array<int>, rs: array<int>, re: array<int>, i: int,
                   start: int, endA: int, buffer: array<int>, ghost left: int)
    returns (r: Outcome)
    requires input != buffer && rs != input && rs != buffer && re != input && re != buffer && rs != re
    requires 0 <= i < rs.Length == re.Length && rs[i] != NullIndex
    requires 0 <= left && start <= endA < input.Length
    requires Chain(input[..], rs[..], re[..], i + 1, start, left)
    modifies input, rs, buffer
    ensures left <= old(rs[i]) < start
    ensures r.Abrupt? ==> r.error == IndexOutOfBounds && input[..] == old(input[..]) && rs[..] == old(rs[..])
    ensures buffer.Length > endA ==> r.Normal?
    ensures r.Normal? ==> rs[..] == old(rs[..])[i := NullIndex]
    ensures r.Normal? ==> Chain(input[..], rs[..], re[..], i, old(rs[i]), left)
    ensures r.Normal? ==> Rearranged(input[..], old(input[..]), old(rs[i]), endA + 1)
    ensures r.Normal? && Sorted(old(input[start..endA + 1])) ==> Sorted(input[old(rs[i])..endA + 1])
  {
    ghost var rs0 := rs[..];
    r := MergeSlotRun(input, rs, re, i, start, endA, buffer, left);
    if r.Normal? {
      ghost var x := rs[i];
      rs[i] := NullIndex;
      ChainFrame(input[..], input[..], rs0, re[..], rs[..], re[..], i, x, left);
    }
  }

  /** Lines 120-128: every occupied slot from top down to just above p is merged into
      the run in hand [startA, endA], which grows to the left; the emptied slots get
      NULL_INDEX. Returns the start of the grown run. The slots are visited only from
      top down: those above top are already empty. */
  method MergeDown(input: array<int>, rs: array<int>, re: array<int>, top: int, p: int,
                   startA: int, endA: int, buffer: array<int>, ghost left: int)
    returns (r: Outcome, start: int)
    requires input != buffer && rs != input && rs != buffer && re != input && re != buffer && rs != re
    requires rs.Length == re.Length && 1 <= p
    requires top == 0 || 0 < top < rs.Length
    requires forall q :: top < q < rs.Length ==> rs[q] == NullIndex
    requires p < rs.Length ==> rs[p] == NullIndex
    requires 0 <= left <= startA <= endA < input.Length
    requires Chain(input[..], rs[..], re[..], rs.Length, startA, left)
    requires Sorted(input[startA..endA + 1])
    modifies input, rs, buffer
    ensures r.Abrupt? ==> r.error == IndexOutOfBounds && Rearranged(input[..], old(input[..]), left, endA + 1)
    ensures buffer.Length > endA ==> r.Normal?
    ensures r.Normal? ==> left <= start <= startA && Rearranged(input[..], old(input[..]), start, endA + 1)
    ensures r.Normal? ==> Sorted(input[start..endA + 1])
    ensures r.Normal? ==> Chain(input[..], rs[..], re[..], rs.Length, start, left)
    ensures r.Normal? ==> forall q :: p <= q < rs.Length ==> rs[q] == NullIndex
    ensures forall q :: 0 <= q < rs.Length && q < p ==> rs[q] == old(rs[q])
  {
    start := startA;
    var i := top;
    while i > p
      invariant 0 <= i <= top && (p <= i || i == top)
      invariant forall q :: i < q < rs.Length ==> rs[q] == NullIndex
      invariant forall q :: 0 <= q < rs.Length && (q <= i || top < q) ==> rs[q] == old(rs[q])
      invariant left <= start <= startA
      invariant Chain(input[..], rs[..], re[..], rs.Length, start, left)
      invariant Sorted(input[start..endA + 1])
      invariant Rearranged(input[..], old(input[..]), start, endA + 1)
    {
      if rs[i] != NullIndex {
        ghost var s, rs0 := input[..], rs[..];
        ChainEmptyAbove(s, rs0, re[..], i + 1, rs.Length, start, left);
        var x := rs[i];
        var m := MergeSlot(input, rs, re, i, start, endA, buffer, left);
        if m.Abrupt? {
          RearrangedWiden(input[..], old(input[..]), start, endA + 1, left, endA + 1);
          return m, start;
        }
        assert rs[..] == rs0[i := NullIndex];
        RearrangedGrow(input[..], s, old(input[..]), x, start, endA + 1);
        start := x;
        ChainEmptyAbove(input[..], rs[..], re[..], i, rs.Length, start, left);
      }
      i := i - 1;
    }
    r := Normal;
  }

  /** Lines 136-139: every occupied slot from top down to 1 is merged into the run
      [cur, endA] in hand, endA being right by then. The slots keep their entries:
      the visit order alone makes each merge join the run next to the one in hand. */
  method MergeAll(input: array<int>, rs: array<int>, re: array<int>, top: int, cur: int, endA: int,
                  buffer: array<int>, ghost left: int)
    returns (r: Outcome)
    requires input != buffer && rs != input && rs != buffer && re != input && re != buffer
    requires rs.Length == re.Length
    requires top == 0 || 0 < top < rs.Length
    requires forall q :: top < q < rs.Length ==> rs[q] == NullIndex
    requires rs.Length > 0 ==> rs[0] == NullIndex
    requires 0 <= left <= cur <= endA < input.Length
    requires Chain(input[..], rs[..], re[..], rs.Length, cur, left)
    modifies input, buffer
    ensures Rearranged(input[..], old(input[..]), left, endA + 1)
    ensures r.Abrupt? ==> r.error == IndexOutOfBounds
    ensures buffer.Length > endA ==> r.Normal?
    ensures r.Normal? && Sorted(old(input[cur..endA + 1])) ==> Sorted(input[left..endA + 1])
    ensures top == 0 ==> r.Normal? && input[..] == old(input[..])
  {
    ghost var ok := Sorted(input[cur..endA + 1]);
    ghost var c := cur;
    if top < rs.Length {
      ChainEmptyAbove(input[..], rs[..], re[..], top + 1, rs.Length, c, left);
    }
    var i := top;
    while i > 0
      invariant 0 <= i <= top
      invariant left <= c <= cur
      invariant i < rs.Length ==> Chain(input[..], rs[..], re[..], i + 1, c, left)
      invariant ok ==> Sorted(input[c..endA + 1])
      invariant Rearranged(input[..], old(input[..]), c, endA + 1)
      invariant top == 0 ==> input[..] == old(input[..])
    {
      if rs[i] != NullIndex {
        ghost var s := input[..];
        var m := MergeSlotRun(input, rs, re, i, c, endA, buffer, left);
        if m.Abrupt? {
          RearrangedWiden(input[..], old(input[..]), c, endA + 1, left, endA + 1);
          return m;
        }
        RearrangedGrow(input[..], s, old(input[..]), rs[i], c, endA + 1);
        c := rs[i];
      } else {
        ChainEmptyAbove(input[..], rs[..], re[..], i, i + 1, c, left);
      }
      i := i - 1;
    }
    if rs.Length > 0 {
      assert Chain(input[..], rs[..], re[..], 0, c, left);
    }
    RearrangedWiden(input[..], old(input[..]), c, endA + 1, left, endA + 1);
    r := Normal;
  }

  /** Every occupied slot q of the stack lies in [1, 31], and bit 31 - q of the scaled
      midpoint m of the run in hand is set. A new boundary of power p has a 0 at bit
      31 - p of that midpoint, so slot p is free when the run is pushed there. */
  ghost predicate SlotsMarked(rs: seq<int>, m: nat) {
    forall q :: 0 <= q < |rs| && rs[q] != NullIndex ==> 1 <= q <= 31 && Bit(m, 31 - q) == 1
  }

  /** Slot 0 of a marked stack is never occupied. */
  lemma SlotZeroFree(rs: seq<int>, m: nat)
    requires SlotsMarked(rs, m)
    ensures |rs| > 0 ==> rs[0] == NullIndex
  {
  }

  /** The slot of a new boundary's power is free. */
  lemma PowerSlotFree(rs: seq<int>, left: int, right: int, startA: int, startB: int, endB: int)
    requires NodePowerArgs(left, right, startA, startB, endB)
    requires SlotsMarked(rs, ScaledMidpoint(left, right, startA, startB))
    ensures var p := NodePower(left, right, startA, startB, endB);
      p < |rs| ==> rs[p] == NullIndex
  {
    NodePowerSplitsMidpoints(left, right, startA, startB, endB);
  }

  /** The slot of the new node's power is free on the stack and lies at most one
      above the logarithm of the range's length. */
  lemma PowerSlotBelowBound(rs: seq<int>, left: int, right: int, startA: int, startB: int, endB: int,
                            lg: nat)
    requires NodePowerArgs(left, right, startA, startB, endB)
    requires SlotsMarked(rs, ScaledMidpoint(left, right, startA, startB))
    requires Pow2(lg) <= right - left + 1 < Pow2(lg + 1)
    ensures var p := NodePower(left, right, startA, startB, endB);
      1 <= p <= lg + 1 && (p < |rs| ==> rs[p] == NullIndex)
  {
    PowerSlotFree(rs, left, right, startA, startB, endB);
    NodePowerBound(left, right, startA, startB, endB, lg);
  }

  /** Pushing the run before the boundary at the slot of its power keeps every
      occupied slot marked by the midpoint of the next run: the slots below the power
      are marked by bits the two midpoints share, and the power's own slot by the bit
      where the next midpoint has its 1. */
  lemma PushKeepsMarks(rs: seq<int>, rs': seq<int>, left: int, right: int, startA: int, startB: int, endB: int)
    requires NodePowerArgs(left, right, startA, startB, endB)
    requires |rs'| == |rs| && SlotsMarked(rs, ScaledMidpoint(left, right, startA, startB))
    requires var p := NodePower(left, right, startA, startB, endB);
      forall q :: 0 <= q < |rs| ==> rs'[q] == (if q < p then rs[q] else if q == p then rs'[q] else NullIndex)
    ensures SlotsMarked(rs', ScaledMidpoint(left, right, startB, endB + 1))
  {
    var p := NodePower(left, right, startA, startB, endB);
    NodePowerSplitsMidpoints(left, right, startA, startB, endB);
    forall q | 0 <= q < |rs'| && rs'[q] != NullIndex
      ensures 1 <= q <= 31 && Bit(ScaledMidpoint(left, right, startB, endB + 1), 31 - q) == 1
    {
      if q < p {
        NodePowerSharedBits(left, right, startA, startB, endB, q);
      }
    }
  }

  /** The first run [left, e] found from left (lines 106-111): the state the main loop
      starts in. */
  lemma FirstRun(s0: seq<int>, t: seq<int>, left: int, right: int, e: int, corrected: bool)
    requires 0 <= left <= right < |s0| == |t|
    requires RunFound(s0, t, left, right, e, corrected)
    ensures left <= e <= right && Rearranged(t, s0, left, e + 1)
    ensures e < right || corrected || !DescendingTail(s0, left, right) ==> Sorted(t[left..e + 1])
    ensures !corrected && right - left >= 2 && StrictlyDescending(s0[left..right + 1]) ==> e == right && t == s0
  {
    if !Sorted(t[left..e + 1]) {
      DescendingTailFrom(s0, s0, left, left, right);
    }
  }

  /** Finding the next run B = [startB, endB] right after the run in hand A = [startA,
      endA] (lines 113-118) leaves A and everything in front of it alone. */
  lemma RunBesideRun(s0: seq<int>, sPre: seq<int>, sB: seq<int>, left: int, startA: int, startB: int,
                     endB: int, right: int, corrected: bool)
    requires 0 <= left <= startA < startB <= right < |s0| == |sPre| == |sB|
    requires Rearranged(sPre, s0, left, startB) && Sorted(sPre[startA..startB])
    requires RunFound(sPre, sB, startB, right, endB, corrected)
    ensures startB <= endB <= right && Rearranged(sB, s0, left, endB + 1)
    ensures sB[..startA] == sPre[..startA] && Sorted(sB[startA..startB])
    ensures endB < right || corrected || !DescendingTail(s0, left, right) ==> Sorted(sB[startB..endB + 1])
  {
    RearrangedWiden(sPre, s0, left, startB, left, endB + 1);
    RearrangedWiden(sB, sPre, startB, endB + 1, left, endB + 1);
    RearrangedPrefix(sB, sPre, startB, endB + 1, 0, startA);
    assert sB[..startA] == sB[0..startA] && sPre[..startA] == sPre[0..startA];
    RearrangedPrefix(sB, sPre, startB, endB + 1, startA, startB);
    if !Sorted(sB[startB..endB + 1]) {
      assert sPre[startB..] == s0[startB..];
      DescendingTailFrom(sPre, s0, left, startB, right);
    }
  }

  /** Placing the run [startA, endA] on the stack (t from sB) leaves the next run
      [endA + 1, endB] as it was. */
  lemma PlacedBesideRun(s0: seq<int>, sB: seq<int>, t: seq<int>, left: int, endA: int, endB: int, right: int)
    requires endA < endB <= right < |s0|
    requires Rearranged(t, sB, left, endA + 1) && Rearranged(sB, s0, left, endB + 1)
    ensures Rearranged(t, s0, left, endB + 1) && Rearranged(t, s0, left, right + 1)
    ensures Sorted(sB[endA + 1..endB + 1]) ==> Sorted(t[endA + 1..endB + 1])
  {
    RearrangedWiden(t, sB, left, endA + 1, left, endB + 1);
    RearrangedTrans(t, sB, s0, left, endB + 1);
    RearrangedWiden(t, s0, left, endB + 1, left, right + 1);
    RearrangedSuffix(t, sB, left, endA + 1, endA + 1, endB + 1);
  }

  /** Line 129-130: pushing the run [a, endA] at the free slot p, above which the stack
      is empty, makes it the top of the chain, so the next run starts at endA + 1. */
  lemma PushRun(s: seq<int>, rs: seq<int>, re: seq<int>, p: nat, a: int, endA: int, left: int)
    requires p < |rs| == |re| && EmptyFrom(rs, p, |rs|)
    requires 0 <= left <= a <= endA < |s|
    requires Chain(s, rs, re, |rs|, a, left) && Sorted(s[a..endA + 1])
    ensures Chain(s, rs[p := a], re[p := endA], |rs|, endA + 1, left)
  {
    var rs', re' := rs[p := a], re[p := endA];
    ChainEmptyAbove(s, rs, re, p, |rs|, a, left);
    ChainFrame(s, s, rs, re, rs', re', p, a, left);
    assert Chain(s, rs', re', p + 1, endA + 1, left);
    ChainEmptyAbove(s, rs', re', p + 1, |rs|, endA + 1, left);
  }

  /** Lines 129-130: the run [a, endA] in hand is pushed at slot p, the power of its
      boundary with the next run [endA + 1, endB]; the slots from p up are empty and
      those below p as they were when the midpoint of [startA, endA] marked them. The
      stack then chains up to endA + 1 and is marked by the next run's midpoint. */
  method Push(input: array<int>, rs: array<int>, re: array<int>, p: int, a: int, endA: int,
              ghost left: int, ghost right: int, ghost startA: int, ghost endB: int,
              ghost rs0: seq<int>, ghost re0: seq<int>)
    requires rs != re && rs != input && re != input && rs.Length == re.Length == |rs0| && re[..] == re0
    requires NodePowerArgs(left, right, startA, endA + 1, endB) && 0 <= left && right < input.Length
    requires p == NodePower(left, right, startA, endA + 1, endB) && p < rs.Length
    requires SlotsMarked(rs0, ScaledMidpoint(left, right, startA, endA + 1))
    requires forall q :: 0 <= q < p ==> rs[q] == rs0[q]
    requires forall q :: p <= q < rs.Length ==> rs[q] == NullIndex
    requires left <= a <= endA
    requires Chain(input[..], rs[..], re[..], rs.Length, a, left) && Sorted(input[a..endA + 1])
    modifies rs, re
    ensures rs[..] == old(rs[..])[p := a] && re[..] == old(re[..])[p := endA]
    ensures Chain(input[..], rs[..], re[..], rs.Length, endA + 1, left)
    ensures SlotsMarked(rs[..], ScaledMidpoint(left, right, endA + 1, endB + 1))
    ensures rs[p] == a && re[p] == endA && forall q :: 0 <= q < p ==> rs[q] == rs0[q] && re[q] == re0[q]
  {
    ghost var s, rsB, reB := input[..], rs[..], re[..];
    PushRun(s, rsB, reB, p, a, endA, left);
    rs[p] := a;
    re[p] := endA;
    assert input[..] == s && rs[..] == rsB[p := a] && re[..] == reB[p := endA];
    ghost var rsN := rs[..];
    assert forall q :: 0 <= q < |rsN| ==> rsN[q] == (if q < p then rs0[q] else if q == p then rsN[q] else NullIndex);
    PushKeepsMarks(rs0, rsN, left, right, startA, endA + 1, endB);
  }

  /** Lines 119-131: the run in hand A = [startA, endA] meets the next run B = [startB,
      endB] at a boundary of power p; the runs on the stack above p are merged into A,
      and A is pushed at slot p, which becomes the top. Ends with an
      IndexOutOfBoundsException when a merge overruns the buffer or the stack has no
      slot p. */
  method PlaceRun(input: array<int>, rs: array<int>, re: array<int>, top: int,
                  startA: int, endA: int, endB: int, buffer: array<int>,
                  left: int, right: int, ghost lg: nat)
    returns (r: Outcome, p: int)
    requires input != buffer && rs != input && rs != buffer && re != input && re != buffer && rs != re
    requires rs.Length == re.Length
    requires NodePowerArgs(left, right, startA, endA + 1, endB) && 0 <= left && right < input.Length
    requires Pow2(lg) <= right - left + 1 < Pow2(lg + 1)
    requires top == 0 || 0 < top < rs.Length
    requires forall q :: top < q < rs.Length ==> rs[q] == NullIndex
    requires Chain(input[..], rs[..], re[..], rs.Length, startA, left)
    requires SlotsMarked(rs[..], ScaledMidpoint(left, right, startA, endA + 1))
    requires Sorted(input[startA..endA + 1])
    modifies input, rs, re, buffer
    ensures Rearranged(input[..], old(input[..]), left, endA + 1)
    ensures r.Abrupt? ==> r.error == IndexOutOfBounds
    ensures buffer.Length > endA && rs.Length >= lg + 2 ==> r.Normal?
    ensures r.Normal? ==> 0 < p < rs.Length && forall q :: p < q < rs.Length ==> rs[q] == NullIndex
    ensures r.Normal? ==> Chain(input[..], rs[..], re[..], rs.Length, endA + 1, left)
    ensures r.Normal? ==> SlotsMarked(rs[..], ScaledMidpoint(left, right, endA + 1, endB + 1))
    ensures r.Normal? ==> p == NodePower(left, right, startA, endA + 1, endB) && re[p] == endA && rs[p] != NullIndex
    ensures r.Normal? ==> SameBelow(rs[..], old(rs[..]), p) && SameBelow(re[..], old(re[..]), p)
  {
    p := NodePower(left, right, startA, endA + 1, endB);
    ghost var s0, rs0, re0 := input[..], rs[..], re[..];
    PowerSlotBelowBound(rs0, left, right, startA, endA + 1, endB, lg);
    var a;
    r, a := MergeDown(input, rs, re, top, p, startA, endA, buffer, left);
    if r.Normal? {
      RearrangedWiden(input[..], s0, a, endA + 1, left, endA + 1);
      if p < rs.Length {
        ghost var sM := input[..];
        Push(input, rs, re, p, a, endA, left, right, startA, endB, rs0, re0);
        assert input[..] == sM;
      } else {
        r := Abrupt(IndexOutOfBounds);
      }
    }
  }

  /** Lines 113-118: the next run B = [endA + 1, endB] is found beside the run in hand
      A = [startA, endA]; A and the stack in front of it stay as they were. */
  method NextRunBeside(input: array<int>, rs: array<int>, re: array<int>, startA: int, endA: int,
                       right: int, corrected: bool, ghost left: int, ghost s0: seq<int>)
    returns (r: Result<int>)
    requires rs != input && re != input && rs.Length == re.Length
    requires 0 <= left <= startA <= endA < right < input.Length && |s0| == input.Length
    requires Chain(input[..], rs[..], re[..], rs.Length, startA, left)
    requires Sorted(input[startA..endA + 1]) && Rearranged(input[..], s0, left, endA + 1)
    modifies input
    ensures r.Throws? ==> r.error == IndexOutOfBounds && !corrected && Rearranged(input[..], s0, left, right + 1)
    ensures r.Ok? ==> endA < r.value <= right && Rearranged(input[..], s0, left, r.value + 1)
    ensures r.Ok? ==> Chain(input[..], rs[..], re[..], rs.Length, startA, left)
    ensures r.Ok? ==> Sorted(input[startA..endA + 1])
    ensures r.Ok? && (r.value < right || corrected || !DescendingTail(s0, left, right)) ==>
      Sorted(input[endA + 1..r.value + 1])
  {
    ghost var sPre := input[..];
    r := NextRun(input, endA + 1, right, corrected);
    if r.Throws? {
      RearrangedWiden(input[..], s0, left, endA + 1, left, right + 1);
      return;
    }
    RunBesideRun(s0, sPre, input[..], left, startA, endA + 1, r.value, right, corrected);
    ChainFrame(sPre, input[..], rs[..], re[..], rs[..], re[..], rs.Length, startA, left);
  }

  /** Lines 113-133: one round of the main loop. The next run B = [endA + 1, endB] is
      found (and extended to the minimum run length), the run in hand A = [startA, endA]
      is placed on the stack after merging the runs above the boundary's power into it,
      and B becomes the run in hand. */
  method AddRun(input: array<int>, rs: array<int>, re: array<int>, top: int, startA: int, endA: int,
                buffer: array<int>, left: int, right: int, corrected: bool, ghost lg: nat, ghost s0: seq<int>)
    returns (r: Outcome, newTop: int, endB: int)
    requires input != buffer && rs != input && rs != buffer && re != input && re != buffer && rs != re
    requires rs.Length == re.Length
    requires 0 <= left <= startA <= endA < right < input.Length <= IntMax && |s0| == input.Length
    requires Pow2(lg) <= right - left + 1 < Pow2(lg + 1)
    requires top == 0 || 0 < top < rs.Length
    requires forall q :: top < q < rs.Length ==> rs[q] == NullIndex
    requires Chain(input[..], rs[..], re[..], rs.Length, startA, left)
    requires SlotsMarked(rs[..], ScaledMidpoint(left, right, startA, endA + 1))
    requires Sorted(input[startA..endA + 1])
    requires Rearranged(input[..], s0, left, endA + 1)
    modifies input, rs, re, buffer
    ensures r.Abrupt? ==> r.error == IndexOutOfBounds && Rearranged(input[..], s0, left, right + 1)
    ensures r.Abrupt? && corrected ==> buffer.Length <= endA || rs.Length < lg + 2
    ensures r.Normal? ==> endA < endB <= right && Rearranged(input[..], s0, left, endB + 1)
    ensures r.Normal? ==> 0 < newTop < rs.Length && forall q :: newTop < q < rs.Length ==> rs[q] == NullIndex
    ensures r.Normal? ==> Chain(input[..], rs[..], re[..], rs.Length, endA + 1, left)
    ensures r.Normal? ==> SlotsMarked(rs[..], ScaledMidpoint(left, right, endA + 1, endB + 1))
    ensures r.Normal? && (endB < right || corrected || !DescendingTail(s0, left, right)) ==>
      Sorted(input[endA + 1..endB + 1])
  {
    var found := NextRunBeside(input, rs, re, startA, endA, right, corrected, left, s0);
    if found.Ok? {
      endB := found.value;
      ghost var sB := input[..];
      ghost var sortedB := endB < right || corrected || !DescendingTail(s0, left, right);
      assert sortedB ==> Sorted(sB[endA + 1..endB + 1]);
      assert rs[..] == old(rs[..]) && re[..] == old(re[..]);
      r, newTop := PlaceRun(input, rs, re, top, startA, endA, endB, buffer, left, right, lg);
      PlacedBesideRun(s0, sB, input[..], left, endA, endB, right);
      assert sortedB ==> Sorted(input[endA + 1..endB + 1]);
    } else {
      r, newTop, endB := Abrupt(found.error), top, endA;
    }
  }

  /** Arrays.fill(a, v): every cell of a gets v. */
  method Fill(a: array<int>, v: int)
    modifies a
    ensures forall i :: 0 <= i < a.Length ==> a[i] == v
  {
    for i := 0 to a.Length
      invariant forall j :: 0 <= j < i ==> a[j] == v
    {
      a[i] := v;
    }
  }

  /** Lines 112-133, the main loop: runs are added until the run in hand reaches right.
      Ends with the run [start, right] in hand and the runs waiting on the stack below
      slot top. */
  method MainLoop(input: array<int>, rs: array<int>, re: array<int>, buffer: array<int>, endA: int,
                  left: int, right: int, corrected: bool, ghost lg: nat, ghost s0: seq<int>)
    returns (r: Outcome, top: int, start: int)
    requires input != buffer && rs != input && rs != buffer && re != input && re != buffer && rs != re
    requires rs.Length == re.Length
    requires 0 <= left <= endA <= right < input.Length <= IntMax && |s0| == input.Length
    requires Pow2(lg) <= right - left + 1 < Pow2(lg + 1)
    requires forall q :: 0 <= q < rs.Length ==> rs[q] == NullIndex
    requires endA < right || corrected || !DescendingTail(s0, left, right) ==> Sorted(input[left..endA + 1])
    requires Rearranged(input[..], s0, left, endA + 1)
    modifies input, rs, re, buffer
    ensures r.Abrupt? ==> r.error == IndexOutOfBounds && Rearranged(input[..], s0, left, right + 1)
    ensures r.Abrupt? && corrected ==> buffer.Length <= right || rs.Length < lg + 2
    ensures r.Normal? ==> left <= start <= right && Rearranged(input[..], s0, left, right + 1)
    ensures r.Normal? ==> (top == 0 || 0 < top < rs.Length) && forall q :: top < q < rs.Length ==> rs[q] == NullIndex
    ensures r.Normal? ==> rs.Length > 0 ==> rs[0] == NullIndex
    ensures r.Normal? ==> Chain(input[..], rs[..], re[..], rs.Length, start, left)
    ensures r.Normal? && (corrected || !DescendingTail(s0, left, right)) ==> Sorted(input[start..right + 1])
    ensures endA == right ==> r.Normal? && top == 0 && start == left && input[..] == old(input[..])
  {
    ChainEmptyAbove(input[..], rs[..], re[..], 0, rs.Length, left, left);
    top, start := 0, left;
    if endA == right {
      return Normal, top, start;
    }
    var e := endA;
    while e < right
      invariant left <= start <= e <= right
      invariant top == 0 || 0 < top < rs.Length
      invariant forall q :: top < q < rs.Length ==> rs[q] == NullIndex
      invariant Chain(input[..], rs[..], re[..], rs.Length, start, left)
      invariant SlotsMarked(rs[..], ScaledMidpoint(left, right, start, e + 1))
      invariant e < right || corrected || !DescendingTail(s0, left, right) ==> Sorted(input[start..e + 1])
      invariant Rearranged(input[..], s0, left, e + 1)
      decreases right - e
    {
      var endB;
      r, top, endB := AddRun(input, rs, re, top, start, e, buffer, left, right, corrected, lg, s0);
      if r.Abrupt? {
        return;
      }
      assert Chain(input[..], rs[..], re[..], rs.Length, e + 1, left);
      start, e := e + 1, endB;
    }
    SlotZeroFree(rs[..], ScaledMidpoint(left, right, start, e + 1));
    r := Normal;
  }

  /** powerSort(input, left, right), for a range of at least one cell, with the three
      repairs switched on by corrected: the stack gets floor(log2 n) + 2 slots instead of
      floor(log2 n), the buffer right + 1 cells instead of n, and runs are found with
      countRunAndMakeAscending instead of findRun. As written (corrected false) the call
      may end with an IndexOutOfBoundsException, and a strictly descending stretch at
      the end of the range may be left unsorted. */
  method PowerSortWith(input: array<int>, left: int, right: int, corrected: bool) returns (r: Outcome)
    requires 0 <= left <= right < input.Length <= IntMax
    modifies input
    ensures Rearranged(input[..], old(input[..]), left, right + 1)
    ensures r.Abrupt? ==> r.error == IndexOutOfBounds && !corrected
    ensures r.Normal? && (corrected || !DescendingTail(old(input[..]), left, right)) ==>
      Sorted(input[left..right + 1])
    // findRun reads array[startIndex + 1]: a range starting at the last cell throws
    ensures !corrected && left + 1 == input.Length ==> r == Abrupt(IndexOutOfBounds)
    // findRun leaves a descending run that reaches right as it is
    ensures !corrected && right - left >= 2 && StrictlyDescending(old(input[left..right + 1])) ==>
      r.Normal? && input[..] == old(input[..])
  {
    ghost var s0 := input[..];
    ghost var whole := !corrected && right - left >= 2 && StrictlyDescending(s0[left..right + 1]);
    var length := right - left + 1;
    var lg := Log2(length).value;
    var slots := if corrected then lg + 2 else lg;
    var runStartStack, runEndStack := new int[slots], new int[slots];
    Fill(runStartStack, NullIndex);
    var buffer := new int[if corrected then right + 1 else length];

    var found := NextRun(input, left, right, corrected);
    if found.Throws? {
      return Abrupt(found.error);
    }
    var endA := found.value;
    FirstRun(s0, input[..], left, right, endA, corrected);
    var topOfStack, startA;
    r, topOfStack, startA := MainLoop(input, runStartStack, runEndStack, buffer, endA, left, right, corrected, lg, s0);
    if r.Abrupt? {
      return;
    }
    ghost var sL := input[..];
    r := MergeAll(input, runStartStack, runEndStack, topOfStack, startA, right, buffer, left);
    RearrangedTrans(input[..], sL, s0, left, right + 1);
  }

  /** powerSort(input, left, right) as written. A range of length 0 makes log2 throw an
      IllegalArgumentException; a negative length passes log2, which gives 31, and then
      fails to allocate the buffer with a NegativeArraySizeException. */
  method PowerSort(input: array<int>, left: int, right: int) returns (r: Outcome)
    requires IsInt(left) && IsInt(right) && IsInt(right - left + 1) && input.Length <= IntMax
    requires left <= right ==> 0 <= left && right < input.Length
    modifies input
    ensures right - left + 1 == 0 ==> r == Abrupt(IllegalArgument) && input[..] == old(input[..])
    ensures right - left + 1 < 0 ==> r == Abrupt(NegativeArraySize) && input[..] == old(input[..])
    ensures left <= right ==> Rearranged(input[..], old(input[..]), left, right + 1)
    ensures left <= right && r.Abrupt? ==> r.error == IndexOutOfBounds
    ensures r.Normal? ==> left <= right
    ensures r.Normal? && !DescendingTail(old(input[..]), left, right) ==> Sorted(input[left..right + 1])
    ensures left <= right && left + 1 == input.Length ==> r == Abrupt(IndexOutOfBounds)
    ensures right - left >= 2 && StrictlyDescending(old(input[left..right + 1])) ==>
      r.Normal? && input[..] == old(input[..])
  {
    var length := right - left + 1;
    var lg := Log2(length);
    if lg.Throws? {
      return Abrupt(lg.error);
    }
    if length < 0 {
      return Abrupt(NegativeArraySize);
    }
    r := PowerSortWith(input, left, right, false);
  }

  /** powerSort with the three repairs (a stack of floor(log2 n) + 2 slots, a buffer of
      right + 1 cells, runs found by countRunAndMakeAscending); a range of fewer than two
      cells is left as it is. It always completes and sorts the range. */
  method PowerSortFixed(input: array<int>, left: int, right: int)
    requires 0 <= left && right < input.Length <= IntMax
    modifies input
    ensures left <= right ==> Rearranged(input[..], old(input[..]), left, right + 1)
    ensures left <= right ==> Sorted(input[left..right + 1])
    ensures right <= left ==> input[..] == old(input[..])
  {
    if right <= left {
      return;
    }
    var r := PowerSortWith(input, left, right, true);
  }

  /** Sorting the one-cell range of a one-cell array throws: findRun reads the cell
      after it. */
  method SingleCellExample() returns (r: Outcome)
    ensures r == Abrupt(IndexOutOfBounds)
  {
    var a := new int[] [7];
    r := PowerSort(a, 0, 0);
  }

  /** A strictly descending array is one run that findRun does not reverse, since it
      reaches the end of the range: powerSort completes and leaves it unsorted. */
  method DescendingExample() returns (r: Outcome, s: seq<int>)
    ensures r == Normal && s == [5, 4, 3, 2, 1] && !Sorted(s)
  {
    var a := new int[] [5, 4, 3, 2, 1];
    assert StrictlyDescending(a[0..5]);
    r := PowerSort(a, 0, 4);
    s := a[..];
    assert s[0] > s[1];
  }
}
