/** The deterministic part of the input generators: the run-length sequence R_Tim of
    Buss and Knop that drives Timsort into unbalanced merges (timsortDragRunlengths),
    the int sum of a list (total), and swapping two array cells (swap). */
module Inputs {
  import opened JavaInt
  import opened Sorting

  /** timsortDragRunlengths(n): [n] for n <= 3; otherwise, with n' = n / 2, the run
      lengths of n', then those of n' - 1, then n - n' - (n' - 1). n' >= 2 here, so
      Java's truncating division is the floor. */
  function TimsortDragRunlengths(n: int): (r: seq<int>)
    ensures |r| >= 1
    decreases n
  {
    if n <= 3 then [n]
    else
      var nPrime := n / 2;
      var nPrimePrime := n - nPrime - (nPrime - 1);
      TimsortDragRunlengths(nPrime) + TimsortDragRunlengths(nPrime - 1) + [nPrimePrime]
  }

  /** The mathematical sum of a list. */
  function Sum(l: seq<int>): int {
    if l == [] then 0 else l[0] + Sum(l[1..])
  }

  lemma {:induction false} SumAppend(l: seq<int>, m: seq<int>)
    ensures Sum(l + m) == Sum(l) + Sum(m)
    decreases |l|
  {
    if l == [] {
      assert l + m == m;
    } else {
      SumAppend(l[1..], m);
      assert (l + m)[0] == l[0] && (l + m)[1..] == l[1..] + m;
      assert Sum(l + m) == l[0] + Sum(l[1..] + m);
    }
  }

  /** The run lengths of R_Tim(n) add up to n, so the array of fillWithTimsortDrag is
      covered exactly. */
  lemma {:induction false} DragRunlengthsSum(n: int)
    ensures Sum(TimsortDragRunlengths(n)) == n
    decreases n
  {
    if n > 3 {
      var nPrime := n / 2;
      DragRunlengthsSum(nPrime);
      DragRunlengthsSum(nPrime - 1);
      SumAppend(TimsortDragRunlengths(nPrime), TimsortDragRunlengths(nPrime - 1));
      SumAppend(TimsortDragRunlengths(nPrime) + TimsortDragRunlengths(nPrime - 1), [n - nPrime - (nPrime - 1)]);
    }
  }

  /** For n >= 1 every run length is 1, 2 or 3. */
  lemma {:induction false} DragRunlengthsSmall(n: int)
    requires n >= 1
    ensures forall i :: 0 <= i < |TimsortDragRunlengths(n)| ==> 1 <= TimsortDragRunlengths(n)[i] <= 3
    decreases n
  {
    if n > 3 {
      var nPrime := n / 2;
      DragRunlengthsSmall(nPrime);
      DragRunlengthsSmall(nPrime - 1);
    }
  }

  /** For n >= 4 the last run has length 1 when n is even and 2 when n is odd. */
  lemma DragRunlengthsLast(n: int)
    requires n >= 4
    ensures var r := TimsortDragRunlengths(n);
      r[|r| - 1] == if n % 2 == 0 then 1 else 2
  {
  }

  /** n mod 2^32 moved into the int range: the value an int computation yields when its
      mathematical result is x. */
  function Wrap(x: int): (w: int)
    ensures IsInt(w)
    ensures (w - x) % 0x1_0000_0000 == 0
  {
    (x - IntMin) % 0x1_0000_0000 + IntMin
  }

  lemma WrapOfInt(x: int)
    requires IsInt(x)
    ensures Wrap(x) == x
  {
    DivModUnique(x - IntMin, 0x1_0000_0000, 0, x - IntMin);
  }

  /** Wrapping an intermediate result does not change the wrapped final one. */
  lemma WrapAddLeft(a: int, b: int)
    ensures Wrap(Wrap(a) + b) == Wrap(a + b)
  {
    var m := 0x1_0000_0000;
    var y := a + b - IntMin;
    var q := (a - IntMin) / m;
    assert Wrap(a) + b - IntMin == y - m * q;
    DivModUnique(y - m * q, m, y / m - q, y % m);
  }

  /** The int sum that l.stream().mapToInt(Integer::intValue).sum() computes from acc:
      each addition wraps around. */
  function SumFrom(l: seq<int>, acc: int): (t: int)
    requires forall i :: 0 <= i < |l| ==> IsInt(l[i])
    requires IsInt(acc)
    ensures IsInt(t)
  {
    if l == [] then acc else SumFrom(l[1..], Wrap(acc + l[0]))
  }

  /** total(l): the int sum of the list. */
  function Total(l: seq<int>): (t: int)
    requires forall i :: 0 <= i < |l| ==> IsInt(l[i])
    ensures IsInt(t)
  {
    SumFrom(l, 0)
  }

  lemma {:induction false} SumFromWraps(l: seq<int>, acc: int)
    requires forall i :: 0 <= i < |l| ==> IsInt(l[i])
    requires IsInt(acc)
    ensures SumFrom(l, acc) == Wrap(acc + Sum(l))
    decreases |l|
  {
    if l == [] {
      WrapOfInt(acc);
    } else {
      SumFromWraps(l[1..], Wrap(acc + l[0]));
      WrapAddLeft(acc + l[0], Sum(l[1..]));
    }
  }

  /** total is the sum of the list modulo 2^32, and the exact sum whenever that is an int. */
  lemma TotalIsSum(l: seq<int>)
    requires forall i :: 0 <= i < |l| ==> IsInt(l[i])
    ensures Total(l) == Wrap(Sum(l))
    ensures IsInt(Sum(l)) ==> Total(l) == Sum(l)
  {
    SumFromWraps(l, 0);
    if IsInt(Sum(l)) {
      WrapOfInt(Sum(l));
    }
  }

  /** The check of fillWithUpAndDownRuns: the R_Tim lengths for n >= 1 total n. */
  lemma TotalOfDragRunlengths(n: int)
    requires 1 <= n <= IntMax
    ensures forall i :: 0 <= i < |TimsortDragRunlengths(n)| ==> IsInt(TimsortDragRunlengths(n)[i])
    ensures Total(TimsortDragRunlengths(n)) == n
  {
    DragRunlengthsSmall(n);
    DragRunlengthsSum(n);
    TotalIsSum(TimsortDragRunlengths(n));
  }

  /** swap(a, i, j): a[i] and a[j] change places. Both reads come before the writes, so
      an index out of range throws before anything changes. */
  method Swap(a: array<int>, i: int, j: int) returns (r: Outcome)
    modifies a
    ensures r.Abrupt? <==> !(0 <= i < a.Length && 0 <= j < a.Length)
    ensures r.Abrupt? ==> r.error == IndexOutOfBounds && a[..] == old(a[..])
    ensures r.Normal? ==> a[..] == Swapped(old(a[..]), i, j)
  {
    if !(0 <= i < a.Length) {
      return Abrupt(IndexOutOfBounds);
    }
    var tmp := a[i];
    if !(0 <= j < a.Length) {
      return Abrupt(IndexOutOfBounds);
    }
    a[i] := a[j];
    a[j] := tmp;
    return Normal;
  }

  /** s with the elements at i and j exchanged. */
  function Swapped(s: seq<int>, i: nat, j: nat): (r: seq<int>)
    requires i < |s| && j < |s|
    ensures |r| == |s| && r[i] == s[j] && r[j] == s[i]
    ensures forall k :: 0 <= k < |s| && k != i && k != j ==> r[k] == s[k]
  {
    s[i := s[j]][j := s[i]]
  }

  /** Swapping only rearranges. */
  lemma SwappedPermutes(s: seq<int>, i: nat, j: nat)
    requires i < |s| && j < |s|
    ensures Permutation(Swapped(s, i, j), s)
  {
    if i != j {
      var t := s[i := s[j]];
      assert s[i] in multiset(s);
      assert multiset(t) == multiset(s) - multiset{s[i]} + multiset{s[j]};
      assert multiset(t[j := s[i]]) == multiset(t) - multiset{s[j]} + multiset{s[i]};
    }
  }

  /** Swapping twice restores the array. */
  lemma SwappedTwice(s: seq<int>, i: nat, j: nat)
    requires i < |s| && j < |s|
    ensures Swapped(Swapped(s, i, j), i, j) == s
  {
  }
}
