/** The Powersort merge policy: the power of the boundary between two adjacent runs
    (nodePower, shared by myPowersort and TimSortAlterNoComparator) and the floor of the
    binary logarithm that sizes the run stack (log2). */
module MergePolicy {
  import opened JavaInt

  /** The callers' demands on nodePower: A = [startA, startB) and B = [startB, endB]
      are adjacent non-empty runs inside [left, right], whose length is an int. */
  predicate NodePowerArgs(left: int, right: int, startA: int, startB: int, endB: int) {
    IsInt(left) && IsInt(right) && left <= startA < startB <= endB <= right
    && right - left + 1 <= IntMax
  }

  /** The midpoint (s + t) / 2 of the run [s, t) as a fraction of [left, right], in units
      of 2^-31: the quantity ((2 * midpoint - 2 * left) << 30) / length of nodePower. */
  function ScaledMidpoint(left: int, right: int, s: int, t: int): (x: nat)
    requires left <= s < t <= right + 1 && right - left + 1 <= IntMax
    ensures x < 0x8000_0000
  {
    var n := right - left + 1;
    var l := s + t - 2 * left;
    QuotientIsDiv(l * 0x4000_0000, n);
    DivUpperBound(l * 0x4000_0000, n, 0x8000_0000);
    Quotient(l * 0x4000_0000, n)
  }

  /** The scaled midpoint is the Java long division ((s + t - 2 * left) << 30) / n, and the
      shifted long l << 30 is non-negative and below 2^63, so the shift does not overflow. */
  lemma MidpointQuotient(left: int, right: int, s: int, t: int)
    requires left <= s < t <= right + 1 && right - left + 1 <= IntMax
    ensures ScaledMidpoint(left, right, s, t) == (s + t - 2 * left) * Pow2(30) / (right - left + 1)
    ensures 0 <= (s + t - 2 * left) * 0x4000_0000 < 0x8000_0000_0000_0000
  {
    Pow2Values();
    QuotientIsDiv((s + t - 2 * left) * 0x4000_0000, right - left + 1);
    assert 0 <= s + t - 2 * left <= 0x1_0000_0000;
    MulMonotone(0x4000_0000, 0, s + t - 2 * left);
    MulMonotone(0x4000_0000, s + t - 2 * left, 0x1_0000_0000);
  }

  /** The two scaled midpoints of nodePower satisfy 0 <= a < b < 2^31, so the casts to
      int lose nothing and a xor b is a non-zero int. */
  lemma MidpointsOrdered(left: int, right: int, startA: int, startB: int, endB: int)
    requires NodePowerArgs(left, right, startA, startB, endB)
    ensures ScaledMidpoint(left, right, startA, startB) < ScaledMidpoint(left, right, startB, endB + 1)
  {
    var n := right - left + 1;
    var lx := (startA + startB - 2 * left) * Pow2(30);
    var ly := (startB + endB + 1 - 2 * left) * Pow2(30);
    MidpointQuotient(left, right, startA, startB);
    MidpointQuotient(left, right, startB, endB + 1);
    Pow2Values();
    assert ly - lx == (endB + 1 - startA) * Pow2(30);
    MulMonotone(Pow2(30), 2, endB + 1 - startA);
    DivSubLower(lx, ly, n);
    DivLowerBound(ly - lx, n, 1);
  }

  /** nodePower: the number of leading zeros of a xor b, where a and b are the scaled
      midpoints of A and B. */
  function NodePower(left: int, right: int, startA: int, startB: int, endB: int): (p: int)
    requires NodePowerArgs(left, right, startA, startB, endB)
    ensures 1 <= p <= 31
  {
    var a := ScaledMidpoint(left, right, startA, startB);
    var b := ScaledMidpoint(left, right, startB, endB + 1);
    MidpointsOrdered(left, right, startA, startB, endB);
    Pow2Values();
    XorBelow(a, b, 31);
    XorZero(a, b);
    LeadingZerosBounds(Xor(a, b), 32);
    NumberOfLeadingZeros(Xor(a, b))
  }

  /** The power p is the depth at which the binary expansions of the two midpoints part:
      they agree on every bit above bit 31 - p, and there A's midpoint has a 0 and B's a 1. */
  lemma NodePowerSplitsMidpoints(left: int, right: int, startA: int, startB: int, endB: int)
    requires NodePowerArgs(left, right, startA, startB, endB)
    ensures var a := ScaledMidpoint(left, right, startA, startB);
      var b := ScaledMidpoint(left, right, startB, endB + 1);
      var p := NodePower(left, right, startA, startB, endB);
      Shr(a, 32 - p) == Shr(b, 32 - p) && Bit(a, 31 - p) == 0 && Bit(b, 31 - p) == 1
  {
    var a := ScaledMidpoint(left, right, startA, startB);
    var b := ScaledMidpoint(left, right, startB, endB + 1);
    MidpointsOrdered(left, right, startA, startB, endB);
    Pow2Values();
    LeadingZerosOfXor(a, b, 32);
  }

  /** Above the parting bit the two midpoints agree: bit 31 - s is shared for every s
      below the power. */
  lemma NodePowerSharedBits(left: int, right: int, startA: int, startB: int, endB: int, s: nat)
    requires NodePowerArgs(left, right, startA, startB, endB)
    requires s < NodePower(left, right, startA, startB, endB)
    ensures Bit(ScaledMidpoint(left, right, startA, startB), 31 - s)
         == Bit(ScaledMidpoint(left, right, startB, endB + 1), 31 - s)
  {
    var p := NodePower(left, right, startA, startB, endB);
    NodePowerSplitsMidpoints(left, right, startA, startB, endB);
    SharedPrefixBits(ScaledMidpoint(left, right, startA, startB),
      ScaledMidpoint(left, right, startB, endB + 1), 32 - p, 31 - s);
  }

  /** Both runs have at least one element, so the two midpoints are at least 2^31 / n
      apart, which is at least 2^(30 - lg) when n < 2^(lg + 1). */
  lemma MidpointsApart(left: int, right: int, startA: int, startB: int, endB: int, lg: nat)
    requires NodePowerArgs(left, right, startA, startB, endB)
    requires lg <= 30 && right - left + 1 < Pow2(lg + 1)
    ensures ScaledMidpoint(left, right, startB, endB + 1) - ScaledMidpoint(left, right, startA, startB)
      >= Pow2(30 - lg)
  {
    var n := right - left + 1;
    var lx := (startA + startB - 2 * left) * Pow2(30);
    var ly := (startB + endB + 1 - 2 * left) * Pow2(30);
    MidpointQuotient(left, right, startA, startB);
    MidpointQuotient(left, right, startB, endB + 1);
    Pow2Values();
    assert ly - lx == (endB + 1 - startA) * Pow2(30);
    MulMonotone(Pow2(30), 2, endB + 1 - startA);
    DivSubLower(lx, ly, n);
    DivMonotone(Pow2(31), ly - lx, n);
    GapQuotient(n, lg);
  }

  lemma GapQuotient(n: nat, lg: nat)
    requires lg <= 30 && 0 < n < Pow2(lg + 1)
    ensures Pow2(30 - lg) <= Pow2(31) / n
  {
    var d, e := Pow2(30 - lg), Pow2(lg + 1);
    Pow2Add(30 - lg, lg + 1);
    assert d * e == Pow2(31);
    MulMonotone(d, n, e);
    assert n * d <= d * e;
    DivLowerBound(Pow2(31), n, d);
  }

  /** Numbers at least 2^m apart differ in some bit from m upwards. */
  lemma ApartNotShared(a: nat, b: nat, k: nat, m: nat)
    requires a <= b && Pow2(m) <= b - a && k <= m
    ensures Shr(a, k) != Shr(b, k)
  {
    if Shr(a, k) == Shr(b, k) {
      ShrEqualClose(a, b, k);
      if k < m {
        Pow2Less(k, m);
      }
      assert false;
    }
  }

  /** A length that is an int has a binary logarithm of at most 30. */
  lemma LogOfIntLength(n: int, lg: nat)
    requires n <= IntMax && Pow2(lg) <= n
    ensures lg <= 30
  {
    if lg >= 31 {
      Pow2Values();
      assert false;
    }
  }

  /** The power of any boundary in a range of length n with 2^lg <= n < 2^(lg + 1) is at
      most lg + 1: the midpoints are at least 2^(30 - lg) apart, so they cannot share
      more than the bits from 31 - lg upwards. */
  lemma NodePowerBound(left: int, right: int, startA: int, startB: int, endB: int, lg: nat)
    requires NodePowerArgs(left, right, startA, startB, endB)
    requires Pow2(lg) <= right - left + 1 < Pow2(lg + 1)
    ensures NodePower(left, right, startA, startB, endB) <= lg + 1
  {
    var p := NodePower(left, right, startA, startB, endB);
    LogOfIntLength(right - left + 1, lg);
    if p >= lg + 2 {
      var a := ScaledMidpoint(left, right, startA, startB);
      var b := ScaledMidpoint(left, right, startB, endB + 1);
      MidpointsApart(left, right, startA, startB, endB, lg);
      NodePowerSplitsMidpoints(left, right, startA, startB, endB);
      ApartNotShared(a, b, 32 - p, 30 - lg);
      assert false;
    }
  }

  /** log2: an IllegalArgumentException for 0, otherwise 31 minus the leading zeros of
      n, which for positive n is the floor of its binary logarithm. */
  function Log2(n: int): (r: Result<int>)
    requires IsInt(n)
    ensures r == Throws(IllegalArgument) <==> n == 0
    ensures n != 0 ==> r.Ok?
    ensures n > 0 ==> 0 <= r.value <= 30 && Pow2(r.value) <= n < Pow2(r.value + 1)
    ensures n < 0 ==> r.value == 31
  {
    if n == 0 then Throws(IllegalArgument)
    else
      Pow2Values();
      var u := if n < 0 then n + 0x1_0000_0000 else n;
      LeadingZerosBounds(u, 32);
      assert n < 0 ==> LeadingZeros(u, 32) == 0 by {
        if n < 0 {
          LeadingZerosTopBit(u, 32);
        }
      }
      Ok(31 - NumberOfLeadingZeros(n))
  }

  /** The bracketing by powers of two determines the logarithm. */
  lemma FloorLogUnique(n: int, r: nat, k: nat)
    requires Pow2(r) <= n < Pow2(r + 1) && Pow2(k) <= n < Pow2(k + 1)
    ensures r == k
  {
    if r < k {
      if r + 1 < k {
        Pow2Less(r + 1, k);
      }
      assert false;
    }
    if k < r {
      if k + 1 < r {
        Pow2Less(k + 1, r);
      }
      assert false;
    }
  }

  lemma Log2Of13()
    ensures Log2(13) == Ok(3)
  {
    assert Pow2(3) == 8 && Pow2(4) == 16;
    FloorLogUnique(13, Log2(13).value, 3);
  }

  lemma ExampleMidpoints()
    ensures ScaledMidpoint(0, 12, 5, 8) == 0x4000_0000
    ensures ScaledMidpoint(0, 12, 8, 11) == 1569314973
  {
    Pow2Values();
    MidpointQuotient(0, 12, 5, 8);
    assert ScaledMidpoint(0, 12, 5, 8) == 13 * 0x4000_0000 / 13;
    DivModUnique(13 * 0x4000_0000, 13, 0x4000_0000, 0);
    MidpointQuotient(0, 12, 8, 11);
    assert ScaledMidpoint(0, 12, 8, 11) == 19 * 0x4000_0000 / 13;
    DivModUnique(19 * 0x4000_0000, 13, 1569314973, 7);
  }

  lemma ExampleBits(a: nat, b: nat)
    requires a == 0x4000_0000 && b == 1569314973
    ensures Shr(a, 28) == 4 && Shr(b, 28) == 5
    ensures Bit(a, 30) == 1 && Bit(a, 29) == 0 && Bit(b, 29) == 0
  {
    Pow2Values();
    assert Pow2(28) == 0x1000_0000 by {
      Pow2Add(28, 1);
    }
    ShrIsDiv(a, 28);
    ShrIsDiv(b, 28);
    ShrIsDiv(a, 29);
    ShrIsDiv(b, 29);
    ShrIsDiv(a, 30);
    DivModUnique(a, Pow2(28), 4, 0);
    DivModUnique(b, Pow2(28), 5, 227137693);
    DivModUnique(a, Pow2(29), 2, 0);
    DivModUnique(b, Pow2(29), 2, 495573149);
    DivModUnique(a, Pow2(30), 1, 0);
  }

  /** With n = 13 the floor of log2 is 3, yet the boundary between the runs [5, 8) and
      [8, 10] of [0, 12] has power 3: the run stack of log2(n) slots has no slot 3. */
  lemma StackSlotOverflowExample()
    ensures Log2(13) == Ok(3)
    ensures NodePower(0, 12, 5, 8, 10) == 3
  {
    Log2Of13();
    var a := ScaledMidpoint(0, 12, 5, 8);
    var b := ScaledMidpoint(0, 12, 8, 11);
    var p := NodePower(0, 12, 5, 8, 10);
    ExampleMidpoints();
    ExampleBits(a, b);
    NodePowerSplitsMidpoints(0, 12, 5, 8, 10);
    if p == 1 || p == 2 {
      assert false;
    }
    if p >= 4 {
      ShrTwice(a, 32 - p, p - 4);
      ShrTwice(b, 32 - p, p - 4);
      assert false;
    }
  }

  /** powerSort(a, 1, 8) on [9, 5, 6, 7, 8, 1, 2, 3, 4] finds the runs [1, 4] and [5, 8].
      Their boundary has power 1 and log2(8) gives 3 slots, so the run [1, 4] is pushed
      at slot 1 and the final merge of line 138 is mergeRuns(a, 1, 5, 8, buffer). */
  lemma ShortBufferPower()
    ensures Log2(8) == Ok(3)
    ensures NodePower(1, 8, 1, 5, 8) == 1
  {
    assert Pow2(3) == 8 && Pow2(4) == 16;
    FloorLogUnique(8, Log2(8).value, 3);
    Pow2Values();
    MidpointQuotient(1, 8, 1, 5);
    assert ScaledMidpoint(1, 8, 1, 5) == 4 * 0x4000_0000 / 8;
    DivModUnique(4 * 0x4000_0000, 8, 0x2000_0000, 0);
    MidpointQuotient(1, 8, 5, 9);
    assert ScaledMidpoint(1, 8, 5, 9) == 12 * 0x4000_0000 / 8;
    DivModUnique(12 * 0x4000_0000, 8, 0x6000_0000, 0);
    var a, b := ScaledMidpoint(1, 8, 1, 5), ScaledMidpoint(1, 8, 5, 9);
    var p := NodePower(1, 8, 1, 5, 8);
    NodePowerSplitsMidpoints(1, 8, 1, 5, 8);
    ShrIsDiv(a, 30);
    ShrIsDiv(b, 30);
    DivModUnique(a, Pow2(30), 0, a);
    DivModUnique(b, Pow2(30), 1, 0x2000_0000);
    assert Shr(a, 30) == 0 && Shr(b, 30) == 1;
    if p >= 2 {
      // the midpoints would agree above bit 31 - p, so on bit 30 as well
      ShrTwice(a, 32 - p, p - 2);
      ShrTwice(b, 32 - p, p - 2);
      assert false;
    }
  }
}
