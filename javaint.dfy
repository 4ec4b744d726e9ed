/** Java's 32-bit int arithmetic as far as the sorting code relies on it: the int range,
    powers of two, Integer.numberOfLeadingZeros, bitwise xor of non-negative values, and
    the exceptions with which a Java call can end. */
module JavaInt {

  const IntMin: int := -0x8000_0000   // Integer.MIN_VALUE
  const IntMax: int := 0x7fff_ffff    // Integer.MAX_VALUE

  /** x is a value of Java's type int. */
  predicate IsInt(x: int) {
    IntMin <= x <= IntMax
  }

  /** The unchecked exceptions the modelled code can raise. */
  datatype Exception = IllegalArgument | IndexOutOfBounds | NegativeArraySize

  /** How a call of a Java method returning a value ends. */
  datatype Result<T> = Ok(value: T) | Throws(error: Exception)

  /** How a call of a void Java method ends. */
  datatype Outcome = Normal | Abrupt(error: Exception)

  function Pow2(k: nat): (r: nat)
    ensures r >= 1
  {
    if k == 0 then 1 else 2 * Pow2(k - 1)
  }

  lemma Pow2Values()
    ensures Pow2(29) == 0x2000_0000
    ensures Pow2(30) == 0x4000_0000
    ensures Pow2(31) == 0x8000_0000
    ensures Pow2(32) == 0x1_0000_0000
  {
    assert Pow2(5) == 32 && Pow2(8) == 256;
    Pow2Add(8, 8);
    Pow2Add(16, 8);
    Pow2Add(24, 5);
  }

  lemma {:induction false} Pow2Add(i: nat, j: nat)
    ensures Pow2(i + j) == Pow2(i) * Pow2(j)
  {
    if i > 0 {
      Pow2Add(i - 1, j);
    }
  }

  lemma {:induction false} Pow2Less(i: nat, j: nat)
    requires i < j
    ensures Pow2(i) < Pow2(j)
  {
    if i + 1 < j {
      Pow2Less(i, j - 1);
    }
  }

  lemma MulMonotone(d: nat, i: int, j: int)
    requires i <= j
    ensures d * i <= d * j
  {
  }

  lemma Distribute(a: int, b: int, c: int)
    ensures a * (b + c) == a * b + a * c
  {
  }

  /** The quotient of x by d, counted by repeated subtraction: the same value as x / d
      (QuotientIsDiv), defined without multiplication or division. */
  function Quotient(x: nat, d: nat): (q: nat)
    requires d > 0
    decreases x
  {
    if x < d then 0 else 1 + Quotient(x - d, d)
  }

  lemma {:induction false} QuotientIsDiv(x: nat, d: nat)
    requires d > 0
    ensures Quotient(x, d) == x / d
  {
    if x >= d {
      QuotientIsDiv(x - d, d);
      DivModUnique(x, d, 1 + (x - d) / d, (x - d) % d);
    } else {
      DivModUnique(x, d, 0, x);
    }
  }

  /** Division has a unique quotient and remainder. */
  lemma DivModUnique(x: int, d: int, q: int, r: int)
    requires d > 0 && x == d * q + r && 0 <= r < d
    ensures x / d == q && x % d == r
  {
    var k := q - x / d;
    assert d * k == x % d - r;
    if k >= 1 {
      MulMonotone(d, 1, k);
      assert false;
    }
    if k <= -1 {
      MulMonotone(d, k, -1);
      assert false;
    }
  }

  lemma DivMonotone(x: nat, y: nat, d: nat)
    requires x <= y && d > 0
    ensures x / d <= y / d
  {
    if x / d > y / d {
      MulMonotone(d, y / d + 1, x / d);
      assert false;
    }
  }

  lemma DivNonNeg(x: nat, d: nat)
    requires d > 0
    ensures x / d >= 0
  {
    var q := x / d;
    if q < 0 {
      MulMonotone(d, q, -1);
      assert false;
    }
  }

  /** q is at most the quotient of y by d whenever d * q fits in y. */
  lemma DivLowerBound(y: nat, d: nat, q: int)
    requires d > 0 && d * q <= y
    ensures q <= y / d
  {
    var z := y / d;
    if z < q {
      MulMonotone(d, z + 1, q);
      assert false;
    }
  }

  /** A quotient below K whenever y is below d * K. */
  lemma DivUpperBound(y: nat, d: nat, k: int)
    requires d > 0 && y < d * k
    ensures y / d < k
  {
    var z := y / d;
    if z >= k {
      MulMonotone(d, k, z);
      assert false;
    }
  }

  /** Flooring the two parts of y separately loses at most what flooring y loses. */
  lemma DivSubLower(x: nat, y: nat, d: nat)
    requires x <= y && d > 0
    ensures x / d + (y - x) / d <= y / d
  {
    var qx, qd := x / d, (y - x) / d;
    DivNonNeg(x, d);
    DivNonNeg(y - x, d);
    assert x == d * qx + x % d;
    assert y - x == d * qd + (y - x) % d;
    Distribute(d, qx, qd);
    DivLowerBound(y, d, qx + qd);
  }

  lemma DivDiv(x: nat, a: nat, b: nat)
    requires a > 0 && b > 0
    ensures x / a / b == x / (a * b)
  {
    var q, r := x / a, x % a;
    var q2, r2 := q / b, q % b;
    assert x == a * q + r;
    assert q == b * q2 + r2;
    Distribute(a, b * q2, r2);
    assert a * (b * q2) == (a * b) * q2;
    assert x == (a * b) * q2 + (a * r2 + r);
    MulMonotone(a, r2, b - 1);
    Distribute(a, b, -1);
    DivModUnique(x, a * b, q2, a * r2 + r);
  }

  /** x >>> k for a non-negative x: k halvings. */
  function Shr(x: nat, k: nat): nat {
    if k == 0 then x else Shr(x / 2, k - 1)
  }

  /** Shifting is dividing by a power of two. */
  lemma {:induction false} ShrIsDiv(x: nat, k: nat)
    ensures Shr(x, k) == x / Pow2(k)
  {
    if k > 0 {
      ShrIsDiv(x / 2, k - 1);
      DivDiv(x, 2, Pow2(k - 1));
    }
  }

  lemma {:induction false} ShrTwice(x: nat, i: nat, j: nat)
    ensures Shr(Shr(x, i), j) == Shr(x, i + j)
  {
    if i > 0 {
      ShrTwice(x / 2, i - 1, j);
    }
  }

  lemma ShrSucc(x: nat, k: nat)
    ensures Shr(x, k + 1) == Shr(x, k) / 2
  {
    ShrTwice(x, k, 1);
  }

  lemma {:induction false} ShrMonotone(a: nat, b: nat, k: nat)
    requires a <= b
    ensures Shr(a, k) <= Shr(b, k)
  {
    if k > 0 {
      ShrMonotone(a / 2, b / 2, k - 1);
    }
  }

  /** Two numbers with the same bits from k upwards differ by less than 2^k. */
  lemma {:induction false} ShrEqualClose(a: nat, b: nat, k: nat)
    requires a <= b && Shr(a, k) == Shr(b, k)
    ensures b - a < Pow2(k)
  {
    if k > 0 {
      ShrEqualClose(a / 2, b / 2, k - 1);
    }
  }

  /** Bit k of a non-negative number. */
  function Bit(x: nat, k: nat): nat {
    Shr(x, k) % 2
  }

  /** Two numbers that agree above bit m - 1 agree on every bit from m upwards. */
  lemma SharedPrefixBits(a: nat, b: nat, m: nat, k: nat)
    requires Shr(a, m) == Shr(b, m)
    requires m <= k
    ensures Bit(a, k) == Bit(b, k)
  {
    ShrTwice(a, m, k - m);
    ShrTwice(b, m, k - m);
  }

  /** The number of binary digits of x: 0 for 0, otherwise the position of its top bit plus one. */
  function BitLength(x: nat): nat {
    if x == 0 then 0 else 1 + BitLength(x / 2)
  }

  /** A positive x lies between the powers of two around its top bit. */
  lemma {:induction false} BitLengthBounds(x: nat)
    ensures x > 0 ==> BitLength(x) >= 1 && Pow2(BitLength(x) - 1) <= x < Pow2(BitLength(x))
  {
    if x > 1 {
      BitLengthBounds(x / 2);
    }
  }

  /** A number below 2^w has at most w binary digits. */
  lemma {:induction false} BitLengthBelow(x: nat, w: nat)
    requires x < Pow2(w)
    ensures BitLength(x) <= w
  {
    if x > 0 {
      BitLengthBelow(x / 2, w - 1);
    }
  }

  /** The number of leading zero bits of x read as a w-bit unsigned number. */
  function LeadingZeros(x: nat, w: nat): (p: nat)
    requires x < Pow2(w)
    ensures p <= w
  {
    BitLengthBelow(x, w);
    w - BitLength(x)
  }

  /** Integer.numberOfLeadingZeros: the leading zeros of the 32-bit two's-complement pattern of i. */
  function NumberOfLeadingZeros(i: int): (p: nat)
    requires IsInt(i)
    ensures p <= 32
  {
    Pow2Values();
    LeadingZeros(if i < 0 then i + 0x1_0000_0000 else i, 32)
  }

  /** A w-bit number with its top bit set has no leading zeros. */
  lemma LeadingZerosTopBit(x: nat, w: nat)
    requires 0 < w && Pow2(w - 1) <= x < Pow2(w)
    ensures LeadingZeros(x, w) == 0
  {
    BitLengthBounds(x);
    BitLengthBelow(x, w);
    if BitLength(x) < w - 1 {
      Pow2Less(BitLength(x), w - 1);
    }
  }

  /** Only zero has w leading zeros; otherwise the leading zeros place x between two powers of two. */
  lemma LeadingZerosBounds(x: nat, w: nat)
    requires x < Pow2(w)
    ensures LeadingZeros(x, w) == w <==> x == 0
    ensures x > 0 ==> LeadingZeros(x, w) < w
    ensures x > 0 ==> Pow2(w - 1 - LeadingZeros(x, w)) <= x < Pow2(w - LeadingZeros(x, w))
  {
    BitLengthBounds(x);
    BitLengthBelow(x, w);
  }

  /** Bitwise exclusive or of two non-negative numbers, bit by bit from the lowest. */
  function Xor(a: nat, b: nat): nat
    decreases a + b
  {
    if a == 0 && b == 0 then 0 else 2 * Xor(a / 2, b / 2) + (a + b) % 2
  }

  lemma {:induction false} XorBelow(a: nat, b: nat, w: nat)
    requires a < Pow2(w) && b < Pow2(w)
    ensures Xor(a, b) < Pow2(w)
    decreases w
  {
    if w > 0 && !(a == 0 && b == 0) {
      XorBelow(a / 2, b / 2, w - 1);
    }
  }

  lemma {:induction false} XorZero(a: nat, b: nat)
    ensures Xor(a, b) == 0 <==> a == b
    decreases a + b
  {
    if !(a == 0 && b == 0) {
      XorZero(a / 2, b / 2);
    }
  }

  lemma XorHalf(a: nat, b: nat)
    ensures Xor(a, b) / 2 == Xor(a / 2, b / 2)
  {
    if !(a == 0 && b == 0) {
      var x := Xor(a / 2, b / 2);
      DivModUnique(Xor(a, b), 2, x, (a + b) % 2);
    }
  }

  lemma {:induction false} XorShift(a: nat, b: nat, k: nat)
    ensures Shr(Xor(a, b), k) == Xor(Shr(a, k), Shr(b, k))
    decreases k
  {
    if k > 0 {
      XorShift(a, b, k - 1);
      var a1, b1 := Shr(a, k - 1), Shr(b, k - 1);
      calc {
        Shr(Xor(a, b), k);
        { ShrSucc(Xor(a, b), k - 1); }
        Shr(Xor(a, b), k - 1) / 2;
        Xor(a1, b1) / 2;
        { XorHalf(a1, b1); }
        Xor(a1 / 2, b1 / 2);
        { ShrSucc(a, k - 1); ShrSucc(b, k - 1); }
        Xor(Shr(a, k), Shr(b, k));
      }
    }
  }

  /** For a < b < 2^w, the leading zeros p of a xor b read as a w-bit number are the
      high bits a and b share: above bit w - 1 - p they agree, and at bit w - 1 - p a
      has a 0 and b has a 1. */
  lemma LeadingZerosOfXor(a: nat, b: nat, w: nat)
    requires a < b < Pow2(w)
    ensures Xor(a, b) < Pow2(w)
    ensures LeadingZeros(Xor(a, b), w) < w
    ensures var p := LeadingZeros(Xor(a, b), w);
      Shr(a, w - p) == Shr(b, w - p) && Bit(a, w - 1 - p) == 0 && Bit(b, w - 1 - p) == 1
  {
    XorBelow(a, b, w);
    XorZero(a, b);
    LeadingZerosBounds(Xor(a, b), w);
    PartingBit(a, b, w, LeadingZeros(Xor(a, b), w));
  }

  /** If the top bit of a xor b is bit w - 1 - p, then a and b agree from bit w - p
      upwards, and at bit w - 1 - p the smaller one has a 0 and the greater a 1. */
  lemma PartingBit(a: nat, b: nat, w: nat, p: nat)
    requires a < b && p < w
    requires Pow2(w - 1 - p) <= Xor(a, b) < Pow2(w - p)
    ensures Shr(a, w - p) == Shr(b, w - p) && Bit(a, w - 1 - p) == 0 && Bit(b, w - 1 - p) == 1
  {
    AgreeAbove(a, b, w - p);
    DifferAt(a, b, w - 1 - p);
  }

  /** Where the xor has no bits left, the numbers agree. */
  lemma AgreeAbove(a: nat, b: nat, hi: nat)
    requires Xor(a, b) < Pow2(hi)
    ensures Shr(a, hi) == Shr(b, hi)
  {
    XorShift(a, b, hi);
    ShrBelow(Xor(a, b), hi);
    XorZero(Shr(a, hi), Shr(b, hi));
  }

  lemma {:induction false} ShrBelow(x: nat, k: nat)
    requires x < Pow2(k)
    ensures Shr(x, k) == 0
  {
    if k > 0 {
      ShrBelow(x / 2, k - 1);
    }
  }

  lemma {:induction false} ShrAtLeast(x: nat, k: nat)
    requires Pow2(k) <= x
    ensures Shr(x, k) >= 1
  {
    if k > 0 {
      ShrAtLeast(x / 2, k - 1);
    }
  }

  /** If the xor's top bit is bit lo and a < b, then bit lo is 0 in a and 1 in b. */
  lemma DifferAt(a: nat, b: nat, lo: nat)
    requires a < b
    requires Pow2(lo) <= Xor(a, b) < Pow2(lo + 1)
    ensures Bit(a, lo) == 0 && Bit(b, lo) == 1
  {
    var qa, qb := Shr(a, lo), Shr(b, lo);
    XorShift(a, b, lo);
    ShrAtLeast(Xor(a, b), lo);
    XorZero(qa, qb);
    AgreeAbove(a, b, lo + 1);
    ShrSucc(a, lo);
    ShrSucc(b, lo);
    ShrMonotone(a, b, lo);
    assert qa / 2 == qb / 2 && qa < qb;
  }
}
