/** Powers of two and the bit operations of arbitrary-precision unsigned integers:
    shifting, masking, testing one bit, and counting significant bits. */
module BitMath {

  function Pow2(n: nat): (r: nat)
    ensures r > 0
  {
    if n == 0 then 1 else 2 * Pow2(n - 1)
  }

  /** e >> i */
  function Shift(e: nat, i: nat): nat {
    if i == 0 then e else Shift(e / 2, i - 1)
  }

  /** The lowest `i` bits of `e`. */
  function Low(e: nat, i: nat): nat {
    if i == 0 then 0 else e % 2 + 2 * Low(e / 2, i - 1)
  }

  /** Bit `i` of `e` as a number, counting from the least significant one. */
  function BitValue(e: nat, i: nat): (b: nat)
    ensures b <= 1
  {
    Shift(e, i) % 2
  }

  predicate GetBit(e: nat, i: nat) {
    BitValue(e, i) == 1
  }

  /** The number of significant bits; zero has none. */
  function BitCount(e: nat): nat {
    if e == 0 then 0 else 1 + BitCount(e / 2)
  }

  /** The number of zero bits below the lowest set bit. */
  function TrailingZeros(e: nat): nat
    requires e > 0
  {
    if e % 2 == 1 then 0 else 1 + TrailingZeros(e / 2)
  }

  lemma {:induction false} Pow2Add(i: nat, j: nat)
    ensures Pow2(i + j) == Pow2(i) * Pow2(j)
  {
    if i > 0 {
      Pow2Add(i - 1, j);
      assert Pow2(i + j) == 2 * Pow2(i - 1 + j) == 2 * (Pow2(i - 1) * Pow2(j));
    }
  }

  lemma {:induction false} Pow2Monotone(i: nat, j: nat)
    requires i <= j
    ensures Pow2(i) <= Pow2(j)
  {
    if i < j { Pow2Monotone(i, j - 1); }
  }

  lemma {:induction false} LowBound(e: nat, i: nat)
    ensures Low(e, i) < Pow2(i)
  {
    if i > 0 { LowBound(e / 2, i - 1); }
  }

  lemma {:induction false} ShiftAtMost(e: nat, i: nat)
    ensures Shift(e, i) <= e
  {
    if i > 0 { ShiftAtMost(e / 2, i - 1); }
  }

  /** Shifting and masking split a number into its high and low part. */
  lemma {:induction false} ShiftLow(e: nat, i: nat)
    ensures e == Shift(e, i) * Pow2(i) + Low(e, i)
    ensures Low(e, i) < Pow2(i)
  {
    if i > 0 {
      ShiftLow(e / 2, i - 1);
      Reassociate(Shift(e, i), 2, Pow2(i - 1));
    }
  }

  lemma Reassociate(a: int, b: int, c: int)
    ensures a * (b * c) == b * (a * c)
  {}

  /** There is only one way to split a number so. */
  lemma {:induction false} SplitUnique(i: nat, q: nat, r: nat)
    requires r < Pow2(i)
    ensures Shift(q * Pow2(i) + r, i) == q && Low(q * Pow2(i) + r, i) == r
  {
    if i > 0 {
      var e := q * Pow2(i) + r;
      Reassociate(q, 2, Pow2(i - 1));
      assert e == 2 * (q * Pow2(i - 1)) + r;
      assert e / 2 == q * Pow2(i - 1) + r / 2 && e % 2 == r % 2;
      SplitUnique(i - 1, q, r / 2);
    }
  }

  lemma QuotientUnique(b: int, q: int, r: int, q': int, r': int)
    requires 0 <= r < b && 0 <= r' < b
    requires q * b + r == q' * b + r'
    ensures q == q' && r == r'
  {
    var d := q - q';
    assert d * b == r' - r;
    assert (d >= 1 ==> d * b >= b) && (d <= -1 ==> d * b <= 0 - b);
  }

  /** Shifting and masking are division and remainder by a power of two. */
  lemma ShiftIsDivision(e: nat, i: nat)
    ensures Shift(e, i) == e / Pow2(i) && Low(e, i) == e % Pow2(i)
  {
    ShiftLow(e, i);
    QuotientUnique(Pow2(i), Shift(e, i), Low(e, i), e / Pow2(i), e % Pow2(i));
  }

  /** Shifting right twice is shifting right once by the sum. */
  lemma {:induction false} ShiftShift(e: nat, i: nat, j: nat)
    ensures Shift(Shift(e, i), j) == Shift(e, i + j)
  {
    if i > 0 { ShiftShift(e / 2, i - 1, j); }
  }

  /** The step of a most-significant-bit-first scan. */
  lemma ShiftStep(e: nat, i: nat)
    ensures Shift(e, i) == 2 * Shift(e, i + 1) + BitValue(e, i)
  {
    ShiftShift(e, i, 1);
    assert Shift(Shift(e, i), 1) == Shift(e, i) / 2;
  }

  lemma {:induction false} ShiftZero(i: nat)
    ensures Shift(0, i) == 0
  {
    if i > 0 { ShiftZero(i - 1); }
  }

  /** No bit is set at or above the bit count. */
  lemma {:induction false} BitCountAbove(e: nat, n: nat)
    requires BitCount(e) <= n
    ensures Shift(e, n) == 0 && e < Pow2(n)
  {
    if e == 0 { ShiftZero(n); } else { BitCountAbove(e / 2, n - 1); }
  }

  /** The highest bit counted is set. */
  lemma {:induction false} BitCountTop(e: nat)
    requires e > 0
    ensures Shift(e, BitCount(e) - 1) == 1
  {
    if e > 1 { BitCountTop(e / 2); }
  }

  lemma {:induction false} BitCountAtMost(e: nat, n: nat)
    requires e < Pow2(n)
    ensures BitCount(e) <= n
  {
    if e > 0 { BitCountAtMost(e / 2, n - 1); }
  }

  /** What trailing zeros mean: they can be shifted out, and leave an odd number. */
  lemma {:induction false} TrailingZerosShift(e: nat)
    requires e > 0
    ensures var q := Shift(e, TrailingZeros(e));
            e == q * Pow2(TrailingZeros(e)) && q % 2 == 1 && q <= e
  {
    if e % 2 == 0 {
      TrailingZerosShift(e / 2);
      Reassociate(Shift(e, TrailingZeros(e)), 2, Pow2(TrailingZeros(e / 2)));
    }
  }

  /** The bits below the trailing-zero count are clear and the next one is set. */
  lemma {:induction false} TrailingZerosBits(e: nat, i: nat)
    requires e > 0 && i <= TrailingZeros(e)
    ensures GetBit(e, i) <==> i == TrailingZeros(e)
  {
    if i > 0 { TrailingZerosBits(e / 2, i - 1); }
  }
}
