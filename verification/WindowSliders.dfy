/** The sliding window of algebra.cpp, which cuts an exponent into odd digits.

    `Recode` is the digit list a slider produces; the class `WindowSlider` is the slider with
    its fields, and each call of `FindNextWindow` moves exactly one digit along that list. */
module WindowSliders {
  import opened BitMath

  /** A signed digit and the bit position it stands at. */
  datatype Digit = Digit(position: nat, value: int)

  /** The sum of value·2^position. */
  ghost function SumOfDigits(digits: seq<Digit>): int {
    if digits == [] then 0
    else digits[0].value * Pow2(digits[0].position) + SumOfDigits(digits[1..])
  }

  /** The digits of `r` from bit `pos` up: skip to the lowest set bit, take `w` bits, and if the
      bit above them is set and negation is cheap, take the digit minus 2^w and carry one. */
  ghost function Recode(r: nat, w: nat, fastNegate: bool, pos: nat): (digits: seq<Digit>)
    requires w >= 1
    decreases r
  {
    if r == 0 then []
    else
      var z := TrailingZeros(r);
      var q := Shift(r, z);
      var rest := RemainderAfter(q, w, fastNegate);
      RestIsSmaller(r, w, fastNegate);
      [Digit(pos + z, DigitOf(q, w, fastNegate))] + Recode(rest, w, fastNegate, pos + z + w)
  }

  predicate Negated(q: nat, w: nat, fastNegate: bool) {
    fastNegate && GetBit(q, w)
  }

  function DigitOf(q: nat, w: nat, fastNegate: bool): int {
    if Negated(q, w, fastNegate) then Low(q, w) - Pow2(w) else Low(q, w)
  }

  function RemainderAfter(q: nat, w: nat, fastNegate: bool): nat {
    if Negated(q, w, fastNegate) then Shift(q, w) + 1 else Shift(q, w)
  }

  lemma DigitAndRemainder(q: nat, w: nat, fastNegate: bool)
    ensures q == DigitOf(q, w, fastNegate) + Pow2(w) * RemainderAfter(q, w, fastNegate)
  {
    ShiftLow(q, w);
    Carry(Shift(q, w), Pow2(w), Low(q, w));
  }

  /** Carrying one into the high part and taking it from the low part. */
  lemma Carry(high: int, p: int, low: int)
    ensures high * p + low == low + p * high == (low - p) + p * (high + 1)
    ensures high * p + low + p == (high + 1) * p + low
  {}

  /** Why recoding ends although negation adds 2^w back. */
  lemma RestIsSmaller(r: nat, w: nat, fastNegate: bool)
    requires r > 0 && w >= 1
    ensures RemainderAfter(Shift(r, TrailingZeros(r)), w, fastNegate) < r
  {
    var q := Shift(r, TrailingZeros(r));
    TrailingZerosShift(r);
    ShiftAtMost(q / 2, w - 1);
  }

  /** An odd number keeps its lowest bit in a window of at least one bit. */
  lemma OddWindow(q: nat, w: nat)
    requires q % 2 == 1 && w >= 1
    ensures Low(q, w) % 2 == 1 && Low(q, w) < Pow2(w) && Pow2(w) % 2 == 0
  {
    LowBound(q, w);
  }

  lemma DigitShape(q: nat, w: nat, fastNegate: bool)
    requires q % 2 == 1 && w >= 1
    ensures DigitOf(q, w, fastNegate) % 2 == 1
    ensures 0 - Pow2(w) < DigitOf(q, w, fastNegate) < Pow2(w)
    ensures !fastNegate ==> DigitOf(q, w, fastNegate) > 0
  {
    OddWindow(q, w);
  }

  /** The shape promised of the digits: odd, of size below 2^w, at strictly increasing positions
      at least w apart, none before `pos`, and negative only if negation is cheap. */
  ghost predicate WellFormed(digits: seq<Digit>, w: nat, fastNegate: bool, pos: nat)
  {
    digits != [] ==>
      && pos <= digits[0].position
      && digits[0].value % 2 == 1
      && 0 - Pow2(w) < digits[0].value < Pow2(w)
      && (!fastNegate ==> digits[0].value > 0)
      && WellFormed(digits[1..], w, fastNegate, digits[0].position + w)
  }

  lemma {:induction false} RecodeWellFormed(r: nat, w: nat, fastNegate: bool, pos: nat)
    requires w >= 1
    ensures WellFormed(Recode(r, w, fastNegate, pos), w, fastNegate, pos)
    decreases r
  {
    if r > 0 {
      var z := TrailingZeros(r);
      var q := Shift(r, z);
      TrailingZerosShift(r);
      DigitShape(q, w, fastNegate);
      RestIsSmaller(r, w, fastNegate);
      hide Shift, Pow2, TrailingZeros, DigitOf, RemainderAfter;
      RecodeWellFormed(RemainderAfter(q, w, fastNegate), w, fastNegate, pos + z + w);
    }
  }

  /** The signed digits sum to the number recoded. */
  lemma {:induction false} RecodeSum(r: nat, w: nat, fastNegate: bool, pos: nat)
    requires w >= 1
    ensures SumOfDigits(Recode(r, w, fastNegate, pos)) == r * Pow2(pos)
    decreases r
  {
    if r > 0 {
      var z := TrailingZeros(r);
      var q := Shift(r, z);
      var d, rest := DigitOf(q, w, fastNegate), RemainderAfter(q, w, fastNegate);
      TrailingZerosShift(r);
      RestIsSmaller(r, w, fastNegate);
      RecodeSum(rest, w, fastNegate, pos + z + w);
      DigitAndRemainder(q, w, fastNegate);
      calc {
        d * Pow2(pos + z) + rest * Pow2(pos + z + w);
        { Pow2Add(pos + z, w); }
        d * Pow2(pos + z) + rest * (Pow2(pos + z) * Pow2(w));
        { FactorOut(d, rest, Pow2(pos + z), Pow2(w)); }
        (d + Pow2(w) * rest) * Pow2(pos + z);
        { Pow2Add(pos, z); }
        q * (Pow2(pos) * Pow2(z));
        { Reassociate(q, Pow2(pos), Pow2(z)); }
        Pow2(pos) * (q * Pow2(z));
        r * Pow2(pos);
      }
    } else {
      assert r * Pow2(pos) == 0;
    }
  }

  lemma FactorOut(d: int, rest: int, p: int, m: int)
    ensures d * p + rest * (p * m) == (d + m * rest) * p
  {}

  /** Index by index: every digit is odd and small, and any two are at least w apart. */
  lemma {:induction false} WellFormedAt(digits: seq<Digit>, w: nat, fastNegate: bool, pos: nat, i: nat)
    requires WellFormed(digits, w, fastNegate, pos) && i < |digits|
    ensures pos <= digits[i].position
    ensures digits[i].value % 2 == 1 && 0 - Pow2(w) < digits[i].value < Pow2(w)
    ensures !fastNegate ==> digits[i].value > 0
    ensures forall j :: i < j < |digits| ==> digits[i].position + w <= digits[j].position
  {
    if i == 0 {
      forall j | 0 < j < |digits| ensures digits[0].position + w <= digits[j].position {
        WellFormedAt(digits[1..], w, fastNegate, digits[0].position + w, j - 1);
      }
    } else {
      WellFormedAt(digits[1..], w, fastNegate, digits[0].position + w, i - 1);
      forall j | i < j < |digits| ensures digits[i].position + w <= digits[j].position {
        assert digits[j] == digits[1..][j - 1];
      }
    }
  }

  /** The window size chosen when the caller names none. */
  function DefaultWindowSize(e: nat): (w: nat)
    ensures 1 <= w <= 7
  {
    var expLen := BitCount(e);
    if expLen <= 17 then 1
    else if expLen <= 24 then 2
    else if expLen <= 70 then 3
    else if expLen <= 197 then 4
    else if expLen <= 539 then 5
    else if expLen <= 1434 then 6
    else 7
  }

  class WindowSlider {
    var exp: nat
    const windowModulus: nat
    const windowSize: nat
    var windowBegin: nat
    var expWindow: nat
    const fastNegate: bool
    var negateNext: bool
    var firstTime: bool
    var finished: bool

    constructor (expIn: nat, fastNegate: bool, windowSizeIn: nat)
      ensures firstTime && Valid()
      ensures windowSize == if windowSizeIn == 0 then DefaultWindowSize(expIn) else windowSizeIn
      ensures this.fastNegate == fastNegate
      ensures Remaining() == Recode(expIn, windowSize, fastNegate, 0)
    {
      exp := expIn;
      this.fastNegate := fastNegate;
      windowSize := if windowSizeIn == 0 then DefaultWindowSize(expIn) else windowSizeIn;
      windowModulus := Pow2(if windowSizeIn == 0 then DefaultWindowSize(expIn) else windowSizeIn);
      windowBegin := 0;
      firstTime, finished := true, false;
    }

    ghost predicate Valid()
      reads this
    {
      && windowSize >= 1
      && windowModulus == Pow2(windowSize)
      && (firstTime ==> !finished)
    }

    /** The digit the slider is standing on. */
    ghost function Current(): Digit
      reads this
    {
      Digit(windowBegin, if negateNext then 0 - expWindow else expWindow)
    }

    /** The digits beyond the window the slider stands on, if it stands on one. */
    ghost function Ahead(): seq<Digit>
      reads this
      requires Valid()
    {
      if finished then []
      else if firstTime then Recode(exp, windowSize, fastNegate, windowBegin)
      else Recode(Shift(exp, windowSize), windowSize, fastNegate, windowBegin + windowSize)
    }

    /** The digits not yet passed: on a window, its digit and whatever follows. */
    ghost function Remaining(): seq<Digit>
      reads this
      requires Valid()
    {
      if finished || firstTime then Ahead() else [Current()] + Ahead()
    }

    /** Moves on to the next window, or finds that there is none. */
    method FindNextWindow()
      requires Valid() && !finished
      modifies this
      ensures Valid() && !firstTime
      ensures Remaining() == old(Ahead())
    {
      hide Recode, Shift, Low, Pow2, TrailingZeros;
      ghost var from := if firstTime then 0 else windowSize;
      FromHere(exp, windowSize, fastNegate, windowBegin);
      var found, skipCount := SkipClearBits(exp, if firstTime then 0 else windowSize);
      firstTime := false;
      if !found {
        finished := true;
        return;
      }
      ghost var q, rest := WindowFound(exp, from, windowSize, fastNegate, windowBegin);
      TakeWindow(skipCount);
    }

    /** Skips to the set bit at `skipCount` and reads the window that starts there. */
    method TakeWindow(skipCount: nat)
      requires windowModulus == Pow2(windowSize)
      requires Low(Shift(exp, skipCount), windowSize) <= Pow2(windowSize)
      modifies this`exp, this`windowBegin, this`expWindow, this`negateNext
      ensures windowBegin == old(windowBegin) + skipCount
      ensures var q := Shift(old(exp), skipCount);
              && negateNext == Negated(q, windowSize, fastNegate)
              && Current() == Digit(windowBegin, DigitOf(q, windowSize, fastNegate))
              && exp == if negateNext then q + Pow2(windowSize) else q
    {
      exp := Shift(exp, skipCount);
      windowBegin := windowBegin + skipCount;
      expWindow := Low(exp, windowSize);
      if fastNegate && GetBit(exp, windowSize) {
        negateNext := true;
        expWindow := Pow2(windowSize) - expWindow;
        exp := exp + windowModulus;
      } else {
        negateNext := false;
      }
    }
  }

  /** Nothing is shifted out before the first window, and nothing comes after the last. */
  lemma FromHere(e: nat, w: nat, fastNegate: bool, begin: nat)
    ensures Shift(e, 0) == e
    ensures Shift(e, 0) == 0 && w >= 1 ==> Recode(e, w, fastNegate, begin) == []
    ensures Shift(e, w) == 0 && w >= 1 ==> Recode(Shift(e, w), w, fastNegate, begin + w) == []
  {}

  /** One window: the digit at the first set bit from `from` up, and what is left above it once
      negation has added 2^w back. */
  lemma WindowFound(e: nat, from: nat, w: nat, fastNegate: bool, begin: nat)
    returns (q: nat, rest: seq<Digit>)
    requires w >= 1 && Shift(e, from) > 0
    ensures var skip := from + TrailingZeros(Shift(e, from));
            && q == Shift(e, skip)
            && 1 <= Low(q, w) < Pow2(w)
            && rest == Recode(Shift(if Negated(q, w, fastNegate) then q + Pow2(w) else q, w),
                              w, fastNegate, begin + skip + w)
            && Recode(Shift(e, from), w, fastNegate, begin + from)
            == [Digit(begin + skip, DigitOf(q, w, fastNegate))] + rest
  {
    var r := Shift(e, from);
    var z := TrailingZeros(r);
    q := Shift(r, z);
    ShiftShift(e, from, z);
    TrailingZerosShift(r);
    OddWindow(q, w);
    CarryAdded(q, w);
    rest := Recode(RemainderAfter(q, w, fastNegate), w, fastNegate, begin + from + z + w);
  }

  const WORD_BITS: nat := 32

  /** The number of words that the significant bits take. */
  function WordCount(e: nat): nat {
    (BitCount(e) + WORD_BITS - 1) / WORD_BITS
  }

  lemma WordsCover(e: nat)
    ensures BitCount(e) <= WordCount(e) * WORD_BITS
  {}

  /** The scan inside `FindNextWindow`: from bit `start`, up to the next set bit. It gives up past
      the last word of the exponent. */
  method SkipClearBits(exp: nat, start: nat) returns (found: bool, skipCount: nat)
    ensures found <==> Shift(exp, start) > 0
    ensures found ==> skipCount == start + TrailingZeros(Shift(exp, start))
  {
    hide WordCount, Shift, BitValue, BitCount, TrailingZeros;
    var expLen: nat := WordCount(exp) * WORD_BITS;
    WordsCover(exp);
    skipCount := start;
    ghost var r := Shift(exp, start);
    while !GetBit(exp, skipCount)
      invariant start <= skipCount
      invariant r > 0 ==> skipCount - start <= TrailingZeros(r)
      decreases expLen + start - skipCount
    {
      ClearBit(exp, start, skipCount - start);
      if skipCount >= expLen {
        BitCountAbove(exp, skipCount);
        NothingAbove(exp, start, skipCount - start);
        return false, skipCount;
      }
      skipCount := skipCount + 1;
    }
    SetBit(exp, start, skipCount - start);
    found := true;
  }

  /** A clear bit below the lowest set one that is left. */
  lemma ClearBit(exp: nat, start: nat, z: nat)
    requires !GetBit(exp, start + z)
    ensures var r := Shift(exp, start); r > 0 && z <= TrailingZeros(r) ==> z + 1 <= TrailingZeros(r)
  {
    var r := Shift(exp, start);
    ShiftShift(exp, start, z);
    if r > 0 && z <= TrailingZeros(r) { TrailingZerosBits(r, z); }
  }

  lemma NothingAbove(exp: nat, start: nat, z: nat)
    requires Shift(exp, start + z) == 0
    ensures var r := Shift(exp, start); r > 0 ==> z > TrailingZeros(r)
  {
    var r := Shift(exp, start);
    ShiftShift(exp, start, z);
    if r > 0 { ScannedAll(r, z); }
  }

  lemma SetBit(exp: nat, start: nat, z: nat)
    requires GetBit(exp, start + z)
    ensures var r := Shift(exp, start); r > 0 && (z <= TrailingZeros(r) ==> z == TrailingZeros(r))
  {
    var r := Shift(exp, start);
    ShiftShift(exp, start, z);
    ShiftZero(z);
    if z <= TrailingZeros(r) { TrailingZerosBits(r, z); }
  }

  /** Nothing left at or above the scan position means the scan passed the lowest set bit. */
  lemma {:induction false} ScannedAll(r: nat, n: nat)
    requires r > 0 && Shift(r, n) == 0
    ensures n > TrailingZeros(r)
  {
    if r % 2 == 0 { ScannedAll(r / 2, n - 1); }
  }

  lemma CarryAdded(q: nat, w: nat)
    ensures Shift(q + Pow2(w), w) == Shift(q, w) + 1
  {
    ShiftLow(q, w);
    Carry(Shift(q, w), Pow2(w), Low(q, w));
    SplitUnique(w, Shift(q, w) + 1, Low(q, w));
  }

  /** The whole of one slider's run, for any exponent and window size: the digits it will stand
      on are odd, small and spaced, and they sum to the exponent. */
  lemma SliderDigits(e: nat, w: nat, fastNegate: bool)
    requires w >= 1
    ensures WellFormed(Recode(e, w, fastNegate, 0), w, fastNegate, 0)
    ensures SumOfDigits(Recode(e, w, fastNegate, 0)) == e
  {
    RecodeWellFormed(e, w, fastNegate, 0);
    RecodeSum(e, w, fastNegate, 0);
    assert Pow2(0) == 1;
  }
}
