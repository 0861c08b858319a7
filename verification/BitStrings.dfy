/** Numbers as strings of bits, most significant first, and the word operations on them. */
module BitStrings {
  import opened BitMath
  import opened ByteStrings

  type Bits = seq<bool>

  function FromBits(bits: Bits): nat {
    if bits == [] then 0
    else 2 * FromBits(bits[..|bits| - 1]) + if bits[|bits| - 1] then 1 else 0
  }

  /** The lowest `n` bits of `v`. */
  function ToBits(v: nat, n: nat): (bits: Bits)
    ensures |bits| == n
  {
    if n == 0 then [] else ToBits(v / 2, n - 1) + [v % 2 == 1]
  }

  function ZeroBits(n: nat): (bits: Bits)
    ensures |bits| == n && forall i :: 0 <= i < n ==> !bits[i]
  {
    Repeated(false, n)
  }

  /** The bitwise or of two numbers. */
  function BitOr(a: nat, b: nat): nat {
    if a == 0 && b == 0 then 0
    else 2 * BitOr(a / 2, b / 2) + if a % 2 == 1 || b % 2 == 1 then 1 else 0
  }

  ghost function OrBits(a: Bits, b: Bits): (bits: Bits)
    requires |a| == |b|
    ensures |bits| == |a| && forall i :: 0 <= i < |a| ==> bits[i] == (a[i] || b[i])
  {
    seq(|a|, i requires 0 <= i < |a| => a[i] || b[i])
  }

  lemma FromBitsPush(bits: Bits, b: bool)
    ensures FromBits(bits + [b]) == 2 * FromBits(bits) + if b then 1 else 0
  {
    assert (bits + [b])[..|bits|] == bits;
  }

  lemma {:induction false} FromBitsBound(bits: Bits)
    ensures FromBits(bits) < Pow2(|bits|)
  {
    if bits != [] { FromBitsBound(bits[..|bits| - 1]); }
  }

  lemma {:induction false} FromToBits(v: nat, n: nat)
    requires v < Pow2(n)
    ensures FromBits(ToBits(v, n)) == v
  {
    if n > 0 {
      FromToBits(v / 2, n - 1);
      FromBitsPush(ToBits(v / 2, n - 1), v % 2 == 1);
    }
  }

  lemma {:induction false} ToFromBits(bits: Bits)
    ensures ToBits(FromBits(bits), |bits|) == bits
  {
    if bits != [] {
      var b := bits[..|bits| - 1];
      ToFromBits(b);
      assert FromBits(bits) / 2 == FromBits(b);
      assert bits == b + [bits[|bits| - 1]];
    }
  }

  lemma {:induction false} FromLeadingZeros(n: nat, bits: Bits)
    ensures FromBits(ZeroBits(n) + bits) == FromBits(bits)
  {
    var z := ZeroBits(n) + bits;
    if bits != [] {
      FromLeadingZeros(n, bits[..|bits| - 1]);
      assert z[..|z| - 1] == ZeroBits(n) + bits[..|bits| - 1];
    } else if n > 0 {
      FromLeadingZeros(n - 1, []);
      assert z[..|z| - 1] == ZeroBits(n - 1) + [];
    }
  }

  /** Shifting left appends zeros. */
  lemma {:induction false} ShiftLeft(bits: Bits, n: nat)
    ensures FromBits(bits) * Pow2(n) == FromBits(bits + ZeroBits(n))
  {
    if n == 0 {
      assert bits + ZeroBits(0) == bits;
    } else {
      ShiftLeft(bits, n - 1);
      assert bits + ZeroBits(n) == (bits + ZeroBits(n - 1)) + [false];
      FromBitsPush(bits + ZeroBits(n - 1), false);
      Reassociate(FromBits(bits), 2, Pow2(n - 1));
    }
  }

  /** Shifting right drops bits off the end. */
  lemma {:induction false} ShiftRight(bits: Bits, n: nat)
    requires n <= |bits|
    ensures Shift(FromBits(bits), n) == FromBits(bits[..|bits| - n])
  {
    if n == 0 {
      assert bits[..|bits|] == bits;
    } else {
      var b := bits[..|bits| - 1];
      ShiftRight(b, n - 1);
      assert FromBits(bits) / 2 == FromBits(b);
      assert b[..|b| - (n - 1)] == bits[..|bits| - n];
    }
  }

  /** Masking keeps the bits at the end. */
  lemma {:induction false} MaskBits(bits: Bits, n: nat)
    requires n <= |bits|
    ensures Low(FromBits(bits), n) == FromBits(bits[|bits| - n..])
  {
    if n > 0 {
      var b := bits[..|bits| - 1];
      MaskBits(b, n - 1);
      assert FromBits(bits) / 2 == FromBits(b);
      var tail := bits[|bits| - n..];
      assert tail[..|tail| - 1] == b[|b| - (n - 1)..];
    }
  }

  lemma {:induction false} OrOfBits(a: Bits, b: Bits)
    requires |a| == |b|
    ensures BitOr(FromBits(a), FromBits(b)) == FromBits(OrBits(a, b))
  {
    if a != [] {
      var n := |a| - 1;
      OrOfBits(a[..n], b[..n]);
      assert OrBits(a, b)[..n] == OrBits(a[..n], b[..n]);
    }
  }

  /** Filling the empty end of a field: (x · 2^|y|) | y. */
  lemma OrFills(x: Bits, y: Bits)
    ensures BitOr(FromBits(x + ZeroBits(|y|)), FromBits(y)) == FromBits(x + y)
  {
    FromLeadingZeros(|x|, y);
    OrOfBits(x + ZeroBits(|y|), ZeroBits(|x|) + y);
    assert OrBits(x + ZeroBits(|y|), ZeroBits(|x|) + y) == x + y;
  }

  /** The digits of `digits`, `n` bits each, one after the other. */
  ghost function Expand(digits: seq<byte>, n: nat): Bits {
    if digits == [] then [] else Expand(digits[..|digits| - 1], n) + ToBits(digits[|digits| - 1], n)
  }

  lemma ExpandNothing(n: nat)
    ensures Expand([], n) == []
  {}

  lemma ExpandPush(digits: seq<byte>, d: byte, n: nat)
    ensures Expand(digits + [d], n) == Expand(digits, n) + ToBits(d, n)
  {
    assert (digits + [d])[..|digits|] == digits;
  }

  lemma {:induction false} ExpandConcatenation(a: seq<byte>, b: seq<byte>, n: nat)
    ensures Expand(a + b, n) == Expand(a, n) + Expand(b, n)
  {
    if b == [] {
      assert a + b == a;
    } else {
      var b', d := b[..|b| - 1], b[|b| - 1];
      ExpandConcatenation(a, b', n);
      assert a + b == (a + b') + [d];
      ExpandPush(a + b', d, n);
      assert (Expand(a, n) + Expand(b', n)) + ToBits(d, n) == Expand(a, n) + (Expand(b', n) + ToBits(d, n));
    }
  }

  lemma ExpandFirst(d: byte, rest: seq<byte>, n: nat)
    ensures Expand([d] + rest, n) == ToBits(d, n) + Expand(rest, n)
  {
    ExpandConcatenation([d], rest, n);
    assert [d][..0] == [];
    assert Expand([], n) + ToBits(d, n) == ToBits(d, n);
  }

  ghost predicate AllBelow(digits: seq<byte>, n: nat) {
    forall i :: 0 <= i < |digits| ==> digits[i] < Pow2(n)
  }

  lemma Pow2Values()
    ensures Pow2(0) == 1 && Pow2(1) == 2 && Pow2(2) == 4 && Pow2(3) == 8 && Pow2(4) == 16
    ensures Pow2(5) == 32 && Pow2(6) == 64 && Pow2(7) == 128 && Pow2(8) == 256
  {
    assert Pow2(3) == 8 && Pow2(4) == 16 && Pow2(5) == 32 && Pow2(6) == 64;
  }

  /** Up to eight bits make a byte. */
  lemma FitsByte(bits: Bits)
    requires |bits| <= 8
    ensures FromBits(bits) < 256
  {
    FromBitsBound(bits);
    Pow2Monotone(|bits|, 8);
    Pow2Values();
  }

  /** `bits` cut into digits of `n` bits, the last one filled up with zeros. */
  ghost function Digits(bits: Bits, n: nat): seq<byte>
    requires 1 <= n <= 8
  {
    if bits == [] then []
    else if |bits| < n then
      FitsByte(bits + ZeroBits(n - |bits|));
      [FromBits(bits + ZeroBits(n - |bits|))]
    else
      FitsByte(bits[..n]);
      [FromBits(bits[..n])] + Digits(bits[n..], n)
  }

  /** `bits` cut into bytes; bits that do not make a whole byte are dropped. */
  ghost function Octets(bits: Bits): seq<byte> {
    if |bits| < 8 then []
    else
      FitsByte(bits[..8]);
      [FromBits(bits[..8])] + Octets(bits[8..])
  }

  /** The digits are the only ones that spell the bits with less than a digit of zeros added. */
  lemma {:induction false} DigitsUnique(digits: seq<byte>, bits: Bits, n: nat, fill: nat)
    requires 1 <= n <= 8 && fill < n && AllBelow(digits, n)
    requires Expand(digits, n) == bits + ZeroBits(fill)
    ensures digits == Digits(bits, n)
  {
    hide Expand, ToBits, FromBits, Pow2;
    if digits == [] {
      ExpandNothing(n);
      assert |bits| + fill == 0;
    } else {
      var d, rest := digits[0], digits[1..];
      assert digits == [d] + rest;
      ExpandFirst(d, rest, n);
      FromToBits(d, n);
      var all := bits + ZeroBits(fill);
      assert ToBits(d, n) == all[..n] && Expand(rest, n) == all[n..];
      if |bits| < n {
        LastDigit(rest, n, fill - (n - |bits|));
        assert all[..n] == bits + ZeroBits(n - |bits|);
      } else {
        assert all[..n] == bits[..n] && all[n..] == bits[n..] + ZeroBits(fill);
        DigitsUnique(rest, bits[n..], n, fill);
      }
    }
  }

  /** Fewer bits than a digit has are no digit. */
  lemma LastDigit(digits: seq<byte>, n: nat, left: int)
    requires left < n && |Expand(digits, n)| == left
    ensures digits == []
  {}

  /** The bytes of a byte string's bits are that byte string, also with a few bits more at the end. */
  lemma {:induction false} OctetsUnique(bytes: seq<byte>, extra: Bits)
    requires |extra| < 8
    ensures Octets(Expand(bytes, 8) + extra) == bytes
  {
    hide Expand, ToBits, FromBits, Pow2;
    if bytes == [] {
      ExpandNothing(8);
    } else {
      var b, rest := bytes[0], bytes[1..];
      assert bytes == [b] + rest;
      ExpandFirst(b, rest, 8);
      Pow2Values();
      FromToBits(b, 8);
      var all := Expand(bytes, 8) + extra;
      assert all[..8] == ToBits(b, 8) && all[8..] == Expand(rest, 8) + extra;
      OctetsUnique(rest, extra);
    }
  }

  /** A cell of `n` bits with `part` at its top end and nothing below. */
  ghost predicate CellHolds(cell: nat, n: nat, part: Bits) {
    |part| <= n && cell == FromBits(part + ZeroBits(n - |part|))
  }

  lemma EmptyCell(n: nat)
    ensures CellHolds(0, n, [])
  {
    FromLeadingZeros(n, []);
    assert [] + ZeroBits(n) == ZeroBits(n) + [];
  }

  /** `x` put at the next free bits of a cell, and nothing below it. */
  function CellWith(cell: nat, n: nat, part: Bits, x: Bits): nat
    requires |part| + |x| <= n
  {
    BitOr(cell, FromBits(x + ZeroBits(n - |part| - |x|)))
  }

  lemma Filled(cell: nat, n: nat, part: Bits, x: Bits)
    requires |part| + |x| <= n && CellHolds(cell, n, part)
    ensures CellHolds(CellWith(cell, n, part, x), n, part + x)
    ensures n <= 8 ==> CellWith(cell, n, part, x) < 256
  {
    var z := ZeroBits(n - |part| - |x|);
    OrFills(part, x + z);
    assert part + (x + z) == (part + x) + z;
    if n <= 8 { FitsByte((part + x) + z); }
  }

  /** Cells of `n` bits: the first `pos` spell `done`, the next one holds `part` at its top end, the
      others are clear. */
  ghost predicate Packed(cells: seq<byte>, n: nat, pos: nat, done: Bits, part: Bits) {
    && |part| < n && pos <= |cells|
    && Spells(cells[..pos], n, done)
    && (if pos < |cells| then CellHolds(cells[pos], n, part) else part == [])
    && ClearFrom(cells, pos + 1)
  }

  ghost predicate Spells(digits: seq<byte>, n: nat, bits: Bits) {
    AllBelow(digits, n) && Expand(digits, n) == bits
  }

  ghost predicate ClearFrom(cells: seq<byte>, from: nat) {
    forall k :: from <= k < |cells| ==> cells[k] == 0
  }

  lemma PackNothing(cells: seq<byte>, n: nat)
    requires n >= 1 && ClearFrom(cells, 0)
    ensures Packed(cells, n, 0, [], [])
  {
    EmptyCell(n);
  }

  /** Filling up the digit at `pos`. */
  lemma SpellsMore(cells: seq<byte>, n: nat, pos: nat, done: Bits, digit: Bits)
    requires pos < |cells| && Spells(cells[..pos], n, done) && |digit| == n && CellHolds(cells[pos], n, digit)
    ensures Spells(cells[..pos + 1], n, done + digit)
  {
    assert digit + ZeroBits(0) == digit;
    FromBitsBound(digit);
    ToFromBits(digit);
    ExpandPush(cells[..pos], cells[pos], n);
    assert cells[..pos] + [cells[pos]] == cells[..pos + 1];
  }

  lemma ClearStep(cells: seq<byte>, pos: nat, v: byte)
    requires pos < |cells| && ClearFrom(cells, pos + 1)
    ensures var cells' := cells[pos := v];
            ClearFrom(cells', pos + 1) && ClearFrom(cells', pos + 2) && (pos + 1 < |cells| ==> cells[pos + 1] == 0)
  {}

  /** The cell at `pos` has room. */
  lemma PackedRoom(cells: seq<byte>, n: nat, pos: nat, done: Bits, part: Bits)
    requires Packed(cells, n, pos, done, part)
    ensures |part| < n && (pos < |cells| ==> CellHolds(cells[pos], n, part))
  {}

  /** Putting `x` into the cell at `pos`: it may fill it or not. */
  lemma PackMore(cells: seq<byte>, cells': seq<byte>, n: nat, pos: nat, done: Bits, part: Bits, x: Bits)
    requires Packed(cells, n, pos, done, part) && pos < |cells| && |part| + |x| <= n
    requires CellWith(cells[pos], n, part, x) < 256
    requires cells' == cells[pos := CellWith(cells[pos], n, part, x)]
    ensures |part| + |x| < n ==> Packed(cells', n, pos, done, part + x)
    ensures |part| + |x| == n ==> Packed(cells', n, pos + 1, done + (part + x), [])
  {
    ClearStep(cells, pos, CellWith(cells[pos], n, part, x));
    hide CellHolds, Spells, ClearFrom, CellWith, AllBelow, Expand, ToBits, FromBits, BitOr, OrBits, Pow2;
    Filled(cells[pos], n, part, x);
    assert cells'[..pos] == cells[..pos];
    if |part| + |x| == n {
      SpellsMore(cells', n, pos, done, part + x);
      EmptyCell(n);
    }
  }
}
