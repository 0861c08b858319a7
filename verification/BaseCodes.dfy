/** Text encodings with 2^n letters (basecode.cpp): the encoder and the decoder that repack bits
    between bytes and letters, the decoder's lookup table, and the filter that breaks text into groups. */
module BaseCodes {
  import opened ByteStrings
  import opened BitMath
  import opened BitStrings

  // ---------- What the text is ----------

  /** The number of bits in the smallest number of bytes that is also a whole number of letters. */
  function BlockBits(n: nat): nat {
    if n == 3 || n == 6 then 24 else if n == 5 then 40 else if n == 7 then 56 else 8
  }

  /** A block, in letters. */
  function BlockLetters(n: nat): nat {
    if n == 1 || n == 3 || n == 5 || n == 7 then 8 else if n == 2 || n == 6 then 4 else 2
  }

  /** What `count` letters lack to whole blocks. */
  function Missing(count: nat, block: nat): nat
    requires block > 0
    decreases count
  {
    if count == 0 then 0 else if count <= block then block - count else Missing(count - block, block)
  }

  lemma {:induction false} MissingAfterBlocks(count: nat, more: nat, block: nat)
    requires block > 0 && Missing(count, block) == 0
    ensures Missing(count + more, block) == Missing(more, block)
  {
    if count > block {
      MissingAfterBlocks(count - block, more, block);
    }
  }

  ghost predicate HasLetters(alphabet: seq<byte>, digits: seq<byte>) {
    forall i :: 0 <= i < |digits| ==> digits[i] < |alphabet|
  }

  ghost function Letters(alphabet: seq<byte>, digits: seq<byte>): (text: seq<byte>)
    requires HasLetters(alphabet, digits)
    ensures |text| == |digits|
  {
    seq(|digits|, i requires 0 <= i < |digits| => alphabet[digits[i]])
  }

  datatype Code = Code(alphabet: seq<byte>, bits: nat, padding: int) {
    /** The alphabet has a letter for every digit; padding is a character, or -1 for none. */
    ghost predicate WellFormed() {
      |alphabet| >= Pow2(bits) && -1 <= padding < 256
    }

    ghost predicate Valid() {
      1 <= bits <= 7 && WellFormed()
    }
  }

  /** Section 4 of RFC 4648, for any alphabet: the letters of the message's bits, and padding to a whole
      number of blocks where the code has padding. */
  ghost function Encoding(c: Code, message: seq<byte>): seq<byte>
    requires c.Valid()
  {
    var digits := Digits(Expand(message, 8), c.bits);
    DigitsInRange(Expand(message, 8), c.bits);
    Letters(c.alphabet, digits)
      + if c.padding == -1 then [] else Repeated<byte>(c.padding, Missing(|digits|, BlockLetters(c.bits)))
  }

  lemma {:induction false} DigitsInRange(bits: Bits, n: nat)
    requires 1 <= n <= 8
    ensures AllBelow(Digits(bits, n), n)
  {
    if bits == [] {
    } else if |bits| < n {
      FromBitsBound(bits + ZeroBits(n - |bits|));
    } else {
      FromBitsBound(bits[..n]);
      DigitsInRange(bits[n..], n);
    }
  }

  /** The values of the letters in a text, by a table that gives 256 or more, or less than 0, to what
      is no letter. */
  ghost function Values(lookup: seq<int>, text: seq<byte>): seq<byte>
    requires |lookup| == 256
  {
    if text == [] then []
    else
      var v := lookup[text[|text| - 1]];
      Values(lookup, text[..|text| - 1]) + if 0 <= v < 256 then [v] else []
  }

  /** The last `k` bits of `bits`, behind zeros if there are too few. */
  ghost function Fitted(bits: Bits, k: nat): (f: Bits)
    ensures |f| == k
  {
    if |bits| >= k then bits[|bits| - k..] else ZeroBits(k - |bits|) + bits
  }

  /** `over` or-ed into the end of `bits`. */
  ghost function Overlaid(bits: Bits, over: Bits): (r: Bits)
    ensures |r| == |bits|
  {
    OrBits(bits, Fitted(over, |bits|))
  }

  /** The bits of eight that are more than `n`, and the lowest `n` of them. */
  ghost function Above(value: byte, n: nat): Bits
    requires n <= 8
  {
    ToBits(value, 8)[..8 - n]
  }

  ghost function Below(value: byte, n: nat): (bits: Bits)
    requires n <= 8
    ensures |bits| == n
  {
    ToBits(value, 8)[8 - n..]
  }

  /** Where the byte begins that bit `k` is in. */
  function ByteStart(k: nat): (j: nat)
    ensures j <= k
  {
    k - k % 8
  }

  /** The letters' bits, `n` of each. A value with more bits has them or-ed into the byte that its letter
      begins in. */
  ghost function LetterStream(values: seq<byte>, n: nat): Bits
    requires n <= 8
  {
    if values == [] then []
    else
      var s, v := LetterStream(values[..|values| - 1], n), values[|values| - 1];
      var k := ByteStart(|s|);
      s[..k] + Overlaid(s[k..], Above(v, n)) + Below(v, n)
  }

  /** The bytes that the letters' bits make up. */
  ghost function Decoding(lookup: seq<int>, bits: nat, text: seq<byte>): seq<byte>
    requires |lookup| == 256 && bits <= 8
  {
    Octets(LetterStream(Values(lookup, text), bits))
  }

  lemma {:induction false} AboveBelow(value: nat, m: nat, n: nat)
    requires n <= m && value < Pow2(n)
    ensures ToBits(value, m) == ZeroBits(m - n) + ToBits(value, n)
  {
    if n > 0 {
      AboveBelow(value / 2, m - 1, n - 1);
    } else if m > 0 {
      AboveBelow(0, m - 1, 0);
      assert ZeroBits(m - 1) + [] + [false] == ZeroBits(m) + [];
    }
  }

  lemma OverlayNothing(bits: Bits, k: nat)
    ensures Overlaid(bits, ZeroBits(k)) == bits
  {}

  /** Values in range are spelled in full. */
  lemma {:induction false} StreamOfLetters(values: seq<byte>, n: nat)
    requires n <= 8 && AllBelow(values, n)
    ensures LetterStream(values, n) == Expand(values, n)
  {
    if values != [] {
      StreamOfLetters(values[..|values| - 1], n);
      var s := Expand(values[..|values| - 1], n);
      InRange(s, ByteStart(|s|), values[|values| - 1], n);
      hide ByteStart, Above, Below, Overlaid, ToBits;
    }
  }

  lemma InRange(s: Bits, k: nat, v: byte, n: nat)
    requires n <= 8 && v < Pow2(n) && k <= |s|
    ensures s[..k] + Overlaid(s[k..], Above(v, n)) + Below(v, n) == s + ToBits(v, n)
  {
    InRangeParts(v, n);
    OverlayNothing(s[k..], 8 - n);
    hide *;
    assert s[..k] + s[k..] == s;
  }

  lemma InRangeParts(v: byte, n: nat)
    requires n <= 8 && v < Pow2(n)
    ensures Above(v, n) == ZeroBits(8 - n) && Below(v, n) == ToBits(v, n)
  {
    AboveBelow(v, 8, n);
    TwoParts(ZeroBits(8 - n), ToBits(v, n));
    hide Pow2, ToBits;
  }

  lemma TwoParts(s: Bits, t: Bits)
    ensures (s + t)[..|s|] == s && (s + t)[|s|..] == t
  {}

  lemma {:induction false} ValuesOfConcatenation(lookup: seq<int>, s: seq<byte>, t: seq<byte>)
    requires |lookup| == 256
    ensures Values(lookup, s + t) == Values(lookup, s) + Values(lookup, t)
  {
    if t == [] {
      assert s + t == s;
    } else {
      var t' := t[..|t| - 1];
      assert (s + t)[..|s + t| - 1] == s + t';
      ValuesOfConcatenation(lookup, s, t');
      var v := lookup[t[|t| - 1]];
      AppendAssociates(Values(lookup, s), Values(lookup, t'), if 0 <= v < 256 then [v] else []);
    }
  }

  ghost predicate NoLetters(lookup: seq<int>, text: seq<byte>)
    requires |lookup| == 256
  {
    forall i :: 0 <= i < |text| ==> !(0 <= lookup[text[i]] < 256)
  }

  lemma {:induction false} NoValues(lookup: seq<int>, text: seq<byte>)
    requires |lookup| == 256 && NoLetters(lookup, text)
    ensures Values(lookup, text) == []
  {
    if text != [] { NoValues(lookup, text[..|text| - 1]); }
  }

  /** The table is a left inverse of the alphabet. */
  ghost predicate Inverts(lookup: seq<int>, alphabet: seq<byte>, base: nat)
    requires |lookup| == 256 && base <= |alphabet|
  {
    forall i :: 0 <= i < base ==> lookup[alphabet[i]] == i
  }

  lemma {:induction false} ValuesOfLetters(lookup: seq<int>, alphabet: seq<byte>, base: nat, digits: seq<byte>)
    requires |lookup| == 256 && base <= |alphabet| && Inverts(lookup, alphabet, base)
    requires forall i :: 0 <= i < |digits| ==> digits[i] < base
    ensures Values(lookup, Letters(alphabet, digits)) == digits
  {
    if digits != [] {
      var d := digits[..|digits| - 1];
      ValuesOfLetters(lookup, alphabet, base, d);
      assert Letters(alphabet, digits)[..|digits| - 1] == Letters(alphabet, d);
      assert digits == d + [digits[|digits| - 1]];
    }
  }

  // ---------- Round trips ----------

  /** Padding has no value. */
  lemma ValuesOfEncoding(c: Code, lookup: seq<int>, message: seq<byte>)
    requires c.Valid() && |lookup| == 256 && Inverts(lookup, c.alphabet, Pow2(c.bits))
    requires c.padding == -1 || NoLetters(lookup, [c.padding])
    ensures Values(lookup, Encoding(c, message)) == Digits(Expand(message, 8), c.bits)
  {
    var digits := Digits(Expand(message, 8), c.bits);
    DigitsInRange(Expand(message, 8), c.bits);
    hide Digits, Expand, Pow2, Values;
    var letters := Letters(c.alphabet, digits);
    ValuesOfLetters(lookup, c.alphabet, Pow2(c.bits), digits);
    var pad := if c.padding == -1 then [] else Repeated<byte>(c.padding, Missing(|digits|, BlockLetters(c.bits)));
    assert c.padding != -1 ==> !(0 <= lookup[[c.padding][0]] < 256);
    NoValues(lookup, pad);
    ValuesOfConcatenation(lookup, letters, pad);
    assert Encoding(c, message) == letters + pad;
    AppendNothing(digits);
  }

  /** Letters with anything between them that is no letter decode to what was encoded. */
  lemma DecodeEncoding(c: Code, lookup: seq<int>, message: seq<byte>, text: seq<byte>)
    requires c.Valid() && |lookup| == 256 && Inverts(lookup, c.alphabet, Pow2(c.bits))
    requires c.padding == -1 || NoLetters(lookup, [c.padding])
    requires Values(lookup, text) == Values(lookup, Encoding(c, message))
    ensures Decoding(lookup, c.bits, text) == message
  {
    DigitsInRange(Expand(message, 8), c.bits);
    hide Encoding, Values, Inverts, NoLetters, Digits, Octets, Expand, Pow2, Letters, Missing, LetterStream;
    ValuesOfEncoding(c, lookup, message);
    StreamOfLetters(Values(lookup, text), c.bits);
    var fill := DigitsSpell(Expand(message, 8), c.bits);
    OctetsUnique(message, ZeroBits(fill));
  }

  /** The digits spell the bits they are made from, with less than a digit of zeros added. */
  lemma {:induction false} DigitsSpell(bits: Bits, n: nat) returns (fill: nat)
    requires 1 <= n <= 8
    ensures fill < n && Expand(Digits(bits, n), n) == bits + ZeroBits(fill)
  {
    hide FromBits, ToBits, Expand;
    if bits == [] {
      fill := 0;
      ExpandNothing(n);
    } else if |bits| < n {
      fill := n - |bits|;
      OneDigit(bits + ZeroBits(fill), [], n);
      ExpandNothing(n);
      AppendNothing(bits + ZeroBits(fill));
      AppendNothing([FromBits(bits + ZeroBits(fill))]);
    } else {
      fill := DigitsSpell(bits[n..], n);
      OneDigit(bits[..n], Digits(bits[n..], n), n);
      assert bits + ZeroBits(fill) == bits[..n] + (bits[n..] + ZeroBits(fill));
    }
  }

  lemma OneDigit(digit: Bits, rest: seq<byte>, n: nat)
    requires |digit| == n <= 8
    ensures FromBits(digit) < 256 && Expand([FromBits(digit)] + rest, n) == digit + Expand(rest, n)
  {
    FitsByte(digit);
    ToFromBits(digit);
    ExpandFirst(FromBits(digit), rest, n);
  }

  // ---------- Moving bits between words and cells ----------

  /** n · k, for the few n there are. */
  function Times(n: nat, k: nat): nat {
    if n == 1 then k else if n == 2 then 2 * k else if n == 3 then 3 * k else if n == 4 then 4 * k
    else if n == 5 then 5 * k else if n == 6 then 6 * k else if n == 7 then 7 * k else 8 * k
  }

  /** The top `target` bits of a word that holds `rest`. */
  lemma TopBits(b: nat, rest: Bits, target: nat)
    requires target <= 8 && CellHolds(b, 8, rest)
    ensures var m := if target <= |rest| then target else |rest|;
            Shift(b, 8 - target) == FromBits(rest[..m] + ZeroBits(target - m))
  {
    var word, m := rest + ZeroBits(8 - |rest|), if target <= |rest| then target else |rest|;
    ShiftRight(word, 8 - target);
    assert word[..target] == rest[..m] + ZeroBits(target - m);
  }

  /** A byte shifted left, in a word of eight bits. */
  function ShiftOut(b: nat, n: nat): nat {
    Low(b * Pow2(n), 8)
  }

  /** Shifting them out of the word. */
  lemma DropTopBits(b: nat, rest: Bits, target: nat)
    requires target <= |rest| && CellHolds(b, 8, rest)
    ensures CellHolds(ShiftOut(b, target), 8, rest[target..]) && ShiftOut(b, target) < 256
  {
    FitsByte(rest[target..] + ZeroBits(8 - |rest[target..]|));
    var word := rest + ZeroBits(8 - |rest|);
    ShiftLeft(word, target);
    MaskBits(word + ZeroBits(target), 8);
    assert (word + ZeroBits(target))[target..] == rest[target..] + ZeroBits(8 - |rest[target..]|);
  }

  ghost function Together(s: Bits, t: Bits, u: Bits): Bits {
    s + t + u
  }

  /** Moving bits to the end of a cell, and a cell to the full ones. */
  lemma Moved(done: Bits, part: Bits, rest: Bits, k: nat)
    requires k <= |rest|
    ensures Together(done, part + rest[..k], rest[k..]) == Together(done, part, rest)
    ensures Together(done + (part + rest[..k]), [], rest[k..]) == Together(done, part, rest)
    ensures rest[..|rest|] == rest && rest[|rest|..] == []
  {
    assert rest[..k] + rest[k..] == rest;
    assert done + (part + rest[..k]) + rest[k..] == done + part + (rest[..k] + rest[k..]);
    AppendNothing(done + (part + rest[..k]));
  }

  lemma TimesStep(n: nat, k: nat)
    requires 1 <= n <= 8
    ensures Times(n, k + 1) == Times(n, k) + n
  {}

  /** A block that is not full has room for another byte, and is filled by whole bytes only. */
  lemma RoomForByte(n: nat, pos: nat, bit: nat)
    requires 1 <= n <= 7 && pos < BlockLetters(n) && bit < n && (Times(n, pos) + bit) % 8 == 0
    ensures Times(n, pos) + bit + 8 <= Times(n, BlockLetters(n)) == BlockBits(n)
  {}

  lemma StaysInBlock(n: nat, pos: nat, bit: nat, left: nat)
    requires 1 <= n <= 7 && left >= 1 && Times(n, pos) + bit + left <= BlockBits(n)
    ensures pos < BlockLetters(n)
  {}

  /** The cell at `pos` |= v, where v holds `x` at the cell's next free bits. */
  method OrInto(cells: array<byte>, pos: nat, v: nat, ghost n: nat, ghost done: Bits, ghost part: Bits, ghost x: Bits)
    requires pos < cells.Length && Packed(cells[..], n, pos, done, part) && |part| + |x| <= n <= 8
    requires v == FromBits(x + ZeroBits(n - |part| - |x|))
    modifies cells
    ensures |part| + |x| < n ==> Packed(cells[..], n, pos, done, part + x)
    ensures |part| + |x| == n ==> Packed(cells[..], n, pos + 1, done + (part + x), [])
  {
    PackedRoom(cells[..], n, pos, done, part);
    hide Packed, CellHolds, FromBits, BitOr;
    Filled(cells[pos], n, part, x);
    ghost var was := cells[..];
    cells[pos] := BitOr(cells[pos], v);
    assert cells[..] == was[pos := CellWith(was[pos], n, part, x)];
    PackMore(was, cells[..], n, pos, done, part, x);
  }

  /** What has been put out in whole blocks, and what is held, is the message. */
  ghost predicate Accounts(c: Code, message: seq<byte>, sent: seq<byte>, written: seq<byte>, done: Bits, part: Bits) {
    && c.Valid() && AllBelow(sent, c.bits) && Missing(|sent|, BlockLetters(c.bits)) == 0
    && HasLetters(c.alphabet, sent) && written == Letters(c.alphabet, sent)
    && Expand(sent, c.bits) + (done + part) == Expand(message, 8)
  }

  lemma BelowHasLetters(c: Code, digits: seq<byte>)
    requires c.Valid() && AllBelow(digits, c.bits)
    ensures HasLetters(c.alphabet, digits)
  {}

  /** A byte more of the message is eight bits more held. */
  lemma AccountsByte(
    c: Code, message: seq<byte>, sent: seq<byte>, written: seq<byte>, done: Bits, part: Bits, b: byte, done': Bits,
    part': Bits)
    requires Accounts(c, message, sent, written, done, part)
    requires Together(done', part', []) == Together(done, part, ToBits(b, 8))
    ensures Accounts(c, message + [b], sent, written, done', part')
  {
    hide Expand, ToBits, Letters, Missing;
    ExpandPush(message, b, 8);
    AppendNothing(done' + part');
    AppendAssociates(Expand(sent, c.bits), done + part, ToBits(b, 8));
  }

  /** A full buffer is a block more put out. */
  lemma AccountsBlock(
    c: Code, message: seq<byte>, sent: seq<byte>, written: seq<byte>, done: Bits, part: Bits, digits: seq<byte>)
    requires Accounts(c, message, sent, written, done, part)
    requires Packed(digits, c.bits, |digits|, done, part) && |digits| == BlockLetters(c.bits)
    ensures HasLetters(c.alphabet, digits)
    ensures Accounts(c, message, sent + digits, written + Letters(c.alphabet, digits), [], [])
  {
    hide Expand;
    var n := c.bits;
    assert digits[..|digits|] == digits;
    MissingAfterBlocks(|sent|, |digits|, BlockLetters(n));
    assert AllBelow(sent + digits, n);
    BelowHasLetters(c, digits);
    BelowHasLetters(c, sent + digits);
    assert Letters(c.alphabet, sent + digits) == written + Letters(c.alphabet, digits);
    ExpandConcatenation(sent, digits, n);
    AppendNothing(done);
    AppendNothing(Expand(sent + digits, n));
  }

  /** In the middle of a byte: the buffer holds `done` and `part`, the word `b` the `left` bits of `rest`. */
  ghost predicate InByte(
    cells: seq<byte>, n: nat, pos: nat, bit: nat, b: nat, left: nat, done: Bits, part: Bits, rest: Bits)
  {
    Packed(cells, n, pos, done, part) && bit == |part| < n <= 7 && left == |rest| && CellHolds(b, 8, rest)
  }

  lemma InByteRoom(
    cells: seq<byte>, n: nat, pos: nat, bit: nat, b: nat, left: nat, done: Bits, part: Bits, rest: Bits)
    requires InByte(cells, n, pos, bit, b, left, done, part, rest)
    ensures bit < n <= 7 && pos <= |cells|
  {}

  lemma InByteEnds(
    cells: seq<byte>, n: nat, pos: nat, bit: nat, b: nat, done: Bits, part: Bits, rest: Bits)
    requires InByte(cells, n, pos, bit, b, 0, done, part, rest)
    ensures Packed(cells, n, pos, done, part) && bit == |part| && rest == [] && pos <= |cells|
  {}

  /** The bits that the cell has room for, or all that are left. */
  ghost function Takes(n: nat, bit: nat, rest: Bits): (m: nat)
    requires bit <= n
    ensures m <= |rest| && m <= n - bit
  {
    if n - bit <= |rest| then n - bit else |rest|
  }

  /** Puts the top bits of `b` into the cell at `pos`: as many as it takes. */
  method PackTop(
    cells: array<byte>, n: nat, pos: nat, bit: nat, b: nat, left: nat, ghost done: Bits, ghost part: Bits,
    ghost rest: Bits)
    returns (ghost done': Bits, ghost part': Bits, ghost rest': Bits)
    requires pos < cells.Length && bit < n <= 7 && InByte(cells[..], n, pos, bit, b, left, done, part, rest)
    modifies cells
    ensures Together(done', part', rest') == Together(done, part, rest)
    ensures left >= n - bit ==>
      InByte(cells[..], n, pos + 1, 0, ShiftOut(b, n - bit), left - (n - bit), done', part', rest')
    ensures left < n - bit ==> InByte(cells[..], n, pos, bit + left, 0, 0, done', part', rest')
  {
    ghost var m := Takes(n, bit, rest);
    ghost var x := rest[..m];
    TopBits(b, rest, n - bit);
    DropTopBits(b, rest, m);
    Moved(done, part, rest, m);
    EmptyCell(8);
    assert m == if left >= n - bit then n - bit else left;
    hide Packed, CellHolds, Together, ShiftOut, FromBits, Shift, Takes;
    OrInto(cells, pos, Shift(b, 8 - (n - bit)), n, done, part, x);
    done', part' := if bit + m == n then done + (part + x) else done, if bit + m == n then [] else part + x;
    rest' := rest[m..];
  }

  method PackPiece(
    cells: array<byte>, n: nat, pos: nat, bit: nat, b: nat, left: nat, ghost done: Bits, ghost part: Bits,
    ghost rest: Bits)
    returns (pos': nat, bit': nat, b': nat, left': nat, ghost done': Bits, ghost part': Bits, ghost rest': Bits)
    requires pos < cells.Length && left >= 1 && InByte(cells[..], n, pos, bit, b, left, done, part, rest)
    modifies cells
    ensures pos' <= cells.Length && left' < left && InByte(cells[..], n, pos', bit', b', left', done', part', rest')
    ensures Together(done', part', rest') == Together(done, part, rest)
    ensures Times(n, pos') + bit' + left' == Times(n, pos) + bit + left
  {
    hide *;
    InByteRoom(cells[..], n, pos, bit, b, left, done, part, rest);
    var target: nat := n - bit;
    done', part', rest' := PackTop(cells, n, pos, bit, b, left, done, part, rest);
    if left >= target {
      TimesStep(n, pos);
      pos', bit', b', left' := pos + 1, 0, ShiftOut(b, target), left - target;
    } else {
      pos', bit', b', left' := pos, bit + left, 0, 0;
    }
  }

  /** The digits in the buffer when the message ends; the last one may be filled up with zeros. */
  lemma LastDigits(
    c: Code, message: seq<byte>, sent: seq<byte>, written: seq<byte>, done: Bits, part: Bits, cells: seq<byte>,
      pos: nat)
    returns (digits: seq<byte>)
    requires Accounts(c, message, sent, written, done, part) && pos < |cells|
    requires if pos == 0 then done == [] && part == [] else Packed(cells, c.bits, pos, done, part)
    ensures digits == cells[..pos + if part == [] then 0 else 1] && HasLetters(c.alphabet, digits)
    ensures |cells| == BlockLetters(c.bits) ==> written + Ending(c, digits) == Encoding(c, message)
  {
    hide Expand, Digits, ToBits, Letters, FromBits, Missing;
    var n := c.bits;
    digits := cells[..pos];
    var fill: nat := 0;
    if part != [] {
      fill := n - |part|;
      var last := part + ZeroBits(fill);
      assert last + ZeroBits(0) == last;
      SpellsMore(cells, n, pos, done, last);
      digits := cells[..pos + 1];
      assert Expand(digits, n) == done + part + ZeroBits(fill);
    } else {
      ExpandNothing(n);
      assert Expand(digits, n) == done + part + ZeroBits(fill);
    }
    ExpandConcatenation(sent, digits, n);
    assert Expand(sent, n) + (done + part + ZeroBits(fill)) == (Expand(sent, n) + (done + part)) + ZeroBits(fill);
    DigitsUnique(sent + digits, Expand(message, 8), n, fill);
    BelowHasLetters(c, digits);
    if |cells| == BlockLetters(n) { EncodingEnds(c, message, sent, written, digits); }
  }

  /** What is put out when the message ends. */
  ghost function Ending(c: Code, digits: seq<byte>): seq<byte>
    requires c.Valid() && HasLetters(c.alphabet, digits) && |digits| <= BlockLetters(c.bits)
  {
    Letters(c.alphabet, digits)
      + if c.padding == -1 || digits == [] then [] else Repeated<byte>(c.padding, BlockLetters(c.bits) - |digits|)
  }

  /** It completes the encoding. */
  lemma EncodingEnds(c: Code, message: seq<byte>, sent: seq<byte>, written: seq<byte>, digits: seq<byte>)
    requires c.Valid() && AllBelow(sent, c.bits) && AllBelow(digits, c.bits)
    requires Missing(|sent|, BlockLetters(c.bits)) == 0 && |digits| <= BlockLetters(c.bits)
    requires HasLetters(c.alphabet, sent) && written == Letters(c.alphabet, sent)
    requires Digits(Expand(message, 8), c.bits) == sent + digits
    ensures HasLetters(c.alphabet, digits) && written + Ending(c, digits) == Encoding(c, message)
  {
    hide Expand, Digits;
    BelowHasLetters(c, digits);
    BelowHasLetters(c, sent + digits);
    MissingAfterBlocks(|sent|, |digits|, BlockLetters(c.bits));
    assert Letters(c.alphabet, sent + digits) == written + Letters(c.alphabet, digits);
    var pad := if c.padding == -1 then [] else Repeated<byte>(c.padding, Missing(|digits|, BlockLetters(c.bits)));
    AppendAssociates(written, Letters(c.alphabet, digits), pad);
  }

  lemma NothingYet(c: Code)
    requires c.Valid()
    ensures Accounts(c, [], [], [], [], []) && Times(c.bits, 0) == 0
  {}

  lemma StartsByte(c: Code, pos: nat, bit: nat, cells: seq<byte>, done: Bits, part: Bits)
    requires c.Valid() && pos < BlockLetters(c.bits) == |cells| && bit == |part|
    requires Packed(cells, c.bits, pos, done, part) && (Times(c.bits, pos) + bit) % 8 == 0
    ensures Times(c.bits, pos) + bit + 8 <= BlockBits(c.bits)
  {
    RoomForByte(c.bits, pos, bit);
  }

  /** After a byte something is in the buffer, and if all of it, nothing else is. */
  lemma EndsByte(c: Code, pos: nat, bit: nat, cells: seq<byte>, done: Bits, part: Bits)
    requires c.Valid() && pos <= BlockLetters(c.bits) == |cells| && bit == |part|
    requires Packed(cells, c.bits, pos, done, part) && Times(c.bits, pos) + bit >= 8
    ensures pos > 0 && (pos == |cells| ==> bit == 0)
  {}

  class Encoder {
    const code: Code
    const block: nat
    const outBuf: array<byte>
    var bytePos: nat
    var bitPos: nat
    /** The message so far, the digits put out for it, and the text they were put out as. */
    ghost var message: seq<byte>
    ghost var sent: seq<byte>
    ghost var written: seq<byte>
    /** The bits of the full cells of the buffer, and of the next one. */
    ghost var done: Bits
    ghost var part: Bits

    ghost predicate Shape()
      reads this
    {
      && code.Valid() && block == BlockLetters(code.bits) && outBuf.Length == block
      && bitPos == |part| && bytePos <= block
    }

    ghost predicate Accounted()
      reads this
    {
      Accounts(code, message, sent, written, done, part)
    }

    /** Between two bytes. */
    ghost predicate Valid()
      reads this, outBuf
    {
      && Shape() && Accounted() && bytePos < block
      && (Times(code.bits, bytePos) + bitPos) % 8 == 0
      && (if bytePos == 0 then done == [] && part == []
          else Packed(outBuf[..], code.bits, bytePos, done, part))
    }

    /** Takes a byte apart into the buffer's cells. */
    method PackByte(value: byte)
      requires Shape() && bytePos < block && Packed(outBuf[..], code.bits, bytePos, done, part)
      requires Times(code.bits, bytePos) + bitPos + 8 <= BlockBits(code.bits)
      modifies this`bytePos, this`bitPos, this`done, this`part, outBuf
      ensures Shape() && Packed(outBuf[..], code.bits, bytePos, done, part)
      ensures Together(done, part, []) == Together(old(done), old(part), ToBits(value, 8))
      ensures Times(code.bits, bytePos) + bitPos == Times(code.bits, old(bytePos)) + old(bitPos) + 8
    {
      var b: nat, left: nat := value, 8;
      ghost var rest := ToBits(value, 8);
      WholeByte(value);
      PackedRoom(outBuf[..], code.bits, bytePos, done, part);
      assert InByte(outBuf[..], code.bits, bytePos, bitPos, b, left, done, part, rest);
      hide InByte, Packed, CellHolds, Times, BlockBits, BlockLetters, ToBits, Code.Valid, Together;
      while true
        invariant InByte(outBuf[..], code.bits, bytePos, bitPos, b, left, done, part, rest)
        invariant bytePos < block && left >= 1
        invariant Together(done, part, rest) == Together(old(done), old(part), ToBits(value, 8))
        invariant Times(code.bits, bytePos) + bitPos + left == Times(code.bits, old(bytePos)) + old(bitPos) + 8
        decreases left
      {
        bytePos, bitPos, b, left, done, part, rest :=
          PackPiece(outBuf, code.bits, bytePos, bitPos, b, left, done, part, rest);
        if left == 0 {
          break;
        }
        InByteRoom(outBuf[..], code.bits, bytePos, bitPos, b, left, done, part, rest);
        StaysInBlock(code.bits, bytePos, bitPos, left);
      }
      InByteEnds(outBuf[..], code.bits, bytePos, bitPos, b, done, part, rest);
    }

    constructor (code: Code)
      requires code.Valid()
      ensures Valid() && fresh(outBuf) && this.code == code && message == [] && written == []
    {
      var i: nat := 8;
      while i % code.bits != 0
        invariant 8 <= i <= BlockBits(code.bits) && i % 8 == 0
        decreases BlockBits(code.bits) - i
      {
        BlockReached(code.bits, i);
        i := i + 8;
      }
      BlockReached(code.bits, i);
      this.code := code;
      block := i / code.bits;
      outBuf := new byte[i / code.bits](_ => 0);
      bytePos, bitPos := 0, 0;
      message, sent, written, done, part := [], [], [], [], [];
    }

    /** Letters of more or less than 1 to 7 bits are refused. */
    static method Create(code: Code) returns (e: Encoder?)
      requires code.WellFormed()
      ensures e == null <==> code.bits < 1 || code.bits >= 8
      ensures e != null ==>
        fresh(e) && fresh(e.outBuf) && e.Valid() && e.code == code && e.message == [] && e.written == []
    {
      if code.bits < 1 || code.bits >= 8 {
        return null;
      }
      e := new Encoder(code);
    }

    /** Replaces the buffer's digits by their letters. */
    method ToLetters(ghost digits: seq<byte>)
      requires bytePos <= outBuf.Length && digits == outBuf[..bytePos]
      requires HasLetters(code.alphabet, digits)
      modifies outBuf
      ensures outBuf[..bytePos] == Letters(code.alphabet, digits)
    {
      for i := 0 to bytePos
        invariant forall k :: 0 <= k < i ==> outBuf[k] == code.alphabet[digits[k]]
        invariant forall k :: i <= k < bytePos ==> outBuf[k] == digits[k]
      {
        outBuf[i] := code.alphabet[outBuf[i]];
      }
    }

    /** The first byte of a block finds the buffer cleared. */
    method StartByte()
      requires Valid()
      modifies outBuf
      ensures Packed(outBuf[..], code.bits, bytePos, done, part)
      ensures Times(code.bits, bytePos) + bitPos + 8 <= BlockBits(code.bits)
    {
      assert 1 <= code.bits;
      hide Accounts, Packed, Times, BlockLetters, BlockBits, Code.Valid;
      if bytePos == 0 {
        forall k | 0 <= k < outBuf.Length {
          outBuf[k] := 0;
        }
        PackNothing(outBuf[..], code.bits);
      }
      StartsByte(code, bytePos, bitPos, outBuf[..], done, part);
    }

    /** One byte of the message; a buffer that it fills goes out. */
    method PutByte(value: byte) returns (out: seq<byte>)
      requires Valid()
      modifies this, outBuf
      ensures Valid() && message == old(message) + [value] && written == old(written) + out
    {
      hide Accounts, Letters, Packed, Code.Valid, Times, BlockLetters, BlockBits, Together;
      StartByte();
      PackByte(value);
      AccountsByte(code, message, sent, written, old(done), old(part), value, done, part);
      message := message + [value];
      EndsByte(code, bytePos, bitPos, outBuf[..], done, part);
      out := [];
      if bytePos == block {
        out := Flush();
      } else {
        AppendNothing(written);
      }
    }

    /** The end of the message: what is left goes out, padded if the code has padding. */
    method Finish() returns (out: seq<byte>)
      requires Valid()
      modifies this, outBuf
      ensures Valid() && message == [] && written == []
      ensures old(written) + out == Encoding(code, old(message))
    {
      hide Accounts, Packed, Encoding, Ending, Letters, HasLetters, Expand, Digits, Times, BlockLetters, BlockBits,
           Code.Valid, Code.WellFormed, Missing, Pow2;
      ghost var digits := LastDigits(code, message, sent, written, done, part, outBuf[..], bytePos);
      NothingYet(code);
      if bitPos > 0 {
        bytePos := bytePos + 1;
      }
      out := LettersAndPadding(digits);
      bytePos, bitPos := 0, 0;
      message, sent, written, done, part := [], [], [], [], [];
    }

    method LettersAndPadding(ghost digits: seq<byte>) returns (out: seq<byte>)
      requires code.Valid() && bytePos <= block == outBuf.Length == BlockLetters(code.bits)
      requires digits == outBuf[..bytePos] && HasLetters(code.alphabet, digits)
      modifies this`bytePos, outBuf
      ensures out == Ending(code, digits)
    {
      hide Letters;
      ToLetters(digits);
      if code.padding != -1 && bytePos > 0 {
        ghost var letters := outBuf[..bytePos];
        forall k | bytePos <= k < block {
          outBuf[k] := code.padding;
        }
        assert outBuf[..bytePos] == letters;
        bytePos := block;
      }
      out := outBuf[..bytePos];
    }

    /** Any part of a message, and its end. */
    method Put(input: seq<byte>, messageEnd: bool) returns (out: seq<byte>)
      requires Valid()
      modifies this, outBuf
      ensures Valid()
      ensures !messageEnd ==> message == old(message) + input && written == old(written) + out
      ensures messageEnd ==> message == [] && written == []
      ensures messageEnd ==> old(written) + out == Encoding(code, old(message) + input)
    {
      hide Accounts, Letters, Packed, Encoding, Times, BlockLetters;
      out := [];
      AppendNothing(written);
      AppendNothing(message);
      for i := 0 to |input|
        invariant Valid() && message == old(message) + input[..i] && written == old(written) + out
      {
        ghost var before := out;
        var piece := PutByte(input[i]);
        out := out + piece;
        AppendAssociates(old(written), before, piece);
        AppendOne(old(message), input, i);
      }
      assert input[..|input|] == input;
      if messageEnd {
        ghost var before := out;
        var piece := Finish();
        out := out + piece;
        AppendAssociates(old(written), before, piece);
      }
    }

    /** A full buffer goes out. */
    method Flush() returns (out: seq<byte>)
      requires Shape() && Accounted() && bytePos == block && bitPos == 0
      requires Packed(outBuf[..], code.bits, bytePos, done, part)
      modifies this`bytePos, this`bitPos, this`sent, this`written, this`done, this`part, outBuf
      ensures Valid() && written == old(written) + out
    {
      ghost var digits := outBuf[..];
      AccountsBlock(code, message, sent, written, done, part, digits);
      hide Accounts, Letters, Packed, Code.Valid;
      ToLetters(digits);
      out := outBuf[..];
      assert out == outBuf[..bytePos];
      sent, written := sent + digits, written + out;
      bytePos, bitPos := 0, 0;
      done, part := [], [];
    }
  }

  // ---------- Decoding ----------

  /** A block, in bytes. */
  function BlockBytes(n: nat): nat {
    if n == 3 || n == 6 then 3 else if n == 5 then 5 else if n == 7 then 7 else 1
  }

  /** `k` bits are a whole number of letters. */
  ghost predicate WholeLetters(n: nat, k: nat) {
    exists l: nat :: k == Times(n, l)
  }

  /** A letter always fits, reaching at most into the next byte, and the last one ends with its block. */
  lemma LetterFits(n: nat, k: nat)
    requires 1 <= n <= 7 && k < 8 * BlockBytes(n) && WholeLetters(n, k)
    ensures WholeLetters(n, k + n) && k + n <= 8 * BlockBytes(n)
  {
    var l: nat :| k == Times(n, l);
    TimesStep(n, l);
    if n == 3 { assert l <= 7; } else if n == 6 { assert l <= 3; } else if n == 5 || n == 7 { assert l <= 7; }
  }

  ghost predicate LookupFor(lookup: seq<int>, n: nat) {
    1 <= n <= 7 && |lookup| == 256
  }

  /** The letters so far are the bytes put out and the bits held. */
  ghost predicate Decoded(lookup: seq<int>, n: nat, text: seq<byte>, sent: seq<byte>, done: Bits, part: Bits) {
    LookupFor(lookup, n) && Expand(sent, 8) + (done + part) == LetterStream(Values(lookup, text), n)
  }

  lemma DecodedSkip(lookup: seq<int>, n: nat, text: seq<byte>, sent: seq<byte>, done: Bits, part: Bits, c: byte)
    requires Decoded(lookup, n, text, sent, done, part) && !(0 <= lookup[c] < 256)
    ensures Decoded(lookup, n, text + [c], sent, done, part)
  {
    hide Values, Expand, LetterStream;
    ValuesPush(lookup, text, c);
    AppendNothing(Values(lookup, text));
  }

  lemma DecodedLetter(
    lookup: seq<int>, n: nat, text: seq<byte>, sent: seq<byte>, done: Bits, part: Bits, c: byte, done': Bits,
    part': Bits)
    requires Decoded(lookup, n, text, sent, done, part) && 0 <= lookup[c] < 256
    requires |done| % 8 == 0 && |part| < 8
    requires Together(done', part', [])
          == Together(done, Overlaid(part, Above(lookup[c], n)), Below(lookup[c], n))
    ensures Decoded(lookup, n, text + [c], sent, done', part')
  {
    hide Values, Expand, LetterStream, Overlaid, Above, Below, Together;
    ValuesPush(lookup, text, c);
    BitsOfBytes(sent);
    StreamMore(Values(lookup, text), lookup[c], n, Expand(sent, 8), done, part, done', part');
  }

  lemma ValuesPush(lookup: seq<int>, text: seq<byte>, c: byte)
    requires |lookup| == 256
    ensures Values(lookup, text + [c]) == Values(lookup, text) + if 0 <= lookup[c] < 256 then [lookup[c]] else []
  {
    assert (text + [c])[..|text|] == text;
  }

  lemma StreamMore(
    values: seq<byte>, v: byte, n: nat, head: Bits, done: Bits, part: Bits, done': Bits, part': Bits)
    requires n <= 8 && |head| % 8 == 0 && |done| % 8 == 0 && |part| < 8
    requires head + (done + part) == LetterStream(values, n)
    requires Together(done', part', []) == Together(done, Overlaid(part, Above(v, n)), Below(v, n))
    ensures head + (done' + part') == LetterStream(values + [v], n)
  {
    hide *;
    AppendAssociates(head, done, part);
    StreamPush(values, v, n, head + done, part);
    TogetherBehind(head, done, Overlaid(part, Above(v, n)), Below(v, n));
    TogetherBehind(head, done', part', []);
    AppendNothing(head + done' + part');
    AppendAssociates(head, done', part');
  }

  lemma TogetherBehind(q: Bits, s: Bits, t: Bits, u: Bits)
    ensures q + Together(s, t, u) == (q + s) + t + u
  {
    assert q + (s + t + u) == (q + s) + t + u;
  }

  /** One letter more. */
  lemma StreamPush(values: seq<byte>, v: byte, n: nat, head: Bits, part: Bits)
    requires n <= 8 && LetterStream(values, n) == head + part && |head| % 8 == 0 && |part| < 8
    ensures LetterStream(values + [v], n) == head + Overlaid(part, Above(v, n)) + Below(v, n)
  {
    assert (values + [v])[..|values|] == values;
    ByteBoundary(head, part);
    hide Overlaid, Above, Below, ByteStart;
  }

  lemma {:induction false} BitsOfBytes(bytes: seq<byte>)
    ensures |Expand(bytes, 8)| == 8 * |bytes|
  {
    if bytes != [] { BitsOfBytes(bytes[..|bytes| - 1]); }
  }

  /** Where the byte begins that is not complete. */
  lemma ByteBoundary(head: Bits, part: Bits)
    requires |head| % 8 == 0 && |part| < 8
    ensures var s := head + part;
            s[..ByteStart(|s|)] == head && s[ByteStart(|s|)..] == part
  {}

  lemma DecodedBlock(
    lookup: seq<int>, n: nat, text: seq<byte>, sent: seq<byte>, done: Bits, part: Bits, bytes: seq<byte>)
    requires Decoded(lookup, n, text, sent, done, part) && Packed(bytes, 8, |bytes|, done, part)
    ensures Decoded(lookup, n, text, sent + bytes, [], [])
  {
    hide Expand, Values;
    assert bytes[..|bytes|] == bytes;
    ExpandConcatenation(sent, bytes, 8);
    AppendNothing(done);
    AppendNothing(Expand(sent + bytes, 8));
  }

  /** Bits that do not make a byte are dropped at the end. */
  lemma DecodedEnd(
    lookup: seq<int>, n: nat, text: seq<byte>, sent: seq<byte>, done: Bits, part: Bits, cells: seq<byte>, pos: nat)
    requires Decoded(lookup, n, text, sent, done, part) && pos <= |cells|
    requires if pos == 0 && part == [] then done == [] else Packed(cells, 8, pos, done, part)
    ensures sent + cells[..pos] == Decoding(lookup, n, text)
  {
    hide Expand, Values;
    ExpandConcatenation(sent, cells[..pos], 8);
    ExpandNothing(8);
    assert Expand(cells[..pos], 8) == done;
    AppendAssociates(Expand(sent, 8), done, part);
    OctetsUnique(sent + cells[..pos], part);
  }

  /** What a value contributes to this byte and to the next one. */
  lemma LetterBits(value: byte, n: nat, bit: nat)
    requires 1 <= n <= 7 && bit < 8
    ensures var (high, low) := (Fitted(Above(value, n), bit), Below(value, n));
            if bit + n <= 8 then Low(value * Pow2(8 - bit - n), 8) == FromBits(high + low + ZeroBits(8 - bit - n))
            else (Shift(value, bit + n - 8) == FromBits(high + low[..8 - bit])
              && Low(value * Pow2(16 - bit - n), 8) == FromBits(low[8 - bit..] + ZeroBits(16 - bit - n)))
  {
    Pow2Values();
    FromToBits(value, 8);
    if bit + n <= 8 {
      FittingShift(ToBits(value, 8), n, bit);
    } else {
      SpillingShifts(ToBits(value, 8), n, bit);
    }
    hide Fitted, ToBits, FromBits, Low, Shift, Pow2;
  }

  lemma FittingShift(x: Bits, n: nat, bit: nat)
    requires |x| == 8 && bit + n <= 8
    ensures var k := 8 - bit - n;
            Low(FromBits(x) * Pow2(k), 8) == FromBits(Fitted(x[..8 - n], bit) + x[8 - n..] + ZeroBits(k))
  {
    FittingBits(x, n, bit);
    hide *;
    ShiftLeft(x, 8 - bit - n);
    MaskBits(x + ZeroBits(8 - bit - n), 8);
  }

  lemma SpillingShifts(x: Bits, n: nat, bit: nat)
    requires |x| == 8 && n < 8 && bit < 8 < bit + n
    ensures Shift(FromBits(x), bit + n - 8) == FromBits(Fitted(x[..8 - n], bit) + x[8 - n..][..8 - bit])
    ensures Low(FromBits(x) * Pow2(16 - bit - n), 8) == FromBits(x[8 - n..][8 - bit..] + ZeroBits(16 - bit - n))
  {
    var k := bit + n - 8;
    SpilledBits(x, n, bit);
    hide *;
    ShiftRight(x, k);
    FromLeadingZeros(k, x[..8 - k]);
    ShiftLeft(x, 8 - k);
    MaskBits(x + ZeroBits(8 - k), 8);
  }

  lemma FittingBits(x: Bits, n: nat, bit: nat)
    requires |x| == 8 && bit + n <= 8
    ensures var k := 8 - bit - n;
            (x + ZeroBits(k))[k..] == Fitted(x[..8 - n], bit) + x[8 - n..] + ZeroBits(k)
  {}

  lemma SpilledBits(x: Bits, n: nat, bit: nat)
    requires |x| == 8 && n < 8 && bit < 8 < bit + n
    ensures var k := bit + n - 8;
            && ZeroBits(k) + x[..8 - k] == Fitted(x[..8 - n], bit) + x[8 - n..][..8 - bit]
            && (x + ZeroBits(8 - k))[8 - k..] == x[8 - n..][8 - bit..] + ZeroBits(8 - k)
  {
    var k := bit + n - 8;
    var high := Fitted(x[..8 - n], bit);
    assert high == ZeroBits(k) + x[..8 - n];
    assert x[..8 - k] == x[..8 - n] + x[8 - n..8 - k] && x[8 - n..][..8 - bit] == x[8 - n..8 - k];
  }

  /** Or-ing a value over what a cell holds, and beyond it. */
  lemma OrOverlays(cell: nat, part: Bits, over: Bits, x: Bits)
    requires CellHolds(cell, 8, part) && |part| + |x| <= 8
    ensures var held := Overlaid(part, over);
            BitOr(cell, FromBits(Fitted(over, |part|) + x + ZeroBits(8 - |part| - |x|)))
              == CellWith(FromBits(held + ZeroBits(8 - |part|)), 8, held, x)
  {
    var held, f, z := Overlaid(part, over), Fitted(over, |part|), ZeroBits(8 - |part| - |x|);
    var rest := x + z;
    EmptyEnd(cell, part);
    EmptyEnd(FromBits(held + ZeroBits(8 - |part|)), held);
    FilledIs(FromBits(held + ZeroBits(8 - |part|)), held, x);
    OrSplits(part, f, rest);
    assert OrBits(part, f) == held;
    hide *;
    OrOfBits(part + ZeroBits(8 - |part|), f + rest);
    AppendAssociates(f, x, z);
    AppendAssociates(held, x, z);
  }

  lemma EmptyEnd(cell: nat, part: Bits)
    requires |part| <= 8
    ensures CellHolds(cell, 8, part) <==> cell == FromBits(part + ZeroBits(8 - |part|))
  {}

  lemma FilledIs(cell: nat, part: Bits, x: Bits)
    requires CellHolds(cell, 8, part) && |part| + |x| <= 8
    ensures CellWith(cell, 8, part, x) == FromBits((part + x) + ZeroBits(8 - |part| - |x|))
  {
    Filled(cell, 8, part, x);
    EmptyEnd(CellWith(cell, 8, part, x), part + x);
  }

  lemma OrSplits(a: Bits, b: Bits, rest: Bits)
    requires |a| == |b|
    ensures OrBits(a + ZeroBits(|rest|), b + rest) == OrBits(a, b) + rest
  {}

  lemma PackedOver(cells: seq<byte>, pos: nat, done: Bits, part: Bits, held: Bits)
    requires Packed(cells, 8, pos, done, part) && pos < |cells| && |held| == |part|
    ensures FromBits(held + ZeroBits(8 - |held|)) < 256
    ensures Packed(cells[pos := FromBits(held + ZeroBits(8 - |held|))], 8, pos, done, held)
  {
    FitsByte(held + ZeroBits(8 - |held|));
    hide FromBits, Spells;
    assert cells[pos := FromBits(held + ZeroBits(8 - |held|))][..pos] == cells[..pos];
  }

  /** The cell at `pos` |= v, where v has `over` where the cell is taken, and `x` behind. */
  method OrOver(
    cells: array<byte>, pos: nat, v: nat, ghost done: Bits, ghost part: Bits, ghost over: Bits, ghost x: Bits)
    requires pos < cells.Length && Packed(cells[..], 8, pos, done, part) && |part| + |x| <= 8
    requires v == FromBits(Fitted(over, |part|) + x + ZeroBits(8 - |part| - |x|))
    modifies cells
    ensures var held := Overlaid(part, over);
            && (|part| + |x| < 8 ==> Packed(cells[..], 8, pos, done, held + x))
            && (|part| + |x| == 8 ==> Packed(cells[..], 8, pos + 1, done + (held + x), []))
  {
    OverPacked(cells[..], pos, v, done, part, over, x);
    hide *;
    ghost var was := cells[..];
    cells[pos] := BitOr(cells[pos], v);
    assert cells[..] == was[pos := BitOr(was[pos], v)];
  }

  lemma OverPacked(cells: seq<byte>, pos: nat, v: nat, done: Bits, part: Bits, over: Bits, x: Bits)
    requires pos < |cells| && Packed(cells, 8, pos, done, part) && |part| + |x| <= 8
    requires v == FromBits(Fitted(over, |part|) + x + ZeroBits(8 - |part| - |x|))
    ensures BitOr(cells[pos], v) < 256
    ensures var (held, cells') := (Overlaid(part, over), cells[pos := BitOr(cells[pos], v)]);
            && (|part| + |x| < 8 ==> Packed(cells', 8, pos, done, held + x))
            && (|part| + |x| == 8 ==> Packed(cells', 8, pos + 1, done + (held + x), []))
  {
    hide *;
    var held := Overlaid(part, over);
    PackedRoom(cells, 8, pos, done, part);
    OrOverlays(cells[pos], part, over, x);
    PackedOver(cells, pos, done, part, held);
    var f := FromBits(held + ZeroBits(8 - |held|));
    var between := cells[pos := f];
    PackedRoom(between, 8, pos, done, held);
    Filled(f, 8, held, x);
    assert cells[pos := CellWith(f, 8, held, x)] == between[pos := CellWith(f, 8, held, x)];
    PackMore(between, cells[pos := CellWith(f, 8, held, x)], 8, pos, done, held, x);
  }

  /** Writes a letter's bits into one cell, or over its end into the next. */
  method WriteLetter(cells: array<byte>, n: nat, pos: nat, bit: nat, value: byte, ghost done: Bits, ghost part: Bits)
    returns (ghost done': Bits, ghost part': Bits)
    requires 1 <= n <= 7 && pos < cells.Length && 8 * pos + bit + n <= 8 * cells.Length
    requires bit == |part| < 8 && Packed(cells[..], 8, pos, done, part)
    modifies cells
    ensures Packed(cells[..], 8, if bit + n < 8 then pos else pos + 1, done', part')
    ensures |part'| == if bit + n < 8 then bit + n else bit + n - 8
    ensures Together(done', part', []) == Together(done, Overlaid(part, Above(value, n)), Below(value, n))
  {
    hide *;
    var newBitPos := bit + n;
    ghost var x, over := Below(value, n), Above(value, n);
    ghost var held := Overlaid(part, over);
    LetterBits(value, n, bit);
    if newBitPos <= 8 {
      Moved(done, held, x, |x|);
      OrOver(cells, pos, Low(value * Pow2(8 - newBitPos), 8), done, part, over, x);
      done', part' := if newBitPos < 8 then done else done + (held + x), if newBitPos < 8 then held + x else [];
    } else {
      ghost var x0, x1 := x[..8 - bit], x[8 - bit..];
      AppendNothing(Fitted(over, bit) + x0);
      NoZeroBits();
      OrOver(cells, pos, Shift(value, newBitPos - 8), done, part, over, x0);
      OrInto(cells, pos + 1, Low(value * Pow2(16 - newBitPos), 8), 8, done + (held + x0), [], x1);
      done', part' := done + (held + x0), [] + x1;
      MovedTwice(done, held, x, 8 - bit);
    }
  }

  lemma NoZeroBits()
    ensures ZeroBits(0) == []
  {}

  lemma MovedTwice(done: Bits, part: Bits, x: Bits, k: nat)
    requires k <= |x|
    ensures Together(done + (part + x[..k]), [] + x[k..], []) == Together(done, part, x)
  {
    Moved(done, part, x, k);
    assert done + (part + x[..k]) + ([] + x[k..]) + [] == done + (part + x[..k]) + [] + x[k..];
  }

  lemma DoneBytes(cells: seq<byte>, pos: nat, done: Bits, part: Bits)
    requires Packed(cells, 8, pos, done, part)
    ensures |done| == 8 * pos
  {
    BitsOfBytes(cells[..pos]);
  }

  /** Counts full bytes out of the bit position. */
  method Carry(pos: nat, bit: nat) returns (pos': nat, bit': nat)
    ensures 8 * pos' + bit' == 8 * pos + bit && bit' < 8
  {
    pos', bit' := pos, bit;
    while bit' >= 8
      invariant 8 * pos' + bit' == 8 * pos + bit
    {
      bit' := bit' - 8;
      pos' := pos' + 1;
    }
  }

  lemma FirstLetter(lookup: seq<int>, n: nat)
    requires LookupFor(lookup, n)
    ensures Decoded(lookup, n, [], [], [], []) && WholeLetters(n, 0)
    ensures 1 <= n <= 7 && n <= 8 * BlockBytes(n) && WholeLetters(n, n)
  {
    assert Times(n, 0) == 0 && Times(n, 1) == n;
  }

  /** Not before the end of a block do letters end with a byte. */
  lemma BlockReachedByLetters(n: nat, k: nat)
    requires 1 <= n <= 7 && n <= k <= 8 * BlockBytes(n) && WholeLetters(n, k) && k % 8 == 0
    ensures k == 8 * BlockBytes(n) && BlockBytes(n) > 0
  {
    var l: nat :| k == Times(n, l);
  }

  class Decoder {
    const lookup: seq<int>
    const bits: nat
    const block: nat
    const outBuf: array<byte>
    var bytePos: nat
    var bitPos: nat
    /** The text so far, and the bytes put out for it. */
    ghost var text: seq<byte>
    ghost var sent: seq<byte>
    /** The bits of the full cells of the buffer, and of the next one. */
    ghost var done: Bits
    ghost var part: Bits

    ghost predicate Shape()
      reads this
    {
      && LookupFor(lookup, bits) && block == BlockBytes(bits) && outBuf.Length == block
      && bitPos == |part| < 8 && bytePos <= block
    }

    /** Between two letters. */
    ghost predicate Valid()
      reads this, outBuf
    {
      && Shape() && Decoded(lookup, bits, text, sent, done, part) && bytePos < block
      && WholeLetters(bits, 8 * bytePos + bitPos)
      && (if bytePos == 0 && bitPos == 0 then done == [] && part == []
          else Packed(outBuf[..], 8, bytePos, done, part))
    }

    constructor (lookup: seq<int>, bits: nat)
      requires LookupFor(lookup, bits)
      ensures Valid() && fresh(outBuf) && this.lookup == lookup && this.bits == bits && text == [] && sent == []
    {
      FirstLetter(lookup, bits);
      hide Decoded, WholeLetters, BlockBytes, LookupFor;
      var i: nat := bits;
      while i % 8 != 0
        invariant 1 <= bits <= i <= 8 * BlockBytes(bits) && WholeLetters(bits, i)
        decreases 8 * BlockBytes(bits) - i
      {
        LetterFits(bits, i);
        i := i + bits;
      }
      BlockReachedByLetters(bits, i);
      this.lookup, this.bits := lookup, bits;
      block := i / 8;
      outBuf := new byte[i / 8](_ => 0);
      bytePos, bitPos := 0, 0;
      text, sent, done, part := [], [], [], [];
    }

    static method Create(lookup: seq<int>, bits: nat) returns (d: Decoder?)
      requires |lookup| == 256
      ensures d == null <==> bits < 1 || bits >= 8
      ensures d != null ==>
        fresh(d) && fresh(d.outBuf) && d.Valid() && d.lookup == lookup && d.bits == bits && d.text == [] && d.sent == []
    {
      if bits < 1 || bits >= 8 {
        return null;
      }
      d := new Decoder(lookup, bits);
    }

    /** The first letter of a block finds the buffer cleared. */
    method StartLetter()
      requires Valid()
      modifies outBuf
      ensures Packed(outBuf[..], 8, bytePos, done, part)
    {
      hide Decoded, Packed, WholeLetters, LookupFor, BlockBytes;
      if bytePos == 0 && bitPos == 0 {
        forall k | 0 <= k < outBuf.Length {
          outBuf[k] := 0;
        }
        PackNothing(outBuf[..], 8);
      }
    }

    /** The bits of a letter go into the buffer, which they may fill. */
    method PutLetter(c: byte)
      requires Valid() && 0 <= lookup[c] < 256
      modifies this`bytePos, this`bitPos, this`text, this`done, this`part, outBuf
      ensures Shape() && text == old(text) + [c] && Decoded(lookup, bits, text, sent, done, part)
      ensures WholeLetters(bits, 8 * bytePos + bitPos) && Packed(outBuf[..], 8, bytePos, done, part)
      ensures (bytePos > 0 || bitPos > 0) && (bytePos == block ==> bitPos == 0)
    {
      hide Decoded, Packed, WholeLetters, BlockBytes, Pow2, Together, Overlaid, Above, Below;
      StartLetter();
      DoneBytes(outBuf[..], bytePos, done, part);
      LetterFits(bits, 8 * bytePos + bitPos);
      var newBitPos := bitPos + bits;
      done, part := WriteLetter(outBuf, bits, bytePos, bitPos, lookup[c], done, part);
      DecodedLetter(lookup, bits, text, sent, old(done), old(part), c, done, part);
      text := text + [c];
      bytePos, bitPos := Carry(bytePos, newBitPos);
    }

    /** One character of the text; what is no letter is skipped. */
    method PutCharacter(c: byte) returns (out: seq<byte>)
      requires Valid()
      modifies this, outBuf
      ensures Valid() && text == old(text) + [c] && sent == old(sent) + out
    {
      hide Decoded, Packed, WholeLetters, BlockBytes;
      out := [];
      AppendNothing(sent);
      if !(0 <= lookup[c] < 256) {
        DecodedSkip(lookup, bits, text, sent, done, part, c);
        text := text + [c];
        return;
      }
      PutLetter(c);
      if bytePos == block {
        FirstLetter(lookup, bits);
        out := outBuf[..];
        DecodedBlock(lookup, bits, text, sent, done, part, out);
        sent := sent + out;
        bytePos, bitPos := 0, 0;
        done, part := [], [];
      }
    }

    /** Any part of a text, and its end. */
    method Put(input: seq<byte>, messageEnd: bool) returns (out: seq<byte>)
      requires Valid()
      modifies this, outBuf
      ensures Valid()
      ensures !messageEnd ==> text == old(text) + input && sent == old(sent) + out
      ensures messageEnd ==> text == [] && sent == [] && old(sent) + out == Decoding(lookup, bits, old(text) + input)
    {
      hide Decoded, Packed, WholeLetters, BlockBytes, Decoding;
      out := [];
      AppendNothing(sent);
      AppendNothing(text);
      for i := 0 to |input|
        invariant Valid() && text == old(text) + input[..i] && sent == old(sent) + out
      {
        ghost var before := out;
        var piece := PutCharacter(input[i]);
        out := out + piece;
        AppendAssociates(old(sent), before, piece);
        AppendOne(old(text), input, i);
      }
      assert input[..|input|] == input;
      if messageEnd {
        ghost var before := out;
        var piece := outBuf[..bytePos];
        DecodedEnd(lookup, bits, text, sent, done, part, outBuf[..], bytePos);
        out := out + piece;
        AppendAssociates(old(sent), before, piece);
        bytePos, bitPos := 0, 0;
        text, sent, done, part := [], [], [], [];
        FirstLetter(lookup, bits);
      }
    }
  }

  lemma WholeByte(value: byte)
    ensures CellHolds(value, 8, ToBits(value, 8))
  {
    Pow2Values();
    FromToBits(value, 8);
    assert ToBits(value, 8) + ZeroBits(0) == ToBits(value, 8);
  }

  lemma BlockReached(n: nat, i: nat)
    requires 1 <= n <= 7 && 8 <= i <= BlockBits(n) && i % 8 == 0
    ensures i % n == 0 <==> i == BlockBits(n)
    ensures BlockBits(n) / n == BlockLetters(n)
  {
    if n == 1 { assert i % 1 == 0; }
    else if n == 2 {}
    else if n == 3 { assert i % 3 == i % n; }
    else if n == 4 {}
    else if n == 5 { assert i % 5 == i % n; }
    else if n == 6 { assert i % 6 == i % n; }
    else { assert i % 7 == i % n; }
  }
}
