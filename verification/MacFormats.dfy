/** What the message authenticators chain, in terms of the message: the last block of CMAC (section 6.2 of
    NIST SP 800-38B), and the formatted blocks of CCM, octet by octet (section 2.2 of RFC 3610). */
module MacFormats {
  import opened ByteStrings
  import opened BlockChaining
  import opened Cmacs
  import opened AuthenticatedCiphers

  // ---------- Whole blocks ----------

  lemma RemainderStep(n: nat, s: nat)
    requires n >= s >= 1
    ensures (n - s) % s == n % s
  {
    var q, r := (n - s) / s, (n - s) % s;
    assert n == (q + 1) * s + r;
    Quotients(s, n / s, n % s, q + 1, r);
  }

  lemma Quotients(s: int, q: int, r: int, q': int, r': int)
    requires 0 <= r < s && 0 <= r' < s && q * s + r == q' * s + r'
    ensures r == r'
  {
    var d := q - q';
    assert d * s == r' - r;
    assert (d >= 1 ==> d * s >= s) && (d <= -1 ==> d * s <= 0 - s);
  }

  lemma {:induction false} LeftOverIs(n: nat, s: nat)
    requires s >= 1
    ensures LeftOver(n, s) == n % s && LeftOver(n - LeftOver(n, s), s) == 0
  {
    if n >= s {
      RemainderStep(n, s);
      LeftOverIs(n - s, s);
    }
  }

  /** A padded stream is the stream and zeros, as few as make whole blocks. */
  lemma PaddedIs(data: Octets, s: nat)
    requires s >= 1
    ensures var p := Padded(data, s);
            && |data| <= |p| < |data| + s && |p| % s == 0 && p == data + Zeros(|p| - |data|)
  {
    LeftOverIs(|data|, s);
    PaddedLength(data, s);
    LeftOverIs(|Padded(data, s)|, s);
  }

  // ---------- CMAC ----------

  lemma OneBlockLeft(c: BlockCipher, state: Octets, message: Octets)
    requires Supported(c) && |state| == c.size && |message| <= c.size
    ensures MacFrom(c, state, message) == Chain(c, state, message[..0] + LastBlock(c, message[0..]))
  {
    hide LastBlock, Chain, Xor;
    assert message[0..] == message && message[..0] + LastBlock(c, message) == LastBlock(c, message);
    OneBlock(c, state, LastBlock(c, message));
  }

  lemma OneBlockMore(c: BlockCipher, state: Octets, message: Octets, blocks: Octets)
    requires Supported(c) && |state| == c.size && |message| > c.size && |blocks| >= c.size
    requires blocks[..c.size] == message[..c.size]
    ensures var state' := c.Encrypt(Xor(state, message[..c.size]));
            MacFrom(c, state, message) == MacFrom(c, state', message[c.size..])
            && Chain(c, state, blocks) == Chain(c, state', blocks[c.size..])
  {
    hide LastBlock, Xor, Doubled;
  }

  /** The MAC chains the whole blocks at the front, and the last block. */
  lemma {:induction false} MacChains(c: BlockCipher, state: Octets, message: Octets, n: nat)
    requires Supported(c) && |state| == c.size && LeftOver(n, c.size) == 0
    requires n <= |message| <= n + c.size && (n == |message| ==> n == 0)
    ensures MacFrom(c, state, message) == Chain(c, state, message[..n] + LastBlock(c, message[n..]))
    decreases n
  {
    hide LastBlock, Xor, Chain, MacFrom, Keyable;
    var s := c.size;
    if n == 0 {
      OneBlockLeft(c, state, message);
    } else {
      WholeFront(n, s);
      MacChains(c, c.Encrypt(Xor(state, message[..s])), message[s..], n - s);
      var blocks := message[..n] + LastBlock(c, message[n..]);
      assert message[s..][n - s..] == message[n..];
      assert blocks[..s] == message[..s];
      assert blocks[s..] == message[s..][..n - s] + LastBlock(c, message[n..]);
      OneBlockMore(c, state, message, blocks);
    }
  }

  /** The first subkey is for a message of whole blocks: with L the encrypted zero block, the last block is
      exclusive-or-ed with 2 L. */
  lemma MacOfWholeBlocks(c: BlockCipher, message: Octets)
    requires Supported(c) && message != [] && |message| % c.size == 0
    ensures var n := |message| - c.size; var l := c.Encrypt(Zeros(c.size));
            n >= 0 && !Refused(l)
            && Mac(c, message) == Chain(c, Zeros(c.size), message[..n] + Xor(message[n..], Doubled(l)))
  {
    hide Chain, MacFrom, Doubled, Xor;
    LeftOverIs(|message|, c.size);
    WholeFront(|message|, c.size);
    MacChains(c, Zeros(c.size), message, |message| - c.size);
  }

  lemma WholeFront(n: nat, s: nat)
    requires s >= 1 && n > 0 && LeftOver(n, s) == 0
    ensures n >= s && LeftOver(n - s, s) == 0
  {}

  /** The second one is for a message that ends in a part of a block, or is empty: that part is ended by a
      bit and filled up with zeros, and exclusive-or-ed with 4 L. */
  lemma MacOfPartBlock(c: BlockCipher, message: Octets) returns (b: Octets)
    requires Supported(c) && (message == [] || |message| % c.size != 0)
    ensures var n := |message| - |message| % c.size; var l := c.Encrypt(Zeros(c.size));
            n >= 0 && !Refused(l) && !Refused(Doubled(l)) && |b| == c.size
            && BitString(b) == BitString(message[n..]) + [true] + Repeated(false, 8 * (c.size - |message[n..]|) - 1)
            && Mac(c, message) == Chain(c, Zeros(c.size), message[..n] + Xor(b, Doubled(Doubled(l))))
  {
    hide Chain, MacFrom, Doubled, Xor, BitString;
    LeftOverIs(|message|, c.size);
    var n := |message| - LeftOver(|message|, c.size);
    var tail := message[n..];
    b := tail + [0x80] + Zeros(c.size - |tail| - 1);
    MacChains(c, Zeros(c.size), message, n);
    EndedByBit(tail, c.size - |tail| - 1);
  }

  lemma {:induction false} BitsOfConcatenation(x: Octets, y: Octets)
    ensures BitString(x + y) == BitString(x) + BitString(y)
  {
    if x == [] {
      assert x + y == y;
    } else {
      assert (x + y)[1..] == x[1..] + y;
      BitsOfConcatenation(x[1..], y);
      AppendAssociates(BitsOf(x[0]), BitString(x[1..]), BitString(y));
    }
  }

  lemma {:induction false} BitsOfZeros(n: nat)
    ensures BitString(Zeros(n)) == Repeated(false, 8 * n)
  {
    if n > 0 {
      BitsOfZeros(n - 1);
      assert Zeros(n)[1..] == Zeros(n - 1);
      ZeroByte();
      hide BitsOf, BitString;
    }
  }

  lemma ZeroByte()
    ensures BitsOf(0) == Repeated(false, 8) && BitsOf(0x80) == [true] + Repeated(false, 7)
  {}

  lemma EndedByBit(tail: Octets, n: nat)
    ensures BitString(tail + [0x80] + Zeros(n)) == BitString(tail) + [true] + Repeated(false, 8 * n + 7)
  {
    BitsOfConcatenation(tail + [0x80], Zeros(n));
    BitsOfConcatenation(tail, [0x80]);
    BitsOfZeros(n);
    ZeroByte();
    assert BitString([0x80]) == BitsOf(0x80) by { assert [0x80][1..] == []; }
    hide BitString, BitsOf;
    assert Repeated(false, 7) + Repeated(false, 8 * n) == Repeated(false, 8 * n + 7);
    AppendAssociates(BitString(tail), [true], Repeated(false, 7));
    AppendAssociates(BitString(tail) + [true], Repeated(false, 7), Repeated(false, 8 * n));
  }

  lemma LastByteBits(n: nat, b: bv8)
    ensures BitString(Zeros(n) + [b]) == Repeated(false, 8 * n) + BitsOf(b)
  {
    BitsOfConcatenation(Zeros(n), [b]);
    BitsOfZeros(n);
    assert BitString([b]) == BitsOf(b) by { assert [b][1..] == []; }
  }

  /** The constants, as polynomials: u^4 + u^3 + u + 1 and u^7 + u^2 + u + 1. */
  lemma ReductionBits()
    ensures BitString(Reduction(8)) == Repeated(false, 56) + [false, false, false, true, true, false, true, true]
    ensures BitString(Reduction(16)) == Repeated(false, 120) + [true, false, false, false, false, true, true, true]
  {
    LastByteBits(7, 0x1b);
    LastByteBits(15, 0x87);
    ConstantBits();
    hide BitString, BitsOf, Zeros, Repeated;
  }

  lemma ConstantBits()
    ensures BitsOf(0x1b) == [false, false, false, true, true, false, true, true]
    ensures BitsOf(0x87) == [true, false, false, false, false, true, true, true]
  {}

  /** Four octets shifted, before an octet `next` of others. */
  lemma FourShifted(four: Octets, rest: Octets)
    requires |four| == 4 && rest != []
    ensures ShiftedLeft(four + rest)
         == [ShiftByte(four[0], four[1]), ShiftByte(four[1], four[2]), ShiftByte(four[2], four[3]),
             ShiftByte(four[3], rest[0])] + ShiftedLeft(rest)
  {
    hide ShiftByte;
    assert (four + rest)[3] == four[3] && (four + rest)[4] == rest[0];
  }

  lemma LastFourShifted(four: Octets)
    requires |four| == 4
    ensures ShiftedLeft(four)
         == [ShiftByte(four[0], four[1]), ShiftByte(four[1], four[2]), ShiftByte(four[2], four[3]),
             ShiftByte(four[3], 0)]
  {}

  lemma SixteenShifted(a: Octets, b: Octets, c: Octets, d: Octets, x: Octets, y: Octets, z: Octets, w: Octets)
    requires |a| == |b| == |c| == |d| == 4
    requires x == [ShiftByte(a[0], a[1]), ShiftByte(a[1], a[2]), ShiftByte(a[2], a[3]), ShiftByte(a[3], b[0])]
    requires y == [ShiftByte(b[0], b[1]), ShiftByte(b[1], b[2]), ShiftByte(b[2], b[3]), ShiftByte(b[3], c[0])]
    requires z == [ShiftByte(c[0], c[1]), ShiftByte(c[1], c[2]), ShiftByte(c[2], c[3]), ShiftByte(c[3], d[0])]
    requires w == [ShiftByte(d[0], d[1]), ShiftByte(d[1], d[2]), ShiftByte(d[2], d[3]), ShiftByte(d[3], 0)]
    ensures ShiftedLeft(a + (b + (c + d))) == x + (y + (z + w))
  {
    hide ShiftedLeft, ShiftByte;
    LastFourShifted(d);
    FourShifted(c, d);
    FourShifted(b, c + d);
    FourShifted(a, b + (c + d));
  }

  lemma DoubledSixteen(x: Octets)
    requires |x| == 16
    ensures Doubled(x) == if TopBit(x[0]) == 0 then ShiftedLeft(x)
                          else ShiftedLeft(x)[15 := ShiftedLeft(x)[15] ^ 0x87]
  {
    EvenPairs(x);
    LastReduced(ShiftedLeft(x));
    hide ShiftedLeft, ShiftedPairs, Xor, Reduction;
  }

  /** The subkey generation of section 4 of RFC 4493: AES-128 of the zero block, and its two doubles. */
  lemma SubkeyVector1()
    ensures var l: Octets := [0x7d, 0xf7, 0x6b, 0x0c] + ([0x1a, 0xb8, 0x99, 0xb3]
                             + ([0x3e, 0x42, 0xf0, 0x47] + [0xb9, 0x1b, 0x54, 0x6f]));
            Doubled(l) == [0xfb, 0xee, 0xd6, 0x18] + ([0x35, 0x71, 0x33, 0x66]
                          + ([0x7c, 0x85, 0xe0, 0x8f] + [0x72, 0x36, 0xa8, 0xde]))
  {
    var a: Octets, b: Octets, c: Octets, d: Octets :=
      [0x7d, 0xf7, 0x6b, 0x0c], [0x1a, 0xb8, 0x99, 0xb3], [0x3e, 0x42, 0xf0, 0x47], [0xb9, 0x1b, 0x54, 0x6f];
    SixteenShifted(a, b, c, d, [0xfb, 0xee, 0xd6, 0x18], [0x35, 0x71, 0x33, 0x66], [0x7c, 0x85, 0xe0, 0x8f],
      [0x72, 0x36, 0xa8, 0xde]);
    DoubledSixteen(a + (b + (c + d)));
    hide Doubled, ShiftedLeft;
  }

  lemma SubkeyVector2()
    ensures var k: Octets := [0xfb, 0xee, 0xd6, 0x18] + ([0x35, 0x71, 0x33, 0x66]
                             + ([0x7c, 0x85, 0xe0, 0x8f] + [0x72, 0x36, 0xa8, 0xde]));
            Doubled(k) == [0xf7, 0xdd, 0xac, 0x30] + ([0x6a, 0xe2, 0x66, 0xcc]
                          + ([0xf9, 0x0b, 0xc1, 0x1e] + [0xe4, 0x6d, 0x51, 0x3b]))
  {
    var a: Octets, b: Octets, c: Octets, d: Octets :=
      [0xfb, 0xee, 0xd6, 0x18], [0x35, 0x71, 0x33, 0x66], [0x7c, 0x85, 0xe0, 0x8f], [0x72, 0x36, 0xa8, 0xde];
    var x: Octets, y: Octets, z: Octets :=
      [0xf7, 0xdd, 0xac, 0x30], [0x6a, 0xe2, 0x66, 0xcc], [0xf9, 0x0b, 0xc1, 0x1e];
    SixteenShifted(a, b, c, d, x, y, z, [0xe4, 0x6d, 0x51, 0xbc]);
    DoubledSixteen(a + (b + (c + d)));
    hide Doubled, ShiftedLeft;
    assert (x + (y + (z + [0xe4, 0x6d, 0x51, 0xbc])))[15 := 0x3b] == x + (y + (z + [0xe4, 0x6d, 0x51, 0x3b]));
  }

  // ---------- CCM ----------

  function Quotient(v: nat, d: nat): nat
    requires d > 0
  {
    v / d
  }

  /** A bit of a number, at the place of the power `d` of two. */
  function BitAt(v: nat, d: nat): (b: nat)
    requires d > 0
    ensures b <= 1
  {
    v / d % 2
  }

  /** A bit of an octet as a number. */
  function MaskedBit(b: bv8, mask: bv8): (n: nat)
    ensures n <= 1
  {
    if b & mask != 0 then 1 else 0
  }

  /** The bits of an octet are those of a number. */
  ghost predicate BitsAre(b: bv8, v: nat) {
    && MaskedBit(b, 0x80) == BitAt(v, 128) && MaskedBit(b, 0x40) == BitAt(v, 64)
    && MaskedBit(b, 0x20) == BitAt(v, 32) && MaskedBit(b, 0x10) == BitAt(v, 16)
    && MaskedBit(b, 8) == BitAt(v, 8) && MaskedBit(b, 4) == BitAt(v, 4)
    && MaskedBit(b, 2) == BitAt(v, 2) && MaskedBit(b, 1) == BitAt(v, 1)
  }

  lemma OctetBits(v: nat)
    requires v < 256
    ensures BitsAre(v as bv8, v)
  {}

  lemma Halves(v: nat)
    requires v < 256
    ensures Quotient(v, 128) == BitAt(v, 128) && Quotient(v, 64) == 2 * Quotient(v, 128) + BitAt(v, 64)
    ensures Quotient(v, 32) == 2 * Quotient(v, 64) + BitAt(v, 32)
    ensures Quotient(v, 16) == 2 * Quotient(v, 32) + BitAt(v, 16)
    ensures Quotient(v, 8) == 2 * Quotient(v, 16) + BitAt(v, 8)
    ensures Quotient(v, 4) == 2 * Quotient(v, 8) + BitAt(v, 4)
    ensures Quotient(v, 2) == 2 * Quotient(v, 4) + BitAt(v, 2) && v == 2 * Quotient(v, 2) + BitAt(v, 1)
  {}

  /** The number that an octet's bits spell. */
  function NumberOf(b: bv8): nat {
    128 * MaskedBit(b, 0x80) + 64 * MaskedBit(b, 0x40) + 32 * MaskedBit(b, 0x20) + 16 * MaskedBit(b, 0x10)
    + 8 * MaskedBit(b, 8) + 4 * MaskedBit(b, 4) + 2 * MaskedBit(b, 2) + MaskedBit(b, 1)
  }

  lemma NumberIs(b: bv8, v: nat)
    requires v < 256 && BitsAre(b, v)
    ensures NumberOf(b) == v
  {
    Halves(v);
    hide Quotient, BitAt, MaskedBit;
  }

  /** Different numbers are different octets. */
  lemma OctetUnique(v: nat, v': nat)
    requires v < 256 && v' < 256 && v as bv8 == v' as bv8
    ensures v == v'
  {
    hide *;
    OctetBits(v);
    OctetBits(v');
    NumberIs(v as bv8, v);
    NumberIs(v as bv8, v');
  }

  /** The number that three bits of an octet spell. */
  function ThreeBits(f: bv8, high: bv8, middle: bv8, low: bv8): nat {
    4 * MaskedBit(f, high) + 2 * MaskedBit(f, middle) + MaskedBit(f, low)
  }

  /** The first octet of section 2.2: a reserved bit that is clear, one bit for a header, three for the size
      of the tag, and three for the size of the length. */
  lemma FlagsFields(hasHeader: bool, digestSize: nat, lengthSize: nat)
    requires 4 <= digestSize <= 16 && 1 <= lengthSize <= 8
    ensures var f := Flags(hasHeader, digestSize, lengthSize);
            && f & 0x80 == 0 && (f & 0x40 != 0 <==> hasHeader)
            && ThreeBits(f, 0x20, 0x10, 8) == (digestSize - 2) / 2
            && ThreeBits(f, 4, 2, 1) == lengthSize - 1
  {
    var t, l: nat := (digestSize - 2) / 2, lengthSize - 1;
    var v := (if hasHeader then 64 else 0) + 8 * t + l;
    assert t <= 7 && Flags(hasHeader, digestSize, lengthSize) == v as bv8;
    ThreeBinary(t);
    ThreeBinary(l);
    SevenBits(v, if hasHeader then 1 else 0, t / 4, t / 2 % 2, t % 2, l / 4, l / 2 % 2, l % 2);
    hide Flags, BitAt;
    BitsRead(v, t, l);
  }

  lemma BitsRead(v: nat, t: nat, l: nat)
    requires v < 128 && BitAt(v, 128) == 0
    requires t == 4 * BitAt(v, 32) + 2 * BitAt(v, 16) + BitAt(v, 8)
    requires l == 4 * BitAt(v, 4) + 2 * BitAt(v, 2) + BitAt(v, 1)
    ensures MaskedBit(v as bv8, 0x80) == 0 && MaskedBit(v as bv8, 0x40) == BitAt(v, 64)
    ensures ThreeBits(v as bv8, 0x20, 0x10, 8) == t && ThreeBits(v as bv8, 4, 2, 1) == l
  {
    OctetBits(v);
    hide BitAt, MaskedBit;
  }

  lemma ThreeBinary(t: nat)
    requires t <= 7
    ensures t == 4 * (t / 4) + 2 * (t / 2 % 2) + t % 2 && t / 4 <= 1
  {}

  lemma SevenBits(v: nat, a: nat, b: nat, c: nat, d: nat, e: nat, f: nat, g: nat)
    requires a <= 1 && b <= 1 && c <= 1 && d <= 1 && e <= 1 && f <= 1 && g <= 1
    requires v == 64 * a + 32 * b + 16 * c + 8 * d + 4 * e + 2 * f + g
    ensures v < 128 && BitAt(v, 128) == 0 && BitAt(v, 64) == a && BitAt(v, 32) == b && BitAt(v, 16) == c
    ensures BitAt(v, 8) == d && BitAt(v, 4) == e && BitAt(v, 2) == f && BitAt(v, 1) == g
  {
    assert v / 64 == a && v / 32 == 2 * a + b && v / 16 == 4 * a + 2 * b + c;
    assert v / 8 == 8 * a + 4 * b + 2 * c + d && v / 4 == 16 * a + 8 * b + 4 * c + 2 * d + e;
    assert v / 2 == 32 * a + 16 * b + 8 * c + 4 * d + 2 * e + f;
  }

  /** Numbers that fit their words are told apart by them. */
  lemma {:induction false} WordUnique(v: nat, v': nat, n: nat)
    requires v < Pow256(n) && v' < Pow256(n) && Word(v, n) == Word(v', n)
    ensures v == v'
  {
    if n > 0 {
      WordSplits(v, n);
      WordSplits(v', n);
      OctetUnique(v % 256, v' % 256);
      WordUnique(v / 256, v' / 256, n - 1);
    }
  }

  lemma WordSplits(v: nat, n: nat)
    requires n > 0
    ensures Word(v, n)[..n - 1] == Word(v / 256, n - 1) && Word(v, n)[n - 1] == (v % 256) as bv8
  {
    assert BigEndian(v, n)[..n - 1] == BigEndian(v / 256, n - 1);
    forall i | 0 <= i < n - 1 ensures Word(v, n)[i] == Word(v / 256, n - 1)[i] {
      assert BigEndian(v, n)[i] == BigEndian(v / 256, n - 1)[i];
    }
  }

  /** The first block tells the nonce, whether there is a header, and the message's length. */
  lemma FirstBlockReads(
    digestSize: nat, nonce: Octets, hasHeader: bool, length: nat, nonce': Octets, hasHeader': bool, length': nat)
    requires 4 <= digestSize <= 16 && 7 <= |nonce| <= 13 && 7 <= |nonce'| <= 13
    requires length < Pow256(15 - |nonce|) && length' < Pow256(15 - |nonce'|)
    requires FirstBlock(digestSize, nonce, hasHeader, length) == FirstBlock(digestSize, nonce', hasHeader', length')
    ensures nonce == nonce' && hasHeader == hasHeader' && length == length'
  {
    var b := FirstBlock(digestSize, nonce, hasHeader, length);
    FlagsFields(hasHeader, digestSize, 15 - |nonce|);
    FlagsFields(hasHeader', digestSize, 15 - |nonce'|);
    hide Flags, Word, Pow256, ThreeBits;
    BlockParts(digestSize, nonce, hasHeader, length);
    BlockParts(digestSize, nonce', hasHeader', length');
    WordUnique(length, length', 15 - |nonce|);
  }

  lemma BlockParts(digestSize: nat, nonce: Octets, hasHeader: bool, length: nat)
    requires 4 <= digestSize <= 16 && 7 <= |nonce| <= 13
    ensures var b := FirstBlock(digestSize, nonce, hasHeader, length);
            && b[0] == Flags(hasHeader, digestSize, 15 - |nonce|) && b[1..1 + |nonce|] == nonce
            && b[1 + |nonce|..] == Word(length, 15 - |nonce|)
  {
    hide Flags, Word;
  }

  /** The two octets that a header's length begins with. */
  lemma PrefixStart(length: nat)
    requires 0 < length < Pow256(8)
    ensures |LengthPrefix(length)| >= 2
    ensures LengthPrefix(length)[..2]
         == if length < 0xff00 then Word(length, 2)
            else if length < Pow256(4) then [0xff, 0xfe] else [0xff, 0xff]
    ensures length < 0xff00 ==> Word(length, 2)[0] != 0xff
  {
    Powers();
    hide Word, Pow256;
    if length < 0xff00 { WordOfTwo(length); }
  }

  /** The limits of lengths of two to eight octets. */
  lemma Powers()
    ensures Pow256(2) == 0x1_0000 && Pow256(3) == 0x100_0000 && Pow256(4) == 0x1_0000_0000
    ensures Pow256(5) == 0x100_0000_0000 && Pow256(6) == 0x1_0000_0000_0000
    ensures Pow256(7) == 0x100_0000_0000_0000 && Pow256(8) == 0x1_0000_0000_0000_0000
  {
    assert Pow256(2) == 0x1_0000 && Pow256(4) == 0x1_0000_0000 && Pow256(6) == 0x1_0000_0000_0000;
  }

  lemma WordOfTwo(length: nat)
    requires length < 0xff00
    ensures Word(length, 2)[..2] == Word(length, 2) && Word(length, 2)[0] != 0xff
  {
    WordSplits(length, 2);
    WordSplits(length / 256, 1);
    if (length / 256) as bv8 == 255 as bv8 { OctetUnique(length / 256, 255); }
  }

  /** The header's length can be read off the front, whatever follows it. */
  lemma PrefixUnique(length: nat, length': nat, s: Octets, s': Octets)
    requires 0 < length < Pow256(8) && 0 < length' < Pow256(8)
    requires LengthPrefix(length) + s <= LengthPrefix(length') + s'
    ensures length == length'
  {
    PrefixStart(length);
    PrefixStart(length');
    SameStart(LengthPrefix(length), s, LengthPrefix(length'), s', 2);
    Powers();
    hide Word, Pow256;
    if length < 0xff00 {
      WordUnique(length, length', 2);
    } else if length < Pow256(4) {
      SameStart(LengthPrefix(length), s, LengthPrefix(length'), s', 6);
      assert LengthPrefix(length)[2..] == Word(length, 4) && LengthPrefix(length')[2..] == Word(length', 4);
      WordUnique(length, length', 4);
    } else {
      SameStart(LengthPrefix(length), s, LengthPrefix(length'), s', 10);
      assert LengthPrefix(length)[2..] == Word(length, 8) && LengthPrefix(length')[2..] == Word(length', 8);
      WordUnique(length, length', 8);
    }
  }

  lemma SameStart(a: Octets, s: Octets, a': Octets, s': Octets, n: nat)
    requires a + s <= a' + s' && n <= |a| && n <= |a'|
    ensures a[..n] == a'[..n]
  {
    assert a[..n] == (a + s)[..n] && a'[..n] == (a' + s')[..n];
  }

  /** What is chained for a header and a message, in front of whatever more. */
  lemma HeaderReads(header: Octets, header': Octets, s: Octets, s': Octets)
    requires 0 < |header| < Pow256(8) && 0 < |header'| < Pow256(8)
    requires Padded(LengthPrefix(|header|) + header, BLOCK) + s <= Padded(LengthPrefix(|header'|) + header', BLOCK) + s'
    ensures header == header'
  {
    hide Pow256, LengthPrefix;
    var p, p' := LengthPrefix(|header|), LengthPrefix(|header'|);
    var fill := PaddedParts(p, header, s);
    var fill' := PaddedParts(p', header', s');
    PrefixUnique(|header|, |header'|, header + fill, header' + fill');
    Behind2(p, header, fill, header', fill');
  }

  lemma PaddedParts(p: Octets, header: Octets, s: Octets) returns (fill: Octets)
    ensures Padded(p + header, BLOCK) + s == p + (header + fill)
  {
    var left := LeftOver(|p + header|, BLOCK);
    var zeros := if left == 0 then [] else Zeros(BLOCK - left);
    AppendNothing(p + header);
    fill := zeros + s;
    hide LeftOver;
    AppendAssociates(p + header, zeros, s);
    AppendAssociates(p, header, fill);
  }

  lemma Behind2(p: Octets, s: Octets, t: Octets, s': Octets, t': Octets)
    requires p + (s + t) <= p + (s' + t') && |s| == |s'|
    ensures s == s'
  {
    assert s == (p + (s + t))[|p|..|p| + |s|] && s' == (p + (s' + t'))[|p|..|p| + |s|];
  }

  lemma MessageReads(message: Octets, message': Octets)
    requires |message| == |message'| && Padded(message, BLOCK) <= Padded(message', BLOCK)
    ensures message == message'
  {
    assert message == Padded(message, BLOCK)[..|message|] && message' == Padded(message', BLOCK)[..|message|];
  }

  /** For one size of tag, no formatted input of the CBC-MAC is a prefix of another: what the encoding of
      section 2.2 of RFC 3610 is for. */
  lemma BlocksArePrefixFree(
    digestSize: nat, nonce: Octets, header: Octets, message: Octets, nonce': Octets, header': Octets, message': Octets)
    requires 4 <= digestSize <= 16 && 7 <= |nonce| <= 13 && 7 <= |nonce'| <= 13
    requires |header| < Pow256(8) && |message| < Pow256(15 - |nonce|)
    requires |header'| < Pow256(8) && |message'| < Pow256(15 - |nonce'|)
    requires MacBlocks(digestSize, nonce, header, message) <= MacBlocks(digestSize, nonce', header', message')
    ensures nonce == nonce' && header == header' && message == message'
  {
    hide Pow256, LengthPrefix, FirstBlock;
    var b, b' := FirstBlock(digestSize, nonce, header != [], |message|),
                 FirstBlock(digestSize, nonce', header' != [], |message'|);
    var h, h' := Padded(LengthPrefix(|header|) + header, BLOCK), Padded(LengthPrefix(|header'|) + header', BLOCK);
    var m, m' := Padded(message, BLOCK), Padded(message', BLOCK);
    hide Padded;
    AppendAssociates(b, h, m);
    AppendAssociates(b', h', m');
    SameStart(b, h + m, b', h' + m', BLOCK);
    assert b[..BLOCK] == b && b'[..BLOCK] == b';
    FirstBlockReads(digestSize, nonce, header != [], |message|, nonce', header' != [], |message'|);
    WithoutFront(b, h + m, h' + m');
    if header != [] { HeaderReads(header, header', m, m'); }
    WithoutFront(h, m, m');
    MessageReads(message, message');
  }

  lemma WithoutFront(a: Octets, s: Octets, s': Octets)
    requires a + s <= a + s'
    ensures s <= s'
  {
    assert s == (a + s)[|a|..] && (a + s')[|a|..] == s';
    assert (a + s')[..|a + s|][|a|..] == s'[..|s|];
  }

  lemma SmallWord(v: nat)
    requires v < 256
    ensures Word(v, 2) == [0, v as bv8]
  {
    WordSplits(v, 2);
    WordSplits(0, 1);
  }

  /** Packet vector #1 in section 8 of RFC 3610, whatever its octets: a tag of 8 octets, a nonce of 13, a header
      of 8 and a message of 23. B_0 is 59, the nonce, 00 17; B_1 begins with 00 08; A_0 is 01, the nonce, 00 00. */
  lemma PacketVector1(nonce: Octets, header: Octets, message: Octets)
    requires |nonce| == 13 && |header| == 8 && |message| == 23
    ensures MacBlocks(8, nonce, header, message)
         == [0x59] + nonce + [0x00, 0x17] + ([0x00, 0x08] + header + Zeros(6)) + (message + Zeros(9))
    ensures CounterBlock(nonce) == [0x01] + nonce + [0x00, 0x00]
  {
    SmallWord(23);
    SmallWord(8);
    assert LengthPrefix(8) == Word(8, 2);
    assert Flags(true, 8, 2) == 0x59;
    LeftOverVector();
    assert Zeros(2) == [0x00, 0x00];
    hide Flags, LengthPrefix, Word, LeftOver;
  }

  lemma LeftOverVector()
    ensures LeftOver(10, BLOCK) == 10 && LeftOver(23, BLOCK) == 7
  {}

  /** The tag takes the key stream's first block, S_0, and the message the octets behind it: none twice. */
  lemma KeystreamUse(
    c: BlockCipher, k: Keystream, digestSize: nat, nonce: Octets, header: Octets, message: Octets, i: nat)
    requires c.Valid() && c.size == BLOCK && 4 <= digestSize <= 16 && 7 <= |nonce| <= 13
    ensures var a := [(14 - |nonce|) as bv8] + nonce + Zeros(15 - |nonce|);
            && |a| == 16
            && (i < |message| ==> Crypt(k, nonce, message)[i] == message[i] ^ k(a, 16 + i))
            && (i < 16 ==> Tag(c, k, digestSize, nonce, header, message)[i]
                           == Chain(c, Zeros(16), MacBlocks(digestSize, nonce, header, message))[i] ^ k(a, i))
  {
    hide MacBlocks, Chain;
  }
}
