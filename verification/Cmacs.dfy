/** CMAC (cmac.cpp): subkeys by doubling in place, a register that buffers the last block, and the MAC
    of section 6.2 of NIST SP 800-38B. */
module Cmacs {
  import opened ByteStrings
  import opened BlockChaining

  // ---------- Doubling ----------

  predicate Bit(b: bv8, mask: bv8) {
    b & mask != 0
  }

  function Mask(i: nat): bv8
    requires i < 8
  {
    if i == 0 then 0x80 else if i == 1 then 0x40 else if i == 2 then 0x20 else if i == 3 then 0x10
    else if i == 4 then 8 else if i == 5 then 4 else if i == 6 then 2 else 1
  }

  /** The bits of a byte, most significant first. */
  function BitsOf(b: bv8): (bits: seq<bool>)
    ensures |bits| == 8 && forall i :: 0 <= i < 8 ==> bits[i] == Bit(b, Mask(i))
  {
    seq(8, i requires 0 <= i < 8 => Bit(b, Mask(i)))
  }

  /** The bits of a block. */
  ghost function BitString(x: Octets): (bits: seq<bool>)
    ensures |bits| == 8 * |x|
  {
    if x == [] then [] else BitsOf(x[0]) + BitString(x[1..])
  }

  /** A byte moved one bit to the left, taking in the top bit of `next`. */
  function ShiftByte(b: bv8, next: bv8): bv8 {
    (b << 1) | (next >> 7)
  }

  /** Each byte moved one bit to the left, taking in the top bit of the next one. */
  function ShiftedLeft(x: Octets): (s: Octets)
    ensures |s| == |x|
  {
    seq(|x|, i requires 0 <= i < |x| => ShiftByte(x[i], if i + 1 < |x| then x[i + 1] else 0))
  }

  /** As bit strings: the first bit is dropped and a zero appended. */
  lemma {:induction false} ShiftedLeftBits(x: Octets)
    requires x != []
    ensures BitString(ShiftedLeft(x)) == BitString(x)[1..] + [false]
  {
    var s := ShiftedLeft(x);
    if |x| == 1 {
      assert s == [ShiftByte(x[0], 0)] && s[1..] == [] && x[1..] == [];
      ByteShift(x[0], 0);
    } else {
      ShiftedLeftBits(x[1..]);
      assert s[1..] == ShiftedLeft(x[1..]);
      ByteShift(x[0], x[1]);
      FirstBits(x[1..]);
      assert BitString(s) == BitsOf(s[0]) + BitString(s[1..]) && BitString(x) == BitsOf(x[0]) + BitString(x[1..]);
      assert s[0] == ShiftByte(x[0], x[1]);
      hide BitString, ShiftByte, BitsOf, ShiftedLeft;
      Spliced(BitsOf(x[0]), BitString(x[1..]));
    }
  }

  lemma FirstBits(x: Octets)
    requires x != []
    ensures BitString(x) != [] && BitString(x)[0] == BitsOf(x[0])[0]
  {}

  lemma Spliced(s: seq<bool>, t: seq<bool>)
    requires s != [] && t != []
    ensures (s[1..] + [t[0]]) + (t[1..] + [false]) == (s + t)[1..] + [false]
  {}

  lemma ByteShift(a: bv8, b: bv8)
    ensures BitsOf(ShiftByte(a, b)) == BitsOf(a)[1..] + [BitsOf(b)[0]]
  {
    BitShift(a, b);
    hide Bit, ShiftByte;
    forall i | 0 <= i < 7 ensures BitsOf(ShiftByte(a, b))[i] == BitsOf(a)[i + 1] {
    }
  }

  lemma BitShift(a: bv8, b: bv8)
    ensures forall i :: 0 <= i < 7 ==> Bit(ShiftByte(a, b), Mask(i)) == Bit(a, Mask(i + 1))
    ensures Bit(ShiftByte(a, b), 1) == Bit(b, 0x80)
  {}

  /** The block sizes that a carry can be reduced for. */
  predicate HasReduction(n: nat) {
    n == 8 || n == 16 || n == 32
  }

  /** The constant R of section 5.3 of SP 800-38B, for its block sizes of 8 and 16; 32 is the program's own. */
  function Reduction(n: nat): (r: Octets)
    requires HasReduction(n)
    ensures |r| == n
  {
    if n == 8 then Zeros(7) + [0x1b] else if n == 16 then Zeros(15) + [0x87] else Zeros(30) + [4, 0x23]
  }

  /** What the loop over pairs of bytes makes: of an odd number of bytes it leaves out the first. */
  function ShiftedPairs(x: Octets): (s: Octets)
    ensures |s| == |x|
  {
    if |x| % 2 == 1 then ShiftedLeft(x)[0 := x[0]] else ShiftedLeft(x)
  }

  /** The bit shifted out, in the lowest place. */
  function CarryOf(x: Octets): bv8 {
    if |x| >= 2 then TopBit(x[|x| % 2]) else 0
  }

  /** A carry out of a block of a size that has no reduction. */
  predicate Refused(x: Octets) {
    CarryOf(x) != 0 && !HasReduction(|x|)
  }

  /** Multiplication by u in the field of 2^(8n) elements. */
  function Doubled(x: Octets): (d: Octets)
    requires !Refused(x)
    ensures |d| == |x|
  {
    if CarryOf(x) == 0 then ShiftedPairs(x) else Xor(ShiftedPairs(x), Reduction(|x|))
  }

  ghost function XorBits(a: seq<bool>, b: seq<bool>): (x: seq<bool>)
    requires |a| == |b|
  {
    seq(|a|, i requires 0 <= i < |a| => a[i] != b[i])
  }

  lemma {:induction false} XorBitString(a: Octets, b: Octets)
    requires |a| == |b|
    ensures BitString(Xor(a, b)) == XorBits(BitString(a), BitString(b))
  {
    if a != [] {
      XorBitString(a[1..], b[1..]);
      XorByte(a[0], b[0]);
      XorFirst(a, b);
      hide BitsOf, XorBits, Xor;
      XorBitsSplit(BitsOf(a[0]), BitString(a[1..]), BitsOf(b[0]), BitString(b[1..]));
    }
  }

  lemma XorFirst(a: Octets, b: Octets)
    requires |a| == |b| > 0
    ensures Xor(a, b) != [] && Xor(a, b)[0] == a[0] ^ b[0] && Xor(a, b)[1..] == Xor(a[1..], b[1..])
  {}

  lemma XorBit(a: bv8, b: bv8, mask: bv8)
    requires mask & (mask - 1) == 0
    ensures Bit(a ^ b, mask) == (Bit(a, mask) != Bit(b, mask))
  {}

  lemma XorByte(a: bv8, b: bv8)
    ensures BitsOf(a ^ b) == XorBits(BitsOf(a), BitsOf(b))
  {
    hide Bit;
    forall i | 0 <= i < 8 ensures BitsOf(a ^ b)[i] == XorBits(BitsOf(a), BitsOf(b))[i] {
      XorBit(a, b, Mask(i));
    }
  }

  lemma XorBitsSplit(s: seq<bool>, t: seq<bool>, u: seq<bool>, v: seq<bool>)
    requires |s| == |u| && |t| == |v|
    ensures XorBits(s + t, u + v) == XorBits(s, u) + XorBits(t, v)
  {}

  /** Section 6.1 of SP 800-38B: shift left, and add R when the bit shifted out was set. */
  lemma DoubledBits(x: Octets)
    requires HasReduction(|x|)
    ensures var shifted, r := BitString(x)[1..] + [false], BitString(Reduction(|x|));
            BitString(Doubled(x)) == if BitString(x)[0] then XorBits(shifted, r) else shifted
  {
    DoubledIs(x);
    hide *;
    ShiftedLeftBits(x);
    XorBitString(ShiftedLeft(x), Reduction(|x|));
  }

  lemma DoubledIs(x: Octets)
    requires HasReduction(|x|)
    ensures BitString(x) != [] && |BitString(x)[1..] + [false]| == |BitString(Reduction(|x|))|
    ensures Doubled(x) == if BitString(x)[0] then Xor(ShiftedLeft(x), Reduction(|x|)) else ShiftedLeft(x)
  {
    TopOfBits(x);
    EvenPairs(x);
    hide BitString, ShiftedLeft, ShiftedPairs, CarryOf, Reduction, Xor;
  }

  lemma EvenPairs(x: Octets)
    requires |x| % 2 == 0
    ensures ShiftedPairs(x) == ShiftedLeft(x)
    ensures x != [] ==> CarryOf(x) == TopBit(x[0])
  {}

  lemma TopOfBits(x: Octets)
    requires x != []
    ensures BitString(x) != [] && BitString(x)[0] == (TopBit(x[0]) != 0)
  {
    FirstBits(x);
    ShiftIsSum(x[0], 0);
  }

  /** What each size does to the last bytes. */
  lemma LastReduced(s: Octets)
    requires HasReduction(|s|)
    ensures Xor(s, Reduction(|s|))
         == if |s| == 8 then s[7 := s[7] ^ 0x1b] else if |s| == 16 then s[15 := s[15] ^ 0x87]
            else s[30 := s[30] ^ 4][31 := s[31] ^ 0x23]
  {
    forall i | 0 <= i < |s| ensures s[i] ^ 0 == s[i] {
      XorZero(s[i]);
    }
  }

  function TopBit(b: bv8): bv8 {
    b >> 7
  }

  function TwicePlus(b: bv8, carry: bv8): bv8 {
    b + (b + carry)
  }

  lemma ShiftIsSum(b: bv8, next: bv8)
    ensures TwicePlus(b, TopBit(next)) == ShiftByte(b, next)
    ensures TopBit(0) == 0 && (TopBit(b) == 0 <==> b & 0x80 == 0)
  {}

  /** Doubling a key in place, two bytes at a time from the end, with carries that alternate. A carry out
      of a block of unsupported size is an error. */
  method MulU(k: array<bv8>, at: nat, length: nat) returns (ok: bool)
    requires at + length <= k.Length
    modifies k
    ensures ok == !Refused(old(k[at..at + length]))
    ensures ok ==> k[at..at + length] == Doubled(old(k[at..at + length]))
    ensures k[..at] == old(k[..at]) && k[at + length..] == old(k[at + length..])
  {
    hide ShiftedPairs, ShiftedLeft, CarryOf, Xor, Reduction;
    var carry := ShiftInPlace(k, at, length);
    ok := true;
    if carry != 0 {
      ok := ReduceInPlace(k, at, length);
    }
  }

  /** Adds the constant to a shifted block, by its size. */
  method ReduceInPlace(k: array<bv8>, at: nat, length: nat) returns (ok: bool)
    requires at + length <= k.Length
    modifies k
    ensures ok == HasReduction(length)
    ensures ok ==> k[at..at + length] == Xor(old(k[at..at + length]), Reduction(length))
    ensures k[..at] == old(k[..at]) && k[at + length..] == old(k[at + length..])
  {
    if HasReduction(length) { LastReduced(k[at..at + length]); }
    hide *;
    ok := true;
    match length {
      case 8 =>
        XorByteAt(k, at, length, 7, 0x1b);
      case 16 =>
        XorByteAt(k, at, length, 15, 0x87);
      case 32 =>
        XorByteAt(k, at, length, 30, 4);
        XorByteAt(k, at, length, 31, 0x23);
      case _ =>
        ok := false;
    }
  }

  /** k[at + j] ^= b, inside a block. */
  method XorByteAt(k: array<bv8>, at: nat, length: nat, j: nat, b: bv8)
    requires at + length <= k.Length && j < length
    modifies k
    ensures k[at..at + length] == var s := old(k[at..at + length]); s[j := s[j] ^ b]
    ensures k[..at] == old(k[..at]) && k[at + length..] == old(k[at + length..])
  {
    k[at + j] := k[at + j] ^ b;
  }

  /** Bytes after `i` are shifted, the others not yet. */
  ghost predicate Halfway(x: Octets, s: Octets, i: int) {
    && |s| == |x|
    && (forall j :: 0 <= j < |x| && j <= i ==> s[j] == x[j])
    && (forall j :: 0 <= j < |x| && j > i ==> s[j] == ShiftedLeft(x)[j])
  }

  /** The top bit of the byte after `i`. */
  ghost function NextTop(x: Octets, i: int): bv8
    requires i >= -1
  {
    TopBit(if i + 1 < |x| then x[i + 1] else 0)
  }

  lemma PairShifted(x: Octets, s: Octets, i: int, carry: bv8)
    requires Halfway(x, s, i) && 1 <= i < |x| && carry == NextTop(x, i)
    ensures Halfway(x, s[i := TwicePlus(s[i], carry)][i - 1 := TwicePlus(s[i - 1], TopBit(s[i]))], i - 2)
  {
    ShiftIsSum(x[i], if i + 1 < |x| then x[i + 1] else 0);
    ShiftIsSum(x[i - 1], x[i]);
    hide TopBit, ShiftByte, TwicePlus;
  }

  method ShiftInPlace(k: array<bv8>, at: nat, length: nat) returns (carry: bv8)
    requires at + length <= k.Length
    modifies k
    ensures k[at..at + length] == ShiftedPairs(old(k[at..at + length]))
    ensures carry == CarryOf(old(k[at..at + length]))
    ensures k[..at] == old(k[..at]) && k[at + length..] == old(k[at + length..])
  {
    ghost var x := k[at..at + length];
    ShiftEnds(x, x, length - 1, 0);
    hide *;
    carry := 0;
    var i: int := length - 1;
    ghost var pairs: nat := 0;
    while i >= 1
      invariant -1 <= i == length - 1 - 2 * pairs
      invariant carry == NextTop(x, i)
      invariant Halfway(x, k[at..at + length], i)
      invariant k[..at] == old(k[..at]) && k[at + length..] == old(k[at + length..])
    {
      carry := ShiftPair(k, at, length, i, carry, x);
      i := i - 2;
      pairs := pairs + 1;
    }
    ShiftEnds(x, k[at..at + length], i, pairs);
  }

  /** Before the first byte is shifted, and after the last. */
  lemma ShiftEnds(x: Octets, s: Octets, i: int, pairs: nat)
    requires -1 <= i == |x| - 1 - 2 * pairs
    ensures i == |x| - 1 ==> Halfway(x, x, i)
    ensures i < 1 && Halfway(x, s, i) ==> s == ShiftedPairs(x)
    ensures i == |x| - 1 ==> NextTop(x, i) == 0
    ensures i < 1 ==> CarryOf(x) == NextTop(x, i)
  {
    ShiftIsSum(0, 0);
    hide ShiftedLeft, TopBit;
  }

  /** Two bytes: each is doubled with the top bit of the byte after it. */
  method ShiftPair(k: array<bv8>, at: nat, length: nat, i: nat, carry: bv8, ghost x: Octets) returns (carry': bv8)
    requires at + length <= k.Length && |x| == length && 1 <= i < length
    requires carry == NextTop(x, i) && Halfway(x, k[at..at + length], i)
    modifies k
    ensures carry' == NextTop(x, i - 2) && Halfway(x, k[at..at + length], i - 2)
    ensures k[..at] == old(k[..at]) && k[at + length..] == old(k[at + length..])
  {
    ghost var s := k[at..at + length];
    PairShifted(x, s, i, carry);
    assert s[i] == x[i] && s[i - 1] == x[i - 1];
    hide TopBit, TwicePlus, Halfway;
    var carry2 := TopBit(k[at + i]);
    k[at + i] := TwicePlus(k[at + i], carry);
    carry' := TopBit(k[at + i - 1]);
    k[at + i - 1] := TwicePlus(k[at + i - 1], carry2);
    assert k[at..at + length] == s[i := TwicePlus(s[i], carry)][i - 1 := TwicePlus(s[i - 1], TopBit(s[i]))];
  }

  // ---------- The MAC ----------

  /** Neither doubling runs into a carry that it cannot reduce. */
  ghost predicate Supported(c: BlockCipher) {
    c.Valid() && Keyable(c)
  }

  ghost predicate Keyable(c: BlockCipher)
    requires c.Valid()
  {
    var x := c.Encrypt(Zeros(c.size));
    !Refused(x) && !Refused(Doubled(x))
  }

  /** Blocks of 8, 16 and 32 bytes never are refused. */
  lemma UsualSizes(c: BlockCipher)
    requires c.Valid() && HasReduction(c.size)
    ensures Supported(c)
  {}

  /** The subkeys of section 6.1 of SP 800-38B. */
  function K1(c: BlockCipher): (k: Octets)
    requires Supported(c)
    ensures |k| == c.size
  {
    Doubled(c.Encrypt(Zeros(c.size)))
  }

  function K2(c: BlockCipher): (k: Octets)
    requires Supported(c)
    ensures |k| == c.size
  {
    Doubled(K1(c))
  }

  /** The last block: whole, or ended by a bit and filled up with zeros. */
  function LastBlock(c: BlockCipher, tail: Octets): (b: Octets)
    requires Supported(c) && |tail| <= c.size
    ensures |b| == c.size
  {
    if |tail| == c.size then Xor(tail, K1(c)) else Xor(tail + [0x80] + Zeros(c.size - |tail| - 1), K2(c))
  }

  /** Section 6.2 of SP 800-38B, from a chaining value on. */
  ghost function MacFrom(c: BlockCipher, state: Octets, message: Octets): (r: Octets)
    requires Supported(c) && |state| == c.size
    ensures |r| == c.size
    decreases |message|
  {
    if |message| <= c.size then c.Encrypt(Xor(state, LastBlock(c, message)))
    else MacFrom(c, c.Encrypt(Xor(state, message[..c.size])), message[c.size..])
  }

  ghost function Mac(c: BlockCipher, message: Octets): (r: Octets)
    requires Supported(c)
    ensures |r| == c.size
  {
    MacFrom(c, Zeros(c.size), message)
  }

  /** All that matters of a message so far is the state and the last, perhaps full, block. */
  lemma {:induction false} MacOfAbsorbed(c: BlockCipher, state: Octets, message: Octets)
    requires Supported(c) && |state| == c.size
    ensures var (state', tail) := Absorbed(c, c.size, state, message);
            MacFrom(c, state, message) == c.Encrypt(Xor(state', LastBlock(c, tail)))
    decreases |message|
  {
    if |message| > c.size {
      MacOfAbsorbed(c, c.Encrypt(Xor(state, message[..c.size])), message[c.size..]);
    }
  }

  class Cmac {
    const cipher: BlockCipher
    /** The register and the two subkeys. */
    const reg: array<bv8>
    var counter: nat
    /** The message so far, the chaining value, and the octets folded into the register since. */
    ghost var message: Octets
    ghost var state: Octets
    ghost var tail: Octets

    ghost predicate Keyed()
      reads this, reg
    {
      && Supported(cipher) && reg.Length == 3 * cipher.size
      && reg[cipher.size..] == K1(cipher) + K2(cipher)
      && Folded(reg[..], cipher.size, state, tail) && counter == |tail|
    }

    ghost predicate Valid()
      reads this, reg
    {
      Keyed() && Absorbed(cipher, cipher.size, Zeros(cipher.size), message) == (state, tail)
    }

    /** With a register that holds the subkeys. */
    constructor (cipher: BlockCipher, reg: array<bv8>)
      requires Supported(cipher) && reg.Length == 3 * cipher.size
      requires reg[..][..cipher.size] == Zeros(cipher.size) && reg[cipher.size..] == K1(cipher) + K2(cipher)
      ensures Valid() && this.reg == reg && this.cipher == cipher && message == []
    {
      this.cipher, this.reg := cipher, reg;
      counter := 0;
      message, state, tail := [], Zeros(cipher.size), [];
      new;
      hide Doubled, Xor;
      FoldNothing(reg[..], cipher.size, state);
    }

    /** Setting the key derives the subkeys, or refuses the cipher. */
    static method Create(cipher: BlockCipher) returns (mac: Cmac?)
      requires cipher.Valid()
      ensures mac == null <==> !Supported(cipher)
      ensures mac != null ==>
        fresh(mac) && fresh(mac.reg) && mac.Valid() && mac.cipher == cipher && mac.message == []
    {
      var reg := new bv8[3 * cipher.size](_ => 0);
      assert reg[..] == Zeros(3 * cipher.size);
      var ok := DeriveSubkeys(cipher, reg);
      hide *;
      mac := null;
      if ok {
        mac := new Cmac(cipher, reg);
      }
    }

    /** Octets folded into the block being filled. */
    method Fold(x: Octets)
      requires Keyed() && counter + |x| <= cipher.size
      modifies this`counter, this`tail, reg
      ensures Keyed() && tail == old(tail) + x && counter == old(counter) + |x|
    {
      hide Xor, K1, K2, Keyable;
      ghost var was := reg[..];
      XorInto(reg, counter, x);
      FoldMore(was, reg[..], cipher.size, state, tail, x);
      assert reg[cipher.size..] == reg[..][cipher.size..] && was[cipher.size..] == old(reg[cipher.size..]);
      counter := counter + |x|;
      tail := tail + x;
    }

    /** A full block through the cipher. */
    method ProcessFull()
      requires Keyed() && counter == cipher.size
      modifies this`counter, this`state, this`tail, reg
      ensures Keyed() && counter == 0 && tail == []
      ensures state == cipher.Encrypt(Xor(old(state), old(tail)))
    {
      hide Xor, K1, K2, Keyable;
      FoldBlock(reg[..], cipher.size, state, tail);
      ProcessBlock(cipher, reg, 0);
      counter := 0;
      state, tail := cipher.Encrypt(Xor(state, tail)), [];
      FoldNothing(reg[..], cipher.size, state);
    }

    /** Tops up a block that has been begun; it is processed when more follows. */
    method TopUp(input: Octets) returns (left: nat)
      requires Keyed() && counter > 0 && input != []
      modifies this`counter, this`state, this`tail, reg
      ensures Keyed() && left <= |input| && (left > 0 ==> counter == 0)
      ensures Absorbed(cipher, cipher.size, state, tail + input[|input| - left..])
           == Absorbed(cipher, cipher.size, old(state), old(tail) + input)
    {
      hide K1, K2, Xor, Keyable;
      var len := if cipher.size - counter < |input| then cipher.size - counter else |input|;
      left := |input| - len;
      Fold(input[..len]);
      assert old(tail) + input == tail + input[len..];
      if counter == cipher.size && left > 0 {
        AbsorbFull(cipher, state, tail, input[len..]);
        ProcessFull();
      }
    }

    /** All blocks but the last, which may be full. */
    method TakeBlocks(input: Octets) returns (left: nat)
      requires Keyed() && counter == 0 && |input| > cipher.size
      modifies this`state, reg
      ensures Keyed() && 0 < left <= cipher.size && left <= |input|
      ensures Absorbed(cipher, cipher.size, state, input[|input| - left..])
           == Absorbed(cipher, cipher.size, old(state), input)
    {
      hide K1, K2, Xor, Chain, Keyable;
      FoldNothing(reg[..], cipher.size, state);
      left := AdvancedProcessBlocks(cipher, reg, 0, input, |input| - 1);
      left := left + 1;
      AbsorbBlocks(cipher, cipher.size, state, input, |input| - left);
      state := Chain(cipher, state, input[..|input| - left]);
      FoldNothing(reg[..], cipher.size, state);
    }

    /** Any part of the message. */
    method Update(input: Octets)
      requires Valid()
      modifies this`counter, this`message, this`state, this`tail, reg
      ensures Valid() && message == old(message) + input
    {
      hide K1, K2, Absorbed, Folded, Keyable;
      assert message + [] == message;
      if input == [] {
        return;
      }
      AbsorbMore(cipher, cipher.size, Zeros(cipher.size), message, input);
      message := message + input;
      var left := |input|;
      assert input[0..] == input;
      if counter > 0 {
        left := TopUp(input);
      } else {
        assert tail + input == input;
      }
      if left > cipher.size {
        assert counter == 0 && tail == [] && [] + input[|input| - left..] == input[|input| - left..];
        var last := TakeBlocks(input[|input| - left..]);
        assert input[|input| - left..][left - last..] == input[|input| - last..];
        left := last;
        assert [] + input[|input| - left..] == input[|input| - left..];
      }
      if left > 0 {
        Fold(input[|input| - left..]);
      }
      assert tail + [] == tail;
      NothingToAbsorb(cipher, reg[..], state, tail);
    }

    /** The MAC's first octets, and a fresh start; longer than a block it cannot be. */
    method TruncatedFinal(size: nat) returns (r: Truncated<bv8>)
      requires Valid()
      modifies this`counter, this`message, this`state, this`tail, reg
      ensures Valid()
      ensures size <= cipher.size ==> r == Digest(Mac(cipher, old(message))[..size]) && message == []
      ensures size > cipher.size ==> r == InvalidSize && message == old(message)
    {
      if size > cipher.size {
        return InvalidSize;
      }
      MacOfAbsorbed(cipher, Zeros(cipher.size), message);
      ghost var mac := Mac(cipher, message);
      FinishBlock();
      assert reg[..cipher.size] == mac;
      hide Xor, K1, K2, Mac, Keyable;
      r := Digest(reg[..size]);
      assert reg[..size] == reg[..cipher.size][..size];
      counter := 0;
      ghost var was := reg[..];
      forall i | 0 <= i < cipher.size {
        reg[i] := 0;
      }
      message, state, tail := [], Zeros(cipher.size), [];
      assert reg[cipher.size..] == was[cipher.size..];
      assert reg[..][..cipher.size] == Zeros(cipher.size);
      FoldNothing(reg[..], cipher.size, state);
    }

    /** A bit after the last octet. */
    method MarkEnd()
      requires Keyed() && counter < cipher.size
      modifies this`tail, reg
      ensures Supported(cipher) && reg.Length == 3 * cipher.size
      ensures reg[cipher.size..] == old(reg[cipher.size..]) && tail == old(tail) + [0x80]
      ensures Folded(reg[..], cipher.size, state, tail)
    {
      hide K1, K2, Keyable;
      ghost var was := reg[..];
      reg[counter] := reg[counter] ^ 0x80;
      FoldOne(was, reg[..], cipher.size, state, tail, 0x80);
      tail := tail + [0x80];
      assert reg[cipher.size..] == reg[..][cipher.size..] && was[cipher.size..] == old(reg[cipher.size..]);
    }

    /** The subkey at `at` added to the last block, which then goes through the cipher. */
    method ProcessWithKey(at: nat, ghost block: Octets)
      requires cipher.Valid() && |state| == |block| == cipher.size <= at && at + cipher.size <= reg.Length
      requires reg[..][..cipher.size] == Xor(state, block)
      modifies reg
      ensures reg[cipher.size..] == old(reg[cipher.size..])
      ensures reg[..cipher.size] == cipher.Encrypt(Xor(state, Xor(block, old(reg[at..at + cipher.size]))))
    {
      KeyedBlock(cipher, state, block, reg[at..at + cipher.size]);
      hide *;
      assert reg[0..cipher.size] == reg[..][..cipher.size];
      var left := AdvancedProcessBlocks(cipher, reg, 0, reg[at..at + cipher.size], cipher.size);
    }

    /** An incomplete last block, with its end marked and the second subkey. */
    method FinishShort()
      requires Keyed() && counter < cipher.size
      modifies this`tail, reg
      ensures Supported(cipher) && reg.Length == 3 * cipher.size
      ensures reg[cipher.size..] == old(reg[cipher.size..])
      ensures reg[..cipher.size] == cipher.Encrypt(Xor(state, LastBlock(cipher, old(tail))))
    {
      hide K1, K2, Xor, Keyable;
      var n := cipher.size;
      MarkEnd();
      FoldBlock(reg[..], n, state, tail);
      Subkeys(reg[..], cipher);
      assert reg[2 * n..2 * n + n] == reg[..][2 * n..3 * n];
      assert LastBlock(cipher, old(tail)) == Xor(tail + Zeros(n - |tail|), K2(cipher));
      hide Folded, Supported, LastBlock;
      ProcessWithKey(2 * n, tail + Zeros(n - |tail|));
    }

    method FinishBlock()
      requires Keyed()
      modifies this`tail, reg
      ensures Supported(cipher) && reg.Length == 3 * cipher.size
      ensures reg[cipher.size..] == old(reg[cipher.size..])
      ensures reg[..cipher.size] == cipher.Encrypt(Xor(state, LastBlock(cipher, old(tail))))
    {
      hide K1, K2, Xor, Keyable;
      var n := cipher.size;
      if counter < n {
        FinishShort();
      } else {
        Subkeys(reg[..], cipher);
        FoldBlock(reg[..], n, state, tail);
        assert reg[n..n + n] == reg[..][n..2 * n];
        assert LastBlock(cipher, tail) == Xor(tail, K1(cipher));
        hide Folded, Supported, LastBlock;
        ProcessWithKey(n, tail);
      }
    }
  }

  lemma KeyedBlock(c: BlockCipher, state: Octets, block: Octets, key: Octets)
    requires c.Valid() && |state| == |block| == |key| == c.size
    ensures key[..c.size - LeftOver(c.size, c.size)] == key
    ensures Chain(c, Xor(state, block), key) == c.Encrypt(Xor(state, Xor(block, key)))
  {
    XorAssociates(state, block, key);
    OneBlock(c, Xor(state, block), key);
  }

  lemma Subkeys(a: Octets, c: BlockCipher)
    requires Supported(c) && |a| == 3 * c.size && a[c.size..] == K1(c) + K2(c)
    ensures a[c.size..2 * c.size] == K1(c) && a[2 * c.size..3 * c.size] == K2(c)
  {
    hide K1, K2, Keyable;
    var n, k := c.size, a[c.size..];
    assert k[..n] == K1(c) && k[n..] == K2(c);
    assert a[n..2 * n] == k[..n];
    assert a[2 * n..3 * n] == k[n..];
  }

  lemma NothingToAbsorb(c: BlockCipher, a: Octets, state: Octets, tail: Octets)
    requires c.Valid() && Folded(a, c.size, state, tail)
    ensures Absorbed(c, c.size, state, tail) == (state, tail)
  {}

  /** A full block that is followed by more is chained. */
  lemma AbsorbFull(c: BlockCipher, state: Octets, block: Octets, more: Octets)
    requires c.Valid() && |state| == |block| == c.size && more != []
    ensures Absorbed(c, c.size, state, block + more)
         == Absorbed(c, c.size, c.Encrypt(Xor(state, block)), [] + more)
  {
    assert (block + more)[..c.size] == block && (block + more)[c.size..] == [] + more;
  }

  /** A register and two subkeys. */
  ghost predicate Parts(a: Octets, n: nat, r: Octets, k1: Octets, k2: Octets) {
    |a| == 3 * n && a[..n] == r && a[n..2 * n] == k1 && a[2 * n..] == k2
  }

  lemma PartsChanged(a: Octets, a': Octets, n: nat, r: Octets, k1: Octets, k2: Octets)
    requires Parts(a, n, r, k1, k2) && |a'| == 3 * n
    ensures a'[..n] == a[..n] && a'[2 * n..] == a[2 * n..] ==> Parts(a', n, r, a'[n..2 * n], k2)
    ensures a'[..2 * n] == a[..2 * n] ==> Parts(a', n, r, k1, a'[2 * n..3 * n])
  {
    assert a[n..2 * n] == a[..2 * n][n..] && a[..n] == a[..2 * n][..n];
    assert a'[n..2 * n] == a'[..2 * n][n..] && a'[..n] == a'[..2 * n][..n];
    assert a'[2 * n..3 * n] == a'[2 * n..];
  }

  method DeriveSubkeys(c: BlockCipher, reg: array<bv8>) returns (ok: bool)
    requires c.Valid() && reg[..] == Zeros(3 * c.size)
    modifies reg
    ensures ok == Supported(c)
    ensures ok ==> reg[..][..c.size] == Zeros(c.size) && reg[c.size..] == K1(c) + K2(c)
  {
    hide Doubled, Refused, Xor;
    var n, z := c.size, Zeros(c.size);
    assert Parts(reg[..], n, z, z, z);
    ghost var a0 := reg[..];
    ProcessBlock(c, reg, n);
    PartsChanged(a0, reg[..], n, z, z, z);
    ghost var a1 := reg[..];
    ok := MulU(reg, n, n);
    if ok {
      PartsChanged(a1, reg[..], n, z, c.Encrypt(z), z);
      ok := SecondSubkey(c, reg);
    }
  }

  /** The second subkey is the first one doubled. */
  method SecondSubkey(c: BlockCipher, reg: array<bv8>) returns (ok: bool)
    requires c.Valid() && !Refused(c.Encrypt(Zeros(c.size)))
    requires Parts(reg[..], c.size, Zeros(c.size), Doubled(c.Encrypt(Zeros(c.size))), Zeros(c.size))
    modifies reg
    ensures ok == Supported(c)
    ensures ok ==> reg[..][..c.size] == Zeros(c.size) && reg[c.size..] == K1(c) + K2(c)
  {
    hide Doubled, Refused, Xor;
    var n: nat, z := c.size, Zeros(c.size);
    ghost var k1 := Doubled(c.Encrypt(z));
    ghost var a2 := reg[..];
    forall i | 0 <= i < n {
      reg[2 * n + i] := reg[n + i];
    }
    PartsChanged(a2, reg[..], n, z, k1, z);
    assert reg[2 * n..3 * n] == k1;
    ghost var a3 := reg[..];
    ok := MulU(reg, 2 * n, n);
    if ok {
      PartsChanged(a3, reg[..], n, z, k1, k1);
      PartsTogether(reg[..], n, z, K1(c), K2(c));
    }
  }

  lemma PartsTogether(a: Octets, n: nat, r: Octets, k1: Octets, k2: Octets)
    requires Parts(a, n, r, k1, k2)
    ensures a[n..] == k1 + k2
  {}

  /** A message put in piece by piece has the MAC of the message, with any cipher that is not refused. */
  method MacOfPieces(c: BlockCipher, pieces: seq<Octets>, size: nat) returns (ok: bool, r: Truncated<bv8>)
    requires c.Valid()
    ensures ok == Supported(c)
    ensures ok ==> r == if size <= c.size then Digest(Mac(c, Flatten(pieces))[..size]) else InvalidSize
  {
    hide *;
    var mac := Cmac.Create(c);
    ok, r := mac != null, InvalidSize;
    if mac == null {
      return;
    }
    FlattenNothing(pieces);
    for i := 0 to |pieces|
      invariant mac.Valid() && mac.cipher == c && fresh(mac) && fresh(mac.reg)
      invariant mac.message == Flatten(pieces[..i])
    {
      FlattenPush(pieces, i);
      mac.Update(pieces[i]);
    }
    assert pieces[..|pieces|] == pieces;
    r := mac.TruncatedFinal(size);
  }
}
