/** Counter with CBC-MAC: the streaming authenticator of authenc.cpp with the hooks of ccm.cpp. */
module AuthenticatedCiphers {
  import opened ByteStrings
  import opened BlockChaining

  const BLOCK: nat := 16

  /** 2^k for the few k that lengths are compared with. */
  function Pow256(n: nat): (p: nat)
    ensures p >= 1
  {
    if n == 0 then 1 else 256 * Pow256(n - 1)
  }

  /** `v` in `n` octets, most significant first. */
  function Word(v: nat, n: nat): (s: Octets)
    ensures |s| == n
  {
    seq(n, i requires 0 <= i < n => BigEndian(v, n)[i] as bv8)
  }

  lemma {:induction false} BigEndianSuffix(v: nat, n: nat, m: nat)
    requires m <= n
    ensures BigEndian(v, n)[n - m..] == BigEndian(v, m)
  {
    if m > 0 {
      BigEndianSuffix(v / 256, n - 1, m - 1);
      assert BigEndian(v, n)[n - m..] == BigEndian(v / 256, n - 1)[n - m..] + [v % 256];
    }
  }

  /** The low octets of a word are the number in a shorter word. */
  lemma WordSuffix(v: nat, n: nat, m: nat)
    requires m <= n
    ensures Word(v, n)[n - m..] == Word(v, m)
  {
    BigEndianSuffix(v, n, m);
    forall i | 0 <= i < m ensures Word(v, n)[n - m..][i] == Word(v, m)[i] {
      assert BigEndian(v, n)[n - m..][i] == BigEndian(v, n)[n - m + i];
    }
  }

  // ---------- What RFC 3610 says ----------

  /** Whether there is a header, the size of the tag, and the size of the length, in one octet. */
  function Flags(hasHeader: bool, digestSize: nat, lengthSize: nat): bv8
    requires 4 <= digestSize <= 16 && 1 <= lengthSize <= 8
  {
    ((if hasHeader then 64 else 0) + 8 * ((digestSize - 2) / 2) + (lengthSize - 1)) as bv8
  }

  /** The block B_0 of section 2.2: flags, nonce, and the message length in the rest of the block. */
  ghost function FirstBlock(digestSize: nat, nonce: Octets, hasHeader: bool, messageLength: nat): (b: Octets)
    requires 4 <= digestSize <= 16 && 7 <= |nonce| <= 13
    ensures |b| == BLOCK
  {
    [Flags(hasHeader, digestSize, 15 - |nonce|)] + nonce + Word(messageLength, 15 - |nonce|)
  }

  /** The header's length, in front of the header. */
  function LengthPrefix(length: nat): (p: Octets)
    ensures |p| <= 10
  {
    if length == 0 then []
    else if length < 0x1_0000 - 0x100 then Word(length, 2)
    else if length < 0x1_0000_0000 then [0xff, 0xfe] + Word(length, 4)
    else [0xff, 0xff] + Word(length, 8)
  }

  /** Section 2.2: the CBC-MAC of B_0, the header with its length, and the message, both padded. */
  ghost function MacBlocks(digestSize: nat, nonce: Octets, header: Octets, message: Octets): Octets
    requires 4 <= digestSize <= 16 && 7 <= |nonce| <= 13
  {
    FirstBlock(digestSize, nonce, header != [], |message|)
      + Padded(LengthPrefix(|header|) + header, BLOCK) + Padded(message, BLOCK)
  }

  type Keystream = (Octets, nat) -> bv8

  /** The key stream's octets from `position` on. */
  function Stream(k: Keystream, iv: Octets, position: nat, n: nat): (s: Octets)
    ensures |s| == n
  {
    seq(n, i requires 0 <= i < n => k(iv, position + i))
  }

  /** The counter block A_0 of section 2.3. */
  function CounterBlock(nonce: Octets): (b: Octets)
    requires 7 <= |nonce| <= 13
    ensures |b| == BLOCK
  {
    [(14 - |nonce|) as bv8] + nonce + Zeros(15 - |nonce|)
  }

  /** Section 2.3: the message is encrypted with the key stream's blocks from S_1 on. */
  function Crypt(k: Keystream, nonce: Octets, text: Octets): (r: Octets)
    requires 7 <= |nonce| <= 13
    ensures |r| == |text|
  {
    Xor(text, Stream(k, CounterBlock(nonce), BLOCK, |text|))
  }

  lemma CryptInverts(k: Keystream, nonce: Octets, text: Octets)
    requires 7 <= |nonce| <= 13
    ensures Crypt(k, nonce, Crypt(k, nonce, text)) == text
  {
    var s := Stream(k, CounterBlock(nonce), BLOCK, |text|);
    forall i | 0 <= i < |text| ensures (text[i] ^ s[i]) ^ s[i] == text[i] {
      XorTwice(text[i], s[i]);
    }
  }

  lemma XorTwice(a: bv8, b: bv8)
    ensures (a ^ b) ^ b == a
  {}

  /** Section 2.3: the authentication value, before it is cut: the CBC-MAC encrypted with S_0. */
  ghost function Tag(
    c: BlockCipher, k: Keystream, digestSize: nat, nonce: Octets, header: Octets, message: Octets)
    : (t: Octets)
    requires c.Valid() && c.size == BLOCK && 4 <= digestSize <= 16 && 7 <= |nonce| <= 13
    ensures |t| == BLOCK
  {
    Xor(Chain(c, Zeros(BLOCK), MacBlocks(digestSize, nonce, header, message)),
        Stream(k, CounterBlock(nonce), 0, BLOCK))
  }

  // ---------- How the state gets there ----------

  /** The chaining value when the header is complete. */
  ghost function HeaderState(
    c: BlockCipher, digestSize: nat, nonce: Octets, aadLength: nat, messageLength: nat, header: Octets)
    : (s: Octets)
    requires c.Valid() && c.size == BLOCK && 4 <= digestSize <= 16 && 7 <= |nonce| <= 13
    ensures |s| == BLOCK
  {
    Closed(c, HeaderSoFar(c, digestSize, nonce, aadLength, messageLength, header))
  }

  ghost function HeaderSoFar(
    c: BlockCipher, digestSize: nat, nonce: Octets, aadLength: nat, messageLength: nat, header: Octets)
    : (r: (Octets, Octets))
    requires c.Valid() && c.size == BLOCK && 4 <= digestSize <= 16 && 7 <= |nonce| <= 13
    ensures |r.0| == BLOCK && |r.1| < BLOCK
  {
    var x1 := c.Encrypt(FirstBlock(digestSize, nonce, aadLength > 0, messageLength));
    Absorbed(c, BLOCK - 1, x1, LengthPrefix(aadLength) + header)
  }

  ghost function MessageSoFar(
    c: BlockCipher, digestSize: nat, nonce: Octets, aadLength: nat, messageLength: nat, header: Octets, text: Octets)
    : (r: (Octets, Octets))
    requires c.Valid() && c.size == BLOCK && 4 <= digestSize <= 16 && 7 <= |nonce| <= 13
    ensures |r.0| == BLOCK && |r.1| < BLOCK
  {
    Absorbed(c, BLOCK - 1, HeaderState(c, digestSize, nonce, aadLength, messageLength, header), text)
  }

  /** When both lengths are as announced, closing the message gives the CBC-MAC of RFC 3610. */
  lemma MessageStateIsMac(c: BlockCipher, digestSize: nat, nonce: Octets, header: Octets, text: Octets)
    requires c.Valid() && c.size == BLOCK && 4 <= digestSize <= 16 && 7 <= |nonce| <= 13
    ensures Closed(c, MessageSoFar(c, digestSize, nonce, |header|, |text|, header, text))
         == Chain(c, Zeros(BLOCK), MacBlocks(digestSize, nonce, header, text))
  {
    var b0 := FirstBlock(digestSize, nonce, header != [], |text|);
    var aad := LengthPrefix(|header|) + header;
    hide Chain, Absorbed, Closed, Padded, FirstBlock, LengthPrefix;
    ZeroState(c, b0);
    ClosedIsChain(c, c.Encrypt(b0), aad);
    ClosedIsChain(c, Chain(c, c.Encrypt(b0), Padded(aad, BLOCK)), text);
    PaddedLength(aad, BLOCK);
    OneBlock(c, Zeros(BLOCK), b0);
    ChainConcatenation(c, Zeros(BLOCK), b0, Padded(aad, BLOCK) + Padded(text, BLOCK));
    ChainConcatenation(c, c.Encrypt(b0), Padded(aad, BLOCK), Padded(text, BLOCK));
    assert b0 + Padded(aad, BLOCK) + Padded(text, BLOCK) == b0 + (Padded(aad, BLOCK) + Padded(text, BLOCK));
  }

  lemma ZeroState(c: BlockCipher, b: Octets)
    ensures Xor(Zeros(|b|), b) == b
  {
    forall i | 0 <= i < |b| ensures 0 ^ b[i] == b[i] {
      XorFromZero(b[i]);
    }
  }

  lemma XorFromZero(b: bv8)
    ensures 0 ^ b == b
  {}

  /** The key stream is used on from where it was left. */
  lemma CryptMore(k: Keystream, nonce: Octets, text: Octets, more: Octets)
    requires 7 <= |nonce| <= 13
    ensures Crypt(k, nonce, text + more)
         == Crypt(k, nonce, text) + Xor(more, Stream(k, CounterBlock(nonce), BLOCK + |text|, |more|))
  {}

  // ---------- The streaming authenticator ----------

  /** a[at..] := data */
  method CopyInto(a: array<bv8>, at: nat, data: Octets)
    requires at + |data| <= a.Length
    modifies a
    ensures a[..at] == old(a[..at]) && a[at..at + |data|] == data
    ensures a[at + |data|..] == old(a[at + |data|..])
  {
    forall i | 0 <= i < |data| {
      a[at + i] := data[i];
    }
  }

  datatype Phase = KeySet | IVSet | AuthUntransformed | AuthTransformed | AuthFooter

  datatype Status = Ok | BadState | InvalidArgument

  class Ccm {
    const cipher: BlockCipher
    const keystream: Keystream
    const digestSize: nat
    const forward: bool
    /** The bytes not yet authenticated, and after them the CBC state. */
    const buffer: array<bv8>
    var phase: Phase
    var buffered: nat
    var totalHeaderLength: nat
    var totalMessageLength: nat
    var totalFooterLength: nat
    var lengthSize: nat
    var aadLength: nat
    var messageLength: nat
    /** The counter mode's start and how far it has got. */
    var ctrIv: Octets
    var position: nat
    /** The nonce, the header and the plaintext so far. */
    ghost var nonce: Octets
    ghost var header: Octets
    ghost var text: Octets
    /** Nothing has been put in or announced since the nonce was set. */
    ghost var untouched: bool
    /** The lengths were announced then, and no call has been refused since. */
    ghost var announced: bool

    ghost predicate Shape()
      reads this`buffered
    {
      && cipher.Valid() && cipher.size == BLOCK && 4 <= digestSize <= 16 && digestSize % 2 == 0
      && buffer.Length == 2 * BLOCK && buffered < BLOCK
    }

    /** The CBC state and the bytes to be added to it. */
    ghost function Held(): (Octets, Octets)
      requires Shape()
      reads this`buffered, buffer
    {
      (buffer[BLOCK..2 * BLOCK], buffer[..buffered])
    }

    /** All whole blocks go into the CBC state. */
    method AuthenticateBlocks(data: Octets) returns (left: nat)
      requires Shape()
      modifies buffer
      ensures left == LeftOver(|data|, BLOCK) && LeftOver(|data| - left, BLOCK) == 0
      ensures buffer[..BLOCK] == old(buffer[..BLOCK])
      ensures buffer[BLOCK..2 * BLOCK] == Chain(cipher, old(buffer[BLOCK..2 * BLOCK]), data[..|data| - left])
    {
      left := AdvancedProcessBlocks(cipher, buffer, BLOCK, data, |data|);
    }

    /** Puts `data` after the bytes that wait in the buffer. */
    method Append(data: Octets)
      requires Shape() && buffered + |data| <= BLOCK
      modifies buffer
      ensures buffer[BLOCK..2 * BLOCK] == old(buffer[BLOCK..2 * BLOCK])
      ensures buffer[..buffered + |data|] == old(buffer[..buffered]) + data
    {
      ghost var was := buffer[..];
      forall i | 0 <= i < |data| {
        buffer[buffered + i] := data[i];
      }
      assert forall k :: BLOCK <= k < 2 * BLOCK ==> buffer[k] == was[k];
      assert forall k :: 0 <= k < buffered ==> buffer[k] == was[k];
    }

    method AuthenticateData(input: Octets)
      requires Shape()
      modifies this`buffered, buffer
      ensures Shape()
      ensures Held() == Absorbed(cipher, BLOCK - 1, old(Held().0), old(Held().1) + input)
    {
      hide Chain, Absorbed;
      var rest := input;
      if buffered != 0 {
        if buffered + |input| >= BLOCK {
          rest := FillBlock(input);
        } else {
          BufferMore(input);
          return;
        }
      } else {
        assert old(Held().1) + input == input;
      }
      TakeBlocks(rest);
    }

    /** The whole blocks of what is left, which begins a block; the remainder waits. */
    method TakeBlocks(input: Octets)
      requires Shape() && buffered == 0
      modifies this`buffered, buffer
      ensures Shape() && Held() == Absorbed(cipher, BLOCK - 1, old(buffer[BLOCK..2 * BLOCK]), input)
    {
      hide Chain, Absorbed;
      var rest := input;
      ghost var state := buffer[BLOCK..2 * BLOCK];
      if |rest| >= BLOCK {
        var left := AuthenticateBlocks(rest);
        AbsorbBlocks(cipher, BLOCK - 1, state, rest, |rest| - left);
        rest := rest[|rest| - left..];
      }
      assert [] + rest == rest;
      BufferMore(rest);
    }

    /** A block that has been begun is completed. */
    method FillBlock(input: Octets) returns (rest: Octets)
      requires Shape() && buffered + |input| >= BLOCK
      modifies this`buffered, buffer
      ensures Shape() && buffered == 0
      ensures Absorbed(cipher, BLOCK - 1, buffer[BLOCK..2 * BLOCK], rest)
           == Absorbed(cipher, BLOCK - 1, old(Held().0), old(Held().1) + input)
    {
      var k := BLOCK - buffered;
      ghost var (state, begun) := Held();
      Append(input[..k]);
      rest := input[k..];
      ghost var block := begun + input[..k];
      assert begun + input == block + rest;
      AbsorbBlocks(cipher, BLOCK - 1, state, block + rest, BLOCK);
      assert (block + rest)[..BLOCK] == block && (block + rest)[BLOCK..] == rest;
      var left := AuthenticateBlocks(buffer[..BLOCK]);
      assert block[..BLOCK] == block;
      buffered := 0;
    }

    /** Too little to complete a block. */
    method BufferMore(input: Octets)
      requires Shape() && buffered + |input| < BLOCK
      modifies this`buffered, buffer
      ensures Shape()
      ensures Held() == Absorbed(cipher, BLOCK - 1, old(Held().0), old(Held().1) + input)
    {
      ShortRest(cipher, Held().0, Held().1 + input);
      Append(input);
      buffered := buffered + |input|;
    }

    /** The nonce in use, and the counter mode started from it. */
    ghost predicate Started()
      reads this`nonce, this`lengthSize, this`ctrIv
    {
      7 <= |nonce| <= 13 && lengthSize == 15 - |nonce| && ctrIv == CounterBlock(nonce)
    }

    ghost predicate Fresh()
      reads this, buffer
      requires Shape() && Started()
    {
      && phase == IVSet && buffered == 0 && header == [] && text == [] && position == BLOCK
      && totalHeaderLength == 0 && totalMessageLength == 0 && totalFooterLength == 0
      && buffer[1..1 + |nonce|] == nonce
    }

    /** What has been put in so far, in the terms of RFC 3610. */
    ghost predicate Tracked()
      reads this, buffer
      requires Shape() && Started()
    {
      && totalHeaderLength == |header|
      && (phase == IVSet ==>
            text == [] && totalMessageLength == 0 && totalFooterLength == 0 && position == BLOCK
            && Held() == HeaderSoFar(cipher, digestSize, nonce, aadLength, messageLength, header))
      && (phase == AuthUntransformed || phase == AuthTransformed ==>
            totalHeaderLength == aadLength && totalMessageLength == |text| && totalFooterLength == 0
            && position == BLOCK + |text|
            && Held() == MessageSoFar(cipher, digestSize, nonce, aadLength, messageLength, header, text))
      && (phase == AuthFooter ==> totalFooterLength > 0)
    }

    ghost predicate Valid()
      reads this, buffer
    {
      && Shape() && 2 <= lengthSize <= 8
      && (phase != KeySet ==> Started()) && (phase == AuthFooter ==> totalFooterLength > 0)
      && (phase == AuthUntransformed ==> forward) && (phase == AuthTransformed ==> !forward)
      && (untouched ==> phase == IVSet && Fresh())
      && (announced ==> phase != KeySet && Tracked())
    }

    function MaxMessageLength(): nat
      reads this
    {
      Pow256(lengthSize) - 1
    }

    /** Setting the key (SetKey without an IV). */
    constructor (cipher: BlockCipher, keystream: Keystream, digestSize: nat, forward: bool)
      requires cipher.Valid() && cipher.size == BLOCK && 4 <= digestSize <= 16 && digestSize % 2 == 0
      ensures Valid() && fresh(buffer) && phase == KeySet
      ensures this.cipher == cipher && this.keystream == keystream
      ensures this.digestSize == digestSize && this.forward == forward
    {
      this.cipher, this.keystream := cipher, keystream;
      this.digestSize, this.forward := digestSize, forward;
      buffer := new bv8[2 * BLOCK](_ => 0);
      phase, buffered, lengthSize := KeySet, 0, 8;
      untouched, announced := false, false;
    }

    /** Other block sizes and digest sizes are refused. */
    static method Create(cipher: BlockCipher, keystream: Keystream, digestSize: nat, forward: bool) returns (c: Ccm?)
      requires cipher.Valid()
      ensures c == null <==> cipher.size != BLOCK || digestSize % 2 > 0 || digestSize < 4 || digestSize > 16
      ensures c != null ==>
        fresh(c) && fresh(c.buffer) && c.Valid() && c.phase == KeySet && c.cipher == cipher && c.keystream == keystream
        && c.digestSize == digestSize && c.forward == forward
    {
      if cipher.size != BLOCK || digestSize % 2 > 0 || digestSize < 4 || digestSize > 16 {
        return null;
      }
      c := new Ccm(cipher, keystream, digestSize, forward);
    }

    /** A new nonce; the wrong length leaves only the key. */
    method Resynchronize(iv: Octets) returns (status: Status)
      requires Valid()
      modifies this, buffer
      ensures Valid()
      ensures 7 <= |iv| <= 13 ==> status == Ok && untouched && nonce == iv && phase == IVSet
      ensures !(7 <= |iv| <= 13) ==> status == InvalidArgument && phase == KeySet
    {
      hide *;
      ClearData();
      if !(7 <= |iv| <= 13) {
        return InvalidArgument;
      }
      Resync(iv);
      phase := IVSet;
      nonce, header, text := iv, [], [];
      untouched := true;
      FreshIsValid();
      status := Ok;
    }

    lemma FreshIsValid()
      requires Shape() && phase == IVSet && 7 <= |nonce| <= 13 && lengthSize == 15 - |nonce| && untouched && !announced
      requires ctrIv == CounterBlock(nonce) && position == BLOCK && buffer[1..1 + |nonce|] == nonce
      requires buffered == 0 && header == [] && text == []
      requires totalHeaderLength == 0 && totalMessageLength == 0 && totalFooterLength == 0
      ensures Valid()
    {
      hide CounterBlock, BlockCipher.Valid, Held;
    }

    method ClearData()
      requires Valid()
      modifies this`buffered, this`totalHeaderLength, this`totalMessageLength, this`totalFooterLength, this`phase,
               this`untouched, this`announced
      ensures Valid() && Shape() && phase == KeySet && buffered == 0 && !untouched && !announced
      ensures totalHeaderLength == 0 && totalMessageLength == 0 && totalFooterLength == 0
    {
      buffered := 0;
      totalHeaderLength, totalMessageLength, totalFooterLength := 0, 0, 0;
      phase := KeySet;
      untouched, announced := false, false;
    }

    method Resync(iv: Octets)
      requires Shape() && 7 <= |iv| <= 13
      modifies this`lengthSize, this`aadLength, this`messageLength, this`ctrIv, this`position, buffer
      ensures Shape() && lengthSize == 15 - |iv|
      ensures ctrIv == CounterBlock(iv) && position == BLOCK && buffer[1..1 + |iv|] == iv
    {
      lengthSize := Min(BLOCK - 1 - |iv|, 8);
      StartCounter(iv);
      aadLength, messageLength := 0, 0;
    }

    method StartCounter(iv: Octets)
      requires Shape() && 7 <= |iv| <= 13 && lengthSize == 15 - |iv|
      modifies this`ctrIv, this`position, buffer
      ensures ctrIv == CounterBlock(iv) && position == BLOCK && buffer[1..1 + |iv|] == iv
    {
      var block := [(lengthSize - 1) as bv8] + iv + Zeros(BLOCK - 1 - |iv|);
      CopyInto(buffer, 0, block);
      assert buffer[..BLOCK] == buffer[0..BLOCK] == block;
      assert block == CounterBlock(iv) && block[1..1 + |iv|] == iv;
      assert buffer[1..1 + |iv|] == buffer[..BLOCK][1..1 + |iv|];
      ctrIv, position := buffer[..BLOCK], BLOCK;
    }

    /** The lengths of the header and the message, which the first block and the header's prefix hold. */
    method SpecifyDataLengths(headerLength: nat, newMessageLength: nat, footerLength: nat) returns (status: Status)
      requires Valid() && (phase == IVSet && headerLength > 0 ==> buffered == 0)
      modifies this, buffer
      ensures Valid()
      ensures status == Ok <==>
        headerLength < Pow256(8) && newMessageLength <= old(MaxMessageLength()) && footerLength == 0
        && old(phase) == IVSet
      ensures status == BadState ==> old(phase) != IVSet
      ensures status != Ok ==> unchanged(this) && unchanged(buffer)
      ensures status == Ok ==> Shape() && Held() == old(Restarted(headerLength, newMessageLength))
      ensures status == Ok ==>
        phase == IVSet && aadLength == headerLength && messageLength == newMessageLength && nonce == old(nonce)
      ensures status == Ok && old(untouched) ==> announced && header == [] && text == []
    {
      if headerLength > Pow256(8) - 1 || newMessageLength > MaxMessageLength() || footerLength > 0 {
        return InvalidArgument;
      }
      hide *;
      status := UncheckedSpecifyDataLengths(headerLength, newMessageLength);
    }

    method UncheckedSpecifyDataLengths(headerLength: nat, newMessageLength: nat) returns (status: Status)
      requires Valid() && headerLength < Pow256(8) && (phase == IVSet && headerLength > 0 ==> buffered == 0)
      modifies this`aadLength, this`messageLength, this`buffered, this`untouched, this`announced, buffer
      ensures Valid() && status == if phase == IVSet then Ok else BadState
      ensures status != Ok ==> unchanged(this) && unchanged(buffer)
      ensures status == Ok ==> Shape() && Held() == old(Restarted(headerLength, newMessageLength))
      ensures status == Ok ==> aadLength == headerLength && messageLength == newMessageLength
      ensures status == Ok && old(untouched) ==> announced && header == [] && text == []
    {
      if phase != IVSet {
        return BadState;
      }
      hide *;
      Announce(headerLength, newMessageLength);
      status := Ok;
    }

    /** What announcing lengths makes of the CBC state and the waiting bytes: the first block is made of what
        is in the buffer where the nonce was put, and a header's length replaces the waiting bytes. */
    ghost function Restarted(headerLength: nat, newMessageLength: nat): (Octets, Octets)
      requires Shape() && 2 <= lengthSize <= 8
      reads this`buffered, this`lengthSize, buffer
    {
      (cipher.Encrypt(FirstBlock(digestSize, buffer[1..BLOCK - lengthSize], headerLength > 0, newMessageLength)),
       if headerLength > 0 then LengthPrefix(headerLength) else buffer[..buffered])
    }

    method Announce(headerLength: nat, newMessageLength: nat)
      requires Valid() && phase == IVSet && headerLength < Pow256(8) && (headerLength > 0 ==> buffered == 0)
      modifies this`aadLength, this`messageLength, this`buffered, this`untouched, this`announced, buffer
      ensures Valid() && aadLength == headerLength && messageLength == newMessageLength
      ensures Held() == old(Restarted(headerLength, newMessageLength))
      ensures old(untouched) ==> announced && header == [] && text == []
    {
      hide Chain, Absorbed, Closed, Xor, Zeros, Padded, LeftOver, FirstBlock, MacBlocks, Stream,
           CounterBlock, Crypt, Tag, HeaderState, HeaderSoFar, MessageSoFar, Pow256, Word, BlockCipher.Valid,
           BlockCipher.Encrypt, XoredInto, MaxMessageLength, Tracked, Held;
      aadLength, messageLength := headerLength, newMessageLength;
      assert untouched ==> buffer[1..BLOCK - lengthSize] == nonce && buffer[..buffered] == LengthPrefix(0);
      hide LengthPrefix;
      ghost var b0 := FirstBlock(digestSize, nonce, headerLength > 0, newMessageLength);
      assert untouched ==>
          Restarted(headerLength, newMessageLength) == (cipher.Encrypt(b0), LengthPrefix(headerLength));
      hide Restarted;
      WriteLengths();
      announced := untouched;
      untouched := false;
      if announced {
        AnnouncedIsTracked();
      }
    }

    method WriteLengths()
      requires Shape() && 2 <= lengthSize <= 8 && aadLength < Pow256(8)
      modifies this`buffered, buffer
      ensures Shape() && Held() == old(Restarted(aadLength, messageLength))
    {
      hide Pow256, FirstBlock, LengthPrefix, BlockCipher.Encrypt, BlockCipher.Valid;
      ghost var waiting, held := buffer[..BLOCK], buffer[..buffered];
      assert waiting[..buffered] == held;
      PutFirstBlock();
      assert buffer[..buffered] == buffer[..BLOCK][..buffered];
      PutLengthPrefix();
    }

    lemma AnnouncedIsTracked()
      requires Shape() && Started() && phase == IVSet && header == [] && text == [] && position == BLOCK
      requires totalHeaderLength == 0 && totalMessageLength == 0 && totalFooterLength == 0
      requires Held() == (cipher.Encrypt(FirstBlock(digestSize, nonce, aadLength > 0, messageLength)),
                          LengthPrefix(aadLength))
      ensures Tracked()
    {
      hide HeaderSoFar, MessageSoFar, FirstBlock, LengthPrefix, Held, BlockCipher.Encrypt, BlockCipher.Valid;
      NothingPutIn(cipher, digestSize, nonce, aadLength, messageLength);
    }

    /** Flags, length, and over the length's leading octets the nonce. */
    method WriteFirstBlock(flags: bv8)
      requires Shape() && 2 <= lengthSize <= 8
      modifies buffer
      ensures buffer[..BLOCK] == old(buffer[..BLOCK])
      ensures buffer[BLOCK..2 * BLOCK]
           == [flags] + old(buffer[1..BLOCK - lengthSize]) + Word(messageLength, 8)[8 - lengthSize..]
    {
      hide Chain, Absorbed, Closed, Xor, Zeros, Padded, LeftOver, FirstBlock, LengthPrefix, MacBlocks, Stream,
           CounterBlock, Crypt, Tag, HeaderState, HeaderSoFar, MessageSoFar, Pow256, Word, BlockCipher.Valid,
           BlockCipher.Encrypt, XoredInto, Valid, Started, Fresh, Tracked, Held, MaxMessageLength;
      var n: nat := BLOCK - 1 - lengthSize;
      ghost var was := buffer[..];
      buffer[BLOCK] := flags;
      var length := Word(messageLength, 8);
      forall i | 0 <= i < 8 {
        buffer[2 * BLOCK - 8 + i] := length[i];
      }
      forall i | 0 <= i < n {
        buffer[BLOCK + 1 + i] := buffer[1 + i];
      }
    }

    /** The first block of the CBC-MAC, through the cipher. */
    method PutFirstBlock()
      requires Shape() && 2 <= lengthSize <= 8
      modifies buffer
      ensures buffer[..BLOCK] == old(buffer[..BLOCK])
      ensures buffer[BLOCK..2 * BLOCK]
           == cipher.Encrypt(FirstBlock(digestSize, old(buffer[1..BLOCK - lengthSize]), aadLength > 0, messageLength))
    {
      hide Word, Flags, BlockCipher.Encrypt, BlockCipher.Valid, CounterBlock;
      WordSuffix(messageLength, 8, lengthSize);
      WriteFirstBlock(Flags(aadLength > 0, digestSize, lengthSize));
      ProcessBlock(cipher, buffer, BLOCK);
    }

    /** The header's length is the first to be authenticated of it. */
    method PutLengthPrefix()
      requires Shape() && aadLength < Pow256(8)
      modifies this`buffered, buffer
      ensures Shape() && buffer[BLOCK..2 * BLOCK] == old(buffer[BLOCK..2 * BLOCK])
      ensures buffer[..buffered] == if aadLength > 0 then LengthPrefix(aadLength) else old(buffer[..buffered])
    {
      hide Word;
      ghost var state := buffer[BLOCK..2 * BLOCK];
      if aadLength > 0 {
        if aadLength < 0x1_0000 - 0x100 {
          CopyInto(buffer, 0, Word(aadLength, 2));
          buffered := 2;
        } else if aadLength < 0x1_0000_0000 {
          CopyInto(buffer, 0, [0xff, 0xfe] + Word(aadLength, 4));
          buffered := 6;
        } else {
          CopyInto(buffer, 0, [0xff, 0xff] + Word(aadLength, 8));
          buffered := 10;
        }
        assert buffer[0..buffered] == buffer[..buffered];
        assert buffer[BLOCK..2 * BLOCK] == buffer[buffered..][BLOCK - buffered..];
        assert buffer[BLOCK..2 * BLOCK] == state;
      }
    }

    /** What is left over of a part is authenticated with zeros after it. */
    method CloseBlock()
      requires Shape()
      modifies this`buffered, buffer
      ensures Shape() && buffered == 0 && Held().0 == Closed(cipher, old(Held()))
    {
      hide Chain, Absorbed, Closed, Xor, Zeros, Padded, LeftOver, FirstBlock, LengthPrefix, MacBlocks, Stream,
           CounterBlock, Crypt, Tag, HeaderState, HeaderSoFar, MessageSoFar, Pow256, Word, BlockCipher.Valid,
           BlockCipher.Encrypt, XoredInto, Valid, Started, Fresh, Tracked, MaxMessageLength;
      ClosedEmpty(cipher, Held());
      if buffered > 0 {
        ghost var (state, rest) := Held();
        ghost var was := buffer[..];
        XorInto(buffer, BLOCK, buffer[..buffered]);
        XorPadded(was, buffer[..], rest);
        assert buffer[BLOCK..BLOCK + cipher.size] == buffer[..][BLOCK..2 * BLOCK];
        assert was[BLOCK..2 * BLOCK] == state;
        ProcessBlock(cipher, buffer, BLOCK);
        buffered := 0;
      }
    }

    method AuthenticateLastHeaderBlock() returns (ok: bool)
      requires Shape()
      modifies this`buffered, buffer
      ensures Shape() && ok == (aadLength == totalHeaderLength)
      ensures ok ==> buffered == 0 && Held().0 == Closed(cipher, old(Held()))
      ensures !ok ==> unchanged(buffer) && unchanged(`buffered)
    {
      ok := aadLength == totalHeaderLength;
      if ok {
        CloseBlock();
      }
    }

    method AuthenticateLastConfidentialBlock() returns (ok: bool)
      requires Shape()
      modifies this`buffered, buffer
      ensures Shape() && ok == (messageLength == totalMessageLength)
      ensures ok ==> buffered == 0 && Held().0 == Closed(cipher, old(Held()))
      ensures !ok ==> unchanged(buffer) && unchanged(`buffered)
    {
      ok := messageLength == totalMessageLength;
      if ok {
        CloseBlock();
      }
    }

    /** Data that is only authenticated: header before the message, footer after it. */
    method Update(input: Octets) returns (status: Status)
      requires Valid()
      modifies this`phase, this`buffered, this`totalHeaderLength, this`totalFooterLength, this`header,
               this`untouched, buffer
      ensures Valid()
      ensures input == [] || status != Ok ==> unchanged(this) && unchanged(buffer)
      ensures status == BadState <==> input != [] && old(phase) == KeySet
      ensures status == InvalidArgument <==>
        input != [] && (old(phase) == AuthUntransformed || old(phase) == AuthTransformed)
        && messageLength != totalMessageLength
      ensures status == Ok && old(phase) == IVSet ==> phase == IVSet && header == old(header) + input
      ensures status == Ok && input != [] && old(phase) != IVSet ==>
        phase == AuthFooter && totalFooterLength == old(totalFooterLength) + |input| && header == old(header)
    {
      hide *;
      status := Ok;
      AppendNothing(header);
      if input == [] {
        return;
      }
      match phase {
        case KeySet =>
          return BadState;
        case IVSet =>
          UpdateHeader(input);
        case AuthUntransformed | AuthTransformed =>
          var ok := StartFooter();
          if !ok {
            return InvalidArgument;
          }
          AuthenticateFooter(input);
        case AuthFooter =>
          AuthenticateFooter(input);
      }
    }

    method UpdateHeader(input: Octets)
      requires Valid() && phase == IVSet
      modifies this`buffered, this`totalHeaderLength, this`header, this`untouched, buffer
      ensures Valid() && header == old(header) + input
    {
      hide Chain, Absorbed, Closed, Xor, Zeros, Padded, LeftOver, FirstBlock, LengthPrefix, MacBlocks, Stream,
           CounterBlock, Crypt, Tag, HeaderState, HeaderSoFar, MessageSoFar, Pow256, Word, BlockCipher.Valid,
           BlockCipher.Encrypt, XoredInto, Fresh, MaxMessageLength;
      HeaderMore(cipher, digestSize, nonce, aadLength, messageLength, header, input);
      AuthenticateData(input);
      totalHeaderLength := totalHeaderLength + |input|;
      header, untouched := header + input, false;
    }

    /** From the message to the footer: the message is closed. */
    method StartFooter() returns (ok: bool)
      requires Valid() && (phase == AuthUntransformed || phase == AuthTransformed)
      modifies this`buffered, this`phase, buffer
      ensures ok == (messageLength == totalMessageLength)
      ensures !ok ==> Valid() && unchanged(this) && unchanged(buffer)
      ensures ok ==> InFooter() && totalFooterLength == old(totalFooterLength)
    {
      hide Chain, Absorbed, Closed, Xor, Zeros, Padded, LeftOver, FirstBlock, LengthPrefix, MacBlocks, Stream,
           CounterBlock, Crypt, Tag, HeaderState, HeaderSoFar, MessageSoFar, Pow256, Word, BlockCipher.Valid,
           BlockCipher.Encrypt, XoredInto, Fresh, MaxMessageLength;
      ok := AuthenticateLastConfidentialBlock();
      if ok {
        buffered := 0;
        phase := AuthFooter;
      }
    }

    /** What is left of the invariant once the footer has begun, which no tag is given for. */
    ghost predicate InFooter()
      reads this
    {
      && Shape() && 2 <= lengthSize <= 8 && Started() && phase == AuthFooter
      && !untouched && (announced ==> totalHeaderLength == |header|)
    }

    method AuthenticateFooter(input: Octets)
      requires InFooter() || (Valid() && phase == AuthFooter)
      requires input != []
      modifies this`buffered, this`totalFooterLength, buffer
      ensures Valid() && phase == AuthFooter && totalFooterLength == old(totalFooterLength) + |input|
    {
      AuthenticateData(input);
      totalFooterLength := totalFooterLength + |input|;
    }

    /** From header to message: the header is closed. */
    method StartMessage() returns (ok: bool)
      requires Valid() && phase == IVSet
      modifies this`phase, this`buffered, this`untouched, buffer
      ensures Valid() && ok == (aadLength == totalHeaderLength)
      ensures !ok ==> phase == IVSet && untouched == old(untouched)
      ensures ok ==> phase == if forward then AuthUntransformed else AuthTransformed
      ensures ok ==> Shape() && Held() == (Closed(cipher, old(Held())), [])
    {
      hide Chain, Absorbed, Closed, Xor, Zeros, Padded, LeftOver, FirstBlock, LengthPrefix, MacBlocks, Stream,
           CounterBlock, Crypt, Tag, HeaderState, HeaderSoFar, MessageSoFar, Pow256, Word, BlockCipher.Valid,
           BlockCipher.Encrypt, XoredInto, Fresh, MaxMessageLength;
      ok := AuthenticateLastHeaderBlock();
      if ok {
        MessageStarts(cipher, digestSize, nonce, aadLength, messageLength, header);
        buffered := 0;
        phase := if forward then AuthUntransformed else AuthTransformed;
        untouched := false;
        assert buffer[..buffered] == [];
      }
    }

    /** The counter mode's output, which continues where it was left. */
    method ProcessCounterMode(input: Octets) returns (out: Octets)
      modifies this`position
      ensures out == Xor(input, Stream(keystream, ctrIv, old(position), |input|))
      ensures position == old(position) + |input|
    {
      out := Xor(input, Stream(keystream, ctrIv, position, |input|));
      position := position + |input|;
    }

    /** Part of the message: encrypted or decrypted, and the plaintext authenticated. */
    method Transform(input: Octets) returns (out: Octets)
      requires Valid() && (phase == AuthUntransformed || phase == AuthTransformed)
      modifies this`position, this`buffered, this`totalMessageLength, this`text, buffer
      ensures Valid()
      ensures out == Xor(input, Stream(keystream, ctrIv, old(position), |input|))
      ensures position == old(position) + |input| && totalMessageLength == old(totalMessageLength) + |input|
      ensures text == old(text) + if forward then input else out
    {
      hide *;
      if phase == AuthUntransformed {
        out := EncryptPart(input);
      } else {
        out := DecryptPart(input);
      }
    }

    /** Authenticated, and then encrypted. */
    method EncryptPart(input: Octets) returns (out: Octets)
      requires Valid() && phase == AuthUntransformed
      modifies this`position, this`buffered, this`totalMessageLength, this`text, buffer
      ensures Valid() && forward
      ensures out == Xor(input, Stream(keystream, ctrIv, old(position), |input|))
      ensures position == old(position) + |input| && totalMessageLength == old(totalMessageLength) + |input|
      ensures text == old(text) + input
    {
      hide Chain, Absorbed, Closed, Xor, Zeros, Padded, LeftOver, FirstBlock, LengthPrefix, MacBlocks, Stream,
           CounterBlock, Crypt, Tag, HeaderState, HeaderSoFar, MessageSoFar, Pow256, Word, BlockCipher.Valid,
           BlockCipher.Encrypt, XoredInto, Fresh, MaxMessageLength;
      totalMessageLength := totalMessageLength + |input|;
      MessageMore(cipher, digestSize, nonce, aadLength, messageLength, header, text, input);
      AuthenticateData(input);
      out := ProcessCounterMode(input);
      text := text + input;
    }

    /** Decrypted, and then authenticated. */
    method DecryptPart(input: Octets) returns (out: Octets)
      requires Valid() && phase == AuthTransformed
      modifies this`position, this`buffered, this`totalMessageLength, this`text, buffer
      ensures Valid() && !forward
      ensures out == Xor(input, Stream(keystream, ctrIv, old(position), |input|))
      ensures position == old(position) + |input| && totalMessageLength == old(totalMessageLength) + |input|
      ensures text == old(text) + out
    {
      hide Chain, Absorbed, Closed, Xor, Zeros, Padded, LeftOver, FirstBlock, LengthPrefix, MacBlocks, Stream,
           CounterBlock, Crypt, Tag, HeaderState, HeaderSoFar, MessageSoFar, Pow256, Word, BlockCipher.Valid,
           BlockCipher.Encrypt, XoredInto, Fresh, MaxMessageLength;
      totalMessageLength := totalMessageLength + |input|;
      out := ProcessCounterMode(input);
      MessageMore(cipher, digestSize, nonce, aadLength, messageLength, header, text, out);
      AuthenticateData(out);
      text := text + out;
    }

    /** Part of the message, after a header of the announced length and before any footer. */
    method ProcessData(input: Octets) returns (status: Status, out: Octets)
      requires Valid()
      modifies this, buffer
      ensures Valid()
      ensures status == InvalidArgument <==>
        (old(phase) != KeySet && old(totalMessageLength) + |input| > old(MaxMessageLength()))
        || (old(phase) == IVSet && old(aadLength) != old(totalHeaderLength))
      ensures status == BadState ==> old(phase) == KeySet || old(phase) == AuthFooter
      ensures status == Ok ==> old(phase) != KeySet && old(phase) != AuthFooter && lengthSize == old(lengthSize)
      ensures status == Ok ==> phase == if forward then AuthUntransformed else AuthTransformed
      ensures status == Ok ==>
        out == Xor(input, Stream(keystream, ctrIv, old(position), |input|))
        && text == old(text) + if forward then input else out
      ensures status == Ok ==>
        announced == old(announced) && nonce == old(nonce) && header == old(header) && ctrIv == old(ctrIv)
        && aadLength == old(aadLength) && messageLength == old(messageLength)
      ensures status != Ok ==> out == [] && phase == old(phase)
    {
      hide Chain, Absorbed, Closed, Xor, Zeros, Padded, LeftOver, FirstBlock, LengthPrefix, MacBlocks, Stream,
           CounterBlock, Crypt, Tag, HeaderState, HeaderSoFar, MessageSoFar, Pow256, Word, BlockCipher.Valid,
           BlockCipher.Encrypt, XoredInto, Fresh, Tracked, Held;
      var total := totalMessageLength + |input|;
      out := [];
      if phase != KeySet && total > MaxMessageLength() {
        Refuse(total);
        return InvalidArgument, out;
      }
      if phase == KeySet || phase == AuthFooter {
        Refuse(total);
        return BadState, out;
      }
      if phase == IVSet {
        var ok := StartMessage();
        if !ok {
          Refuse(total);
          return InvalidArgument, out;
        }
      }
      out := Transform(input);
      status := Ok;
    }

    /** A refused call has still been counted. */
    method Refuse(total: nat)
      requires Valid()
      modifies this`totalMessageLength, this`untouched, this`announced
      ensures Valid() && !announced
    {
      totalMessageLength := total;
      untouched, announced := false, false;
    }

    /** The counter mode from its start, over the CBC state. */
    method AuthenticateLastFooterBlock(size: nat) returns (mac: Octets)
      requires Shape() && size <= BLOCK
      modifies this`position
      ensures mac == Xor(Held().0, Stream(keystream, ctrIv, 0, BLOCK))[..size]
    {
      position := 0;
      mac := ProcessCounterMode(buffer[BLOCK..BLOCK + size]);
      assert buffer[BLOCK..BLOCK + size] == Held().0[..size];
      assert Stream(keystream, ctrIv, 0, size) == Stream(keystream, ctrIv, 0, BLOCK)[..size];
    }

    /** Closes what is open, which fails when a length is not the announced one. */
    method CloseMessage() returns (ok: bool)
      requires Valid() && phase != KeySet && phase != AuthFooter
      modifies this`phase, this`buffered, this`untouched, buffer
      ensures Shape() && 2 <= lengthSize <= 8
      ensures ok == (messageLength == totalMessageLength && (old(phase) == IVSet ==> aadLength == totalHeaderLength))
      ensures !ok ==> Valid() && phase != KeySet
      ensures ok ==> Held().0 == Closed(cipher, old(Held()))
      ensures ok && announced ==> totalHeaderLength == aadLength == |header| && totalMessageLength == |text|
      ensures ok && announced ==>
        Held().0 == Closed(cipher, MessageSoFar(cipher, digestSize, nonce, aadLength, messageLength, header, text))
    {
      hide Chain, Absorbed, Closed, Xor, Zeros, Padded, LeftOver, FirstBlock, LengthPrefix, MacBlocks, Stream,
           CounterBlock, Crypt, Tag, HeaderState, HeaderSoFar, MessageSoFar, Pow256, Word, BlockCipher.Valid,
           BlockCipher.Encrypt, XoredInto, Fresh, MaxMessageLength;
      if phase == IVSet {
        ok := StartMessage();
        if !ok {
          return;
        }
        ClosedEmpty(cipher, Held());
      }
      ok := AuthenticateLastConfidentialBlock();
    }

    /** The tag of what has been put in. */
    method Finish(size: nat) returns (ok: bool, mac: Octets)
      requires Valid() && size <= BLOCK && phase != KeySet && (phase == AuthFooter ==> !announced)
      modifies this`phase, this`buffered, this`untouched, this`position, buffer
      ensures Shape() && 2 <= lengthSize <= 8 && (!ok ==> Valid())
      ensures old(phase) != AuthFooter ==>
        ok == (messageLength == totalMessageLength && (old(phase) == IVSet ==> aadLength == totalHeaderLength))
      ensures ok && old(phase) != AuthFooter ==>
        mac == Xor(Closed(cipher, old(Held())), Stream(keystream, ctrIv, 0, BLOCK))[..size]
      ensures announced && ok ==> aadLength == |header| == totalHeaderLength && messageLength == |text|
      ensures announced && ok ==>
        7 <= |nonce| <= 13 && mac == Tag(cipher, keystream, digestSize, nonce, header, text)[..size]
    {
      hide Chain, Absorbed, Closed, Xor, Zeros, Padded, LeftOver, FirstBlock, LengthPrefix, MacBlocks, Stream,
           CounterBlock, Crypt, Tag, HeaderState, HeaderSoFar, MessageSoFar, Pow256, Word, BlockCipher.Valid,
           BlockCipher.Encrypt, XoredInto, Fresh, Tracked, MaxMessageLength;
      ok, mac := true, [];
      if phase != AuthFooter {
        ok := CloseMessage();
        if !ok {
          return;
        }
      }
      mac := AuthenticateLastFooterBlock(size);
      if announced {
        MessageStateIsMac(cipher, digestSize, nonce, header, text);
        TagOfMac(cipher, keystream, digestSize, nonce, header, text);
      }
    }

    /** The tag's first octets. Afterwards only the key is left. */
    method TruncatedFinal(size: nat) returns (status: Status, mac: Octets)
      requires Valid() && size <= BLOCK
      modifies this, buffer
      ensures Valid()
      ensures status == Ok <==>
        old(phase) != KeySet && old(phase) != AuthFooter && old(totalHeaderLength) < Pow256(8)
        && old(totalFooterLength) == 0 && old(messageLength) == old(totalMessageLength)
        && (old(phase) == IVSet ==> old(aadLength) == old(totalHeaderLength))
      ensures status == BadState ==> old(phase) == KeySet
      ensures status == Ok ==> phase == KeySet
      ensures status == Ok ==>
        mac == Xor(Closed(cipher, old(Held())), Stream(keystream, old(ctrIv), 0, BLOCK))[..size]
      ensures old(announced) ==> (status == Ok <==>
        old(phase) != AuthFooter && |old(header)| < Pow256(8)
        && old(aadLength) == |old(header)| && old(messageLength) == |old(text)|)
      ensures old(announced) && status == Ok ==>
        7 <= |old(nonce)| <= 13 && mac == Tag(cipher, keystream, digestSize, old(nonce), old(header), old(text))[..size]
    {
      hide Chain, Absorbed, Closed, Xor, Zeros, Padded, LeftOver, FirstBlock, LengthPrefix, MacBlocks, Stream,
           CounterBlock, Crypt, Tag, HeaderState, HeaderSoFar, MessageSoFar, Pow256, Word, BlockCipher.Valid,
           BlockCipher.Encrypt, XoredInto, Started, Fresh, Held, MaxMessageLength;
      mac := [];
      if totalHeaderLength > Pow256(8) - 1 || totalFooterLength > 0 {
        return InvalidArgument, mac;
      }
      if phase == KeySet {
        return BadState, mac;
      }
      var ok;
      ok, mac := Finish(size);
      if !ok {
        return InvalidArgument, [];
      }
      buffered := 0;
      phase := KeySet;
      untouched, announced := false, false;
      status := Ok;
    }
  }

  lemma MessageStarts(
    c: BlockCipher, digestSize: nat, nonce: Octets, aadLength: nat, messageLength: nat, header: Octets)
    requires c.Valid() && c.size == BLOCK && 4 <= digestSize <= 16 && 7 <= |nonce| <= 13
    ensures MessageSoFar(c, digestSize, nonce, aadLength, messageLength, header, [])
         == (Closed(c, HeaderSoFar(c, digestSize, nonce, aadLength, messageLength, header)), [])
  {}

  lemma ClosedEmpty(c: BlockCipher, r: (Octets, Octets))
    requires c.Valid() && |r.0| == c.size && |r.1| < c.size
    ensures r.1 == [] ==> Closed(c, r) == r.0
    ensures r.1 != [] ==> Closed(c, r) == c.Encrypt(Xor(r.0, r.1 + Zeros(c.size - |r.1|)))
  {}

  /** Adding less than a block is adding it with zeros after it. */
  lemma XorPadded(a: Octets, a': Octets, rest: Octets)
    requires |a| == 2 * BLOCK && |rest| < BLOCK && XoredInto(a, a', BLOCK, rest)
    ensures a'[..BLOCK] == a[..BLOCK]
    ensures a'[BLOCK..2 * BLOCK] == Xor(a[BLOCK..2 * BLOCK], rest + Zeros(BLOCK - |rest|))
  {
    var s, p := a[BLOCK..2 * BLOCK], rest + Zeros(BLOCK - |rest|);
    forall i | 0 <= i < BLOCK ensures a'[BLOCK + i] == s[i] ^ p[i] {
      XorZero(s[i]);
    }
  }

  lemma TagOfMac(c: BlockCipher, k: Keystream, digestSize: nat, nonce: Octets, header: Octets, text: Octets)
    requires c.Valid() && c.size == BLOCK && 4 <= digestSize <= 16 && 7 <= |nonce| <= 13
    ensures Tag(c, k, digestSize, nonce, header, text)
         == Xor(Chain(c, Zeros(BLOCK), MacBlocks(digestSize, nonce, header, text)),
                Stream(k, CounterBlock(nonce), 0, BLOCK))
  {}

  /** More of the header, and of the message. */
  lemma HeaderMore(
    c: BlockCipher, digestSize: nat, nonce: Octets, aadLength: nat, messageLength: nat, header: Octets, more: Octets)
    requires c.Valid() && c.size == BLOCK && 4 <= digestSize <= 16 && 7 <= |nonce| <= 13
    ensures var (state, rest) := HeaderSoFar(c, digestSize, nonce, aadLength, messageLength, header);
            HeaderSoFar(c, digestSize, nonce, aadLength, messageLength, header + more)
              == Absorbed(c, BLOCK - 1, state, rest + more)
  {
    var x1 := c.Encrypt(FirstBlock(digestSize, nonce, aadLength > 0, messageLength));
    AbsorbMore(c, BLOCK - 1, x1, LengthPrefix(aadLength) + header, more);
    AppendAssociates(LengthPrefix(aadLength), header, more);
  }

  lemma MessageMore(
    c: BlockCipher, digestSize: nat, nonce: Octets, aadLength: nat, messageLength: nat, header: Octets, text: Octets,
    more: Octets)
    requires c.Valid() && c.size == BLOCK && 4 <= digestSize <= 16 && 7 <= |nonce| <= 13
    ensures var (state, rest) := MessageSoFar(c, digestSize, nonce, aadLength, messageLength, header, text);
            MessageSoFar(c, digestSize, nonce, aadLength, messageLength, header, text + more)
              == Absorbed(c, BLOCK - 1, state, rest + more)
  {
    AbsorbMore(c, BLOCK - 1, HeaderState(c, digestSize, nonce, aadLength, messageLength, header), text, more);
  }

  /** Before any header there is only its prefix. */
  lemma NothingPutIn(c: BlockCipher, digestSize: nat, nonce: Octets, aadLength: nat, messageLength: nat)
    requires c.Valid() && c.size == BLOCK && 4 <= digestSize <= 16 && 7 <= |nonce| <= 13
    ensures HeaderSoFar(c, digestSize, nonce, aadLength, messageLength, [])
         == (c.Encrypt(FirstBlock(digestSize, nonce, aadLength > 0, messageLength)), LengthPrefix(aadLength))
  {
    assert LengthPrefix(aadLength) + [] == LengthPrefix(aadLength);
  }

  /** Less than a block is not chained. */
  lemma ShortRest(c: BlockCipher, state: Octets, rest: Octets)
    requires c.Valid() && |state| == c.size == BLOCK && |rest| < BLOCK
    ensures Absorbed(c, BLOCK - 1, state, rest) == (state, rest)
  {}

  // ---------- Whole runs ----------

  /** The header, put in piece by piece. */
  method PutHeader(ccm: Ccm, pieces: seq<Octets>)
    requires ccm.Valid() && ccm.announced && ccm.phase == IVSet && ccm.header == []
    modifies ccm`phase, ccm`buffered, ccm`totalHeaderLength, ccm`totalFooterLength, ccm`header, ccm`untouched,
             ccm.buffer
    ensures ccm.Valid() && ccm.phase == IVSet && ccm.header == Flatten(pieces)
  {
    hide *;
    FlattenNothing(pieces);
    for i := 0 to |pieces|
      invariant ccm.Valid() && ccm.phase == IVSet && ccm.header == Flatten(pieces[..i])
    {
      FlattenPush(pieces, i);
      AppendNothing(Flatten(pieces[..i]));
      var status := ccm.Update(pieces[i]);
    }
    assert pieces[..|pieces|] == pieces;
  }

  /** The message, put in piece by piece. */
  method PutMessage(ccm: Ccm, pieces: seq<Octets>) returns (out: Octets)
    requires ccm.Valid() && ccm.announced && ccm.phase == IVSet && ccm.aadLength == |ccm.header|
    requires ccm.messageLength == |Flatten(pieces)| <= ccm.MaxMessageLength()
    modifies ccm, ccm.buffer
    ensures ccm.Valid() && ccm.announced && ccm.phase != KeySet && ccm.phase != AuthFooter
    ensures ccm.nonce == old(ccm.nonce) && ccm.header == old(ccm.header)
    ensures ccm.aadLength == old(ccm.aadLength) && ccm.messageLength == old(ccm.messageLength)
    ensures 7 <= |ccm.nonce| <= 13 && out == Crypt(ccm.keystream, ccm.nonce, Flatten(pieces))
    ensures ccm.text == if ccm.forward then Flatten(pieces) else out
  {
    hide Flatten, Crypt, Stream, CounterBlock, Xor, Pow256, Ccm.Valid, Ccm.Tracked, Ccm.Held, Ccm.Fresh, Ccm.Shape,
         Ccm.Started;
    FlattenNothing(pieces);
    InMessage(ccm);
    out := [];
    assert Crypt(ccm.keystream, ccm.nonce, []) == [];
    ghost var announcedLength := ccm.messageLength;
    for i := 0 to |pieces|
      invariant ccm.Valid() && ccm.announced && ccm.phase != KeySet && ccm.phase != AuthFooter
      invariant ccm.nonce == old(ccm.nonce) && ccm.header == old(ccm.header)
      invariant ccm.aadLength == old(ccm.aadLength) && ccm.messageLength == announcedLength <= ccm.MaxMessageLength()
      invariant ccm.phase == IVSet ==> ccm.aadLength == ccm.totalHeaderLength
      invariant 7 <= |ccm.nonce| <= 13 && ccm.ctrIv == CounterBlock(ccm.nonce)
      invariant ccm.position == BLOCK + |Flatten(pieces[..i])| && ccm.totalMessageLength == |Flatten(pieces[..i])|
      invariant out == Crypt(ccm.keystream, ccm.nonce, Flatten(pieces[..i]))
      invariant ccm.text == if ccm.forward then Flatten(pieces[..i]) else out
    {
      FlattenPush(pieces, i);
      FlattenPrefix(pieces, i + 1);
      ghost var before := Flatten(pieces[..i]);
      CryptMore(ccm.keystream, ccm.nonce, before, pieces[i]);
      var status, part := ccm.ProcessData(pieces[i]);
      InMessage(ccm);
      out := out + part;
    }
    WholeFlattened(pieces);
  }

  lemma WholeFlattened(pieces: seq<Octets>)
    ensures pieces[..|pieces|] == pieces
  {}

  /** What an announced run's invariant says about the counters. */
  lemma InMessage(ccm: Ccm)
    requires ccm.Valid() && ccm.announced && ccm.phase != AuthFooter
    ensures 7 <= |ccm.nonce| <= 13 && ccm.ctrIv == CounterBlock(ccm.nonce) && ccm.lengthSize == 15 - |ccm.nonce|
    ensures ccm.totalHeaderLength == |ccm.header| && ccm.totalMessageLength == |ccm.text|
    ensures ccm.position == BLOCK + |ccm.text| && (ccm.phase == IVSet ==> ccm.text == [])
  {}

  /** Announced lengths, header and message in any pieces: the ciphertext (or plaintext) and tag of
      RFC 3610. It is refused exactly when a length cannot be announced. */
  method Run(ccm: Ccm, nonce: Octets, headerPieces: seq<Octets>, pieces: seq<Octets>, size: nat)
    returns (status: Status, out: Octets, mac: Octets)
    requires ccm.Valid() && 7 <= |nonce| <= 13 && size <= BLOCK
    modifies ccm, ccm.buffer
    ensures ccm.Valid()
    ensures status == Ok <==> |Flatten(headerPieces)| < Pow256(8) && |Flatten(pieces)| < Pow256(15 - |nonce|)
    ensures status == Ok ==> out == Crypt(ccm.keystream, nonce, Flatten(pieces))
    ensures status == Ok ==>
      mac == Tag(ccm.cipher, ccm.keystream, ccm.digestSize, nonce, Flatten(headerPieces),
                 if ccm.forward then Flatten(pieces) else out)[..size]
  {
    hide Flatten, Crypt, Tag, Stream, CounterBlock, Xor, Pow256, Ccm.Valid, Ccm.Tracked, Ccm.Held, Ccm.Fresh, Ccm.Shape,
         Ccm.Started;
    status := ccm.Resynchronize(nonce);
    out, mac := [], [];
    NonceSet(ccm);
    status := ccm.SpecifyDataLengths(|Flatten(headerPieces)|, |Flatten(pieces)|, 0);
    if status != Ok {
      return;
    }
    InMessage(ccm);
    PutHeader(ccm, headerPieces);
    InMessage(ccm);
    out := PutMessage(ccm, pieces);
    status, mac := ccm.TruncatedFinal(size);
  }

  /** Encryption at one end and decryption at the other, each cutting up header and text in its own way: the
      message comes back, and both ends arrive at the same tag. */
  method EncryptAndDecrypt(
    sender: Ccm, receiver: Ccm, nonce: Octets, headerPieces: seq<Octets>, headerPieces': seq<Octets>,
    pieces: seq<Octets>, cut: Octets -> seq<Octets>, size: nat)
    returns (status: Status, sent: Octets, tag: Octets, received: Octets, tag': Octets)
    requires sender.Valid() && receiver.Valid() && sender.buffer != receiver.buffer
    requires sender.cipher == receiver.cipher && sender.keystream == receiver.keystream
    requires sender.digestSize == receiver.digestSize && sender.forward && !receiver.forward
    requires 7 <= |nonce| <= 13 && size <= BLOCK
    requires Flatten(headerPieces) == Flatten(headerPieces') && forall x :: Flatten(cut(x)) == x
    modifies sender, sender.buffer, receiver, receiver.buffer
    ensures status == Ok <==> |Flatten(headerPieces)| < Pow256(8) && |Flatten(pieces)| < Pow256(15 - |nonce|)
    ensures status == Ok ==> received == Flatten(pieces) && tag' == tag
    ensures status == Ok ==> sent == Crypt(sender.keystream, nonce, Flatten(pieces))
  {
    hide *;
    received, tag' := [], [];
    status, sent, tag := Run(sender, nonce, headerPieces, pieces, size);
    if status == Ok {
      CryptInverts(sender.keystream, nonce, Flatten(pieces));
      status, received, tag' := Run(receiver, nonce, headerPieces', cut(sent), size);
    }
  }

  lemma NonceSet(ccm: Ccm)
    requires ccm.Valid() && ccm.untouched && ccm.phase == IVSet
    ensures ccm.buffered == 0 && ccm.lengthSize == 15 - |ccm.nonce|
  {}
}
