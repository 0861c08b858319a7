/** What the filter of StreamTransformations makes of a whole message, in terms of the message and the
    cipher alone: section 6.3 of RFC 5652 and the other paddings of filters.cpp, octet by octet. */
module PaddedMessages {
  import opened ByteStrings
  import opened BlockQueues
  import opened BufferedFilters
  import opened StreamTransformations

  /** What the cipher makes of `data` in one run. */
  function Ran<S(!new)>(c: Cipher<S>, forward: bool, st: S, data: seq<byte>): Outcome<S>
    requires c.blockSize > 0
  {
    var (st', x) := Process(c, forward, st, data);
    Done(st', x)
  }

  /** `m` of `n` bytes are whole blocks of `s` bytes, and less than a block is left. */
  ghost predicate WholeBlocks(s: nat, m: nat, n: nat) {
    IsMultiple(m, s) && m <= n < m + s
  }

  lemma WithinBlock(s: nat, m: nat, n: nat)
    requires WholeBlocks(s, m, n)
    ensures m <= n && n - m < s
  {}

  lemma Remainder(n: nat, s: nat)
    requires s >= 1
    ensures 0 <= n % s < s && n % s <= n && WholeBlocks(s, n - n % s, n)
  {
    RoundedDown(n, s);
  }

  /** The remainder is what is behind the whole blocks. */
  lemma RemainderIs(s: nat, m: nat, n: nat)
    requires s >= 1 && WholeBlocks(s, m, n)
    ensures n % s == n - m
  {
    hide IsMultiple;
    Remainder(n, s);
    SplitIsUnique(s, 0, m, n - m, n - n % s, n % s);
  }

  /** An encryption runs the cipher once over the whole blocks and what the padding makes of the rest. */
  lemma Encrypted<S(!new)>(c: Cipher<S>, scheme: Scheme, st: S, message: seq<byte>, m: nat)
    requires IsCipher(c) && WholeBlocks(c.blockSize, m, |message|)
    ensures match Pad(scheme, c.blockSize, message[m..])
            case Some(block) => Transform(c, scheme, true, st, message) == Ran(c, true, st, message[..m] + block)
            case None => Transform(c, scheme, true, st, message) == InvalidDataFormat
  {
    hide Process, MiddleLength, IsMultiple, Pad;
    var s := c.blockSize;
    var m' := MiddleLength(s, 0, |message|);
    SplitIsUnique(s, 0, m, |message| - m, m', |message| - m');
    var padded := Pad(scheme, s, message[m..]);
    if padded.Some? { ProcessConcatenation(c, true, st, message[..m], padded.value); }
  }

  /** A message whose padding is known. */
  lemma EncryptedPadding<S(!new)>(
    c: Cipher<S>, scheme: Scheme, st: S, message: seq<byte>, m: nat, padding: seq<byte>)
    requires IsCipher(c) && WholeBlocks(c.blockSize, m, |message|)
    requires Pad(scheme, c.blockSize, message[m..]) == Some(message[m..] + padding)
    ensures Transform(c, scheme, true, st, message) == Ran(c, true, st, message + padding)
  {
    hide *;
    WithinBlock(c.blockSize, m, |message|);
    Encrypted(c, scheme, st, message, m);
    Behind(message, m, padding);
  }

  lemma Behind(s: seq<byte>, m: nat, t: seq<byte>)
    requires m <= |s|
    ensures s[..m] + (s[m..] + t) == s + t
  {
    AppendAssociates(s[..m], s[m..], t);
    assert s[..m] + s[m..] == s;
  }

  /** PKCS padding (section 6.3 of RFC 5652): k octets of value k, where k completes the last block, and is
      a whole block behind a message that fills its blocks. */
  lemma EncryptedPkcs<S(!new)>(c: Cipher<S>, st: S, message: seq<byte>)
    requires IsCipher(c)
    ensures var k := c.blockSize - |message| % c.blockSize;
            1 <= k <= c.blockSize
            && Transform(c, PkcsPadding, true, st, message) == Ran(c, true, st, message + Repeated<byte>(k, k))
  {
    hide Transform, Ran, WholeBlocks;
    Remainder(|message|, c.blockSize);
    var m := |message| - |message| % c.blockSize;
    var k := c.blockSize - |message| % c.blockSize;
    WithinBlock(c.blockSize, m, |message|);
    EncryptedPadding(c, PkcsPadding, st, message, m, Repeated<byte>(k, k));
  }

  /** A bit after the message, and zeros. */
  lemma EncryptedOneAndZeros<S(!new)>(c: Cipher<S>, st: S, message: seq<byte>)
    requires IsCipher(c)
    ensures var k := c.blockSize - |message| % c.blockSize;
            1 <= k <= c.blockSize
            && Transform(c, OneAndZerosPadding, true, st, message)
               == Ran(c, true, st, message + [0x80] + Repeated<byte>(0, k - 1))
  {
    hide Transform, Ran, WholeBlocks;
    Remainder(|message|, c.blockSize);
    var m := |message| - |message| % c.blockSize;
    var k := c.blockSize - |message| % c.blockSize;
    WithinBlock(c.blockSize, m, |message|);
    AppendAssociates(message, [0x80], Repeated<byte>(0, k - 1));
    AppendAssociates(message[m..], [0x80], Repeated<byte>(0, k - 1));
    EncryptedPadding(c, OneAndZerosPadding, st, message, m, [0x80] + Repeated<byte>(0, k - 1));
  }

  /** Zeros, but no block of them behind a message that fills its blocks. */
  lemma EncryptedZeros<S(!new)>(c: Cipher<S>, st: S, message: seq<byte>)
    requires IsCipher(c)
    ensures var r := |message| % c.blockSize;
            r >= 0
            && Transform(c, ZerosPadding, true, st, message)
               == Ran(c, true, st, message + Repeated<byte>(0, if r == 0 then 0 else c.blockSize - r))
  {
    hide Transform, Ran, WholeBlocks;
    Remainder(|message|, c.blockSize);
    var r := |message| % c.blockSize;
    var m := |message| - r;
    WithinBlock(c.blockSize, m, |message|);
    assert r == 0 ==> message[m..] + Repeated<byte>(0, 0) == [];
    EncryptedPadding(c, ZerosPadding, st, message, m, Repeated<byte>(0, if r == 0 then 0 else c.blockSize - r));
  }

  /** Nothing at all: a message that does not fill its blocks is refused. */
  lemma EncryptedUnpadded<S(!new)>(c: Cipher<S>, st: S, message: seq<byte>)
    requires IsCipher(c)
    ensures Transform(c, NoPadding, true, st, message)
         == if |message| % c.blockSize == 0 then Ran(c, true, st, message) else InvalidDataFormat
  {
    hide Transform, Ran, WholeBlocks;
    Remainder(|message|, c.blockSize);
    var m := |message| - |message| % c.blockSize;
    WithinBlock(c.blockSize, m, |message|);
    Encrypted(c, NoPadding, st, message, m);
    AppendNothing(message[..m]);
    assert |message| == m ==> message[..m] == message;
  }

  // ---------- Decryption ----------

  lemma {:induction false} DecryptedLength<S(!new)>(c: Cipher<S>, st: S, data: seq<byte>)
    requires IsCipher(c) && IsMultiple(|data|, c.blockSize)
    ensures |Process(c, false, st, data).1| == |data|
    decreases |data|
  {
    hide IsMultiple;
    MultipleLess(|data|, c.blockSize);
    if data != [] {
      assert DecryptsBlock(c, st, data[..c.blockSize]);
      DecryptedLength(c, c.decrypt(st, data[..c.blockSize]).0, data[c.blockSize..]);
    }
  }

  /** A decryption that unpads runs the cipher over all of the data, which are a block behind `m` bytes,
      and unpads the last block. */
  lemma Decrypted<S(!new)>(c: Cipher<S>, scheme: Scheme, st: S, data: seq<byte>, m: nat)
    requires IsCipher(c) && (scheme == PkcsPadding || scheme == OneAndZerosPadding)
    requires IsMultiple(m, c.blockSize) && |data| == m + c.blockSize
    ensures var (st', x) := Process(c, false, st, data);
            |x| == |data|
            && Transform(c, scheme, false, st, data)
               == match Unpad(scheme, x[m..])
                  case Some(y) => Done(st', x[..m] + y)
                  case None => InvalidCiphertext
  {
    var s := c.blockSize;
    var (st1, x1) := Process(c, false, st, data[..m]);
    assert DecryptsBlock(c, st1, data[m..]);
    hide Process, MiddleLength, IsMultiple, Unpad, IsCipher;
    var m' := MiddleLength(s, s, |data|);
    SplitIsUnique(s, s, m, s, m', |data| - m');
    ProcessConcatenation(c, false, st, data[..m], data[m..]);
    ProcessOneBlock(c, false, st1, data[m..]);
    DecryptedLength(c, st, data[..m]);
    assert data[..m] + data[m..] == data;
    BothParts(x1, c.decrypt(st1, data[m..]).1);
  }

  /** Anything but whole blocks, and at least one, is refused. */
  lemma DecryptedNotWhole<S(!new)>(c: Cipher<S>, scheme: Scheme, st: S, data: seq<byte>)
    requires IsCipher(c) && (scheme == PkcsPadding || scheme == OneAndZerosPadding)
    requires !IsMultiple(|data|, c.blockSize) || data == []
    ensures Transform(c, scheme, false, st, data) == InvalidCiphertext
  {
    hide Process, IsMultiple, MiddleLength;
    var s := c.blockSize;
    var m := MiddleLength(s, s, |data|);
    MultipleUnits(s);
    if |data| - m == s { MultipleSum(m, s, s); }
  }

  /** When the padding of the message is known: `p` bytes behind the `m` bytes of whole blocks. */
  lemma DecryptedPadding<S(!new)>(
    c: Cipher<S>, scheme: Scheme, st: S, data: seq<byte>, st': S, message: seq<byte>, m: nat, padding: seq<byte>)
    requires IsCipher(c) && (scheme == PkcsPadding || scheme == OneAndZerosPadding)
    requires WholeBlocks(c.blockSize, m, |message|)
    requires Pad(scheme, c.blockSize, message[m..]) == Some(message[m..] + padding)
    ensures Transform(c, scheme, false, st, data) == Done(st', message)
            <==> IsMultiple(|data|, c.blockSize) && Process(c, false, st, data) == (st', message + padding)
  {
    var s := c.blockSize;
    MultipleUnits(s);
    if !IsMultiple(|data|, s) || data == [] {
      DecryptedNotWhole(c, scheme, st, data);
      PaddedNotEmpty(scheme, s, message, m, padding);
      assert data == [] ==> Process(c, false, st, data).1 == [];
    } else {
      hide Process, IsMultiple, Transform, Pad, Unpad, IsCipher;
      MultipleLess(|data|, s);
      Decrypted(c, scheme, st, data, |data| - s);
      Reads(scheme, s, Process(c, false, st, data).1, |data| - s, message, m, padding);
    }
  }

  lemma PaddedNotEmpty(scheme: Scheme, s: nat, message: seq<byte>, m: nat, padding: seq<byte>)
    requires 1 < s < 256 && (scheme == PkcsPadding || scheme == OneAndZerosPadding)
    requires WholeBlocks(s, m, |message|) && Pad(scheme, s, message[m..]) == Some(message[m..] + padding)
    ensures |message[m..] + padding| == s && message + padding != []
  {
    hide IsMultiple;
  }

  lemma ReadsPadded(scheme: Scheme, s: nat, x: seq<byte>, n: nat, message: seq<byte>, m: nat, padding: seq<byte>)
    requires 1 < s < 256 && (scheme == PkcsPadding || scheme == OneAndZerosPadding)
    requires IsMultiple(n, s) && |x| == n + s && WholeBlocks(s, m, |message|)
    requires Pad(scheme, s, message[m..]) == Some(message[m..] + padding) && x == message + padding
    ensures Unpad(scheme, x[n..]).Some? && x[..n] + Unpad(scheme, x[n..]).value == message
  {
    PaddedNotEmpty(scheme, s, message, m, padding);
    Behind(message, m, padding);
    hide IsMultiple, Pad, Unpad;
    SplitIsUnique(s, 0, m, 0, n, 0);
    BothParts(message[..m], message[m..] + padding);
    UnpadInvertsPad(scheme, x[n..], message[m..]);
    assert message[..m] + message[m..] == message;
  }

  lemma ReadsOnlyPadded(
    scheme: Scheme, s: nat, x: seq<byte>, n: nat, message: seq<byte>, m: nat, padding: seq<byte>, y: seq<byte>)
    requires 1 < s < 256 && (scheme == PkcsPadding || scheme == OneAndZerosPadding)
    requires IsMultiple(n, s) && |x| == n + s && WholeBlocks(s, m, |message|)
    requires Pad(scheme, s, message[m..]) == Some(message[m..] + padding)
    requires Unpad(scheme, x[n..]) == Some(y) && x[..n] + y == message
    ensures x == message + padding
  {
    UnpadInvertsPad(scheme, x[n..], y);
    Behind(message, m, padding);
    hide IsMultiple, Pad, Unpad;
    SplitIsUnique(s, 0, m, |message| - m, n, |y|);
    BothParts(x[..n], y);
    assert x[..n] + x[n..] == x;
  }

  /** Unpadding the last block gives the message exactly when padding the message gives the blocks. */
  lemma Reads(scheme: Scheme, s: nat, x: seq<byte>, n: nat, message: seq<byte>, m: nat, padding: seq<byte>)
    requires 1 < s < 256 && (scheme == PkcsPadding || scheme == OneAndZerosPadding)
    requires IsMultiple(n, s) && |x| == n + s && WholeBlocks(s, m, |message|)
    requires Pad(scheme, s, message[m..]) == Some(message[m..] + padding)
    ensures (Unpad(scheme, x[n..]).Some? && x[..n] + Unpad(scheme, x[n..]).value == message)
            <==> x == message + padding
  {
    hide IsMultiple, Pad, Unpad, WholeBlocks;
    if x == message + padding { ReadsPadded(scheme, s, x, n, message, m, padding); }
    if Unpad(scheme, x[n..]).Some? && x[..n] + Unpad(scheme, x[n..]).value == message {
      ReadsOnlyPadded(scheme, s, x, n, message, m, padding, Unpad(scheme, x[n..]).value);
    }
  }

  lemma WholeExactlyWhen(n: nat, s: nat)
    requires s >= 1
    ensures IsMultiple(n, s) <==> n % s == 0
  {
    Remainder(n, s);
    if IsMultiple(n, s) { RemainderIs(s, n, n); }
  }

  /** Decryption gives exactly the message that padding completes to what the cipher decrypts: behind it
      are k octets of value k. */
  lemma DecryptedPkcs<S(!new)>(c: Cipher<S>, st: S, data: seq<byte>, st': S, message: seq<byte>)
    requires IsCipher(c)
    ensures var k := c.blockSize - |message| % c.blockSize;
            1 <= k
            && (Transform(c, PkcsPadding, false, st, data) == Done(st', message)
                <==> |data| % c.blockSize == 0
                     && Process(c, false, st, data) == (st', message + Repeated<byte>(k, k)))
  {
    hide Transform, Process, WholeBlocks, IsMultiple;
    Remainder(|message|, c.blockSize);
    var m := |message| - |message| % c.blockSize;
    var k := c.blockSize - |message| % c.blockSize;
    WithinBlock(c.blockSize, m, |message|);
    WholeExactlyWhen(|data|, c.blockSize);
    DecryptedPadding(c, PkcsPadding, st, data, st', message, m, Repeated<byte>(k, k));
  }

  /** Or the octet 0x80 and zeros. */
  lemma DecryptedOneAndZeros<S(!new)>(c: Cipher<S>, st: S, data: seq<byte>, st': S, message: seq<byte>)
    requires IsCipher(c)
    ensures var k := c.blockSize - |message| % c.blockSize;
            1 <= k
            && (Transform(c, OneAndZerosPadding, false, st, data) == Done(st', message)
                <==> |data| % c.blockSize == 0
                     && Process(c, false, st, data) == (st', message + [0x80] + Repeated<byte>(0, k - 1)))
  {
    hide Transform, Process, WholeBlocks, IsMultiple;
    Remainder(|message|, c.blockSize);
    var m := |message| - |message| % c.blockSize;
    var k := c.blockSize - |message| % c.blockSize;
    WithinBlock(c.blockSize, m, |message|);
    WholeExactlyWhen(|data|, c.blockSize);
    AppendAssociates(message, [0x80], Repeated<byte>(0, k - 1));
    AppendAssociates(message[m..], [0x80], Repeated<byte>(0, k - 1));
    DecryptedPadding(c, OneAndZerosPadding, st, data, st', message, m, [0x80] + Repeated<byte>(0, k - 1));
  }

  /** Without padding, or with zeros, decryption gives all that the cipher decrypts, of whole blocks only. */
  lemma DecryptedUnpadded<S(!new)>(c: Cipher<S>, scheme: Scheme, st: S, data: seq<byte>)
    requires IsCipher(c) && (scheme == NoPadding || scheme == ZerosPadding)
    ensures Transform(c, scheme, false, st, data)
         == if |data| % c.blockSize == 0 then Ran(c, false, st, data) else InvalidCiphertext
  {
    hide Process, IsMultiple, MiddleLength;
    var m := MiddleLength(c.blockSize, 0, |data|);
    RemainderIs(c.blockSize, m, |data|);
    assert m == |data| ==> data[..m] == data && data[m..] == [];
    AppendNothing(Process(c, false, st, data[..m]).1);
  }
}
