/** Block padding and the filter that runs a block cipher over a stream (filters.cpp,
    StreamTransformationFilter), for ciphers whose blocks are all of the same size. */
module StreamTransformations {
  import opened ByteStrings
  import opened BlockQueues
  import opened BufferedFilters

  datatype Option<T> = None | Some(value: T)

  datatype Scheme = NoPadding | ZerosPadding | PkcsPadding | OneAndZerosPadding

  /** A block cipher in some mode: its state is threaded from block to block. */
  datatype Cipher<!S(!new)> = Cipher(
    blockSize: nat,
    encrypt: (S, seq<byte>) -> (S, seq<byte>),
    decrypt: (S, seq<byte>) -> (S, seq<byte>))
  {
    function Step(forward: bool): (S, seq<byte>) -> (S, seq<byte>) {
      if forward then encrypt else decrypt
    }
  }

  /** Decryption from the same state undoes encryption and reaches the same next state. */
  ghost predicate InvertsBlock<S(!new)>(c: Cipher<S>, st: S, block: seq<byte>) {
    |block| == c.blockSize ==>
      var (st', x) := c.encrypt(st, block);
      |x| == c.blockSize && c.decrypt(st, x) == (st', block)
  }

  ghost predicate DecryptsBlock<S(!new)>(c: Cipher<S>, st: S, block: seq<byte>) {
    |block| == c.blockSize ==> |c.decrypt(st, block).1| == c.blockSize
  }

  ghost predicate IsCipher<S(!new)>(c: Cipher<S>) {
    && 1 < c.blockSize < 256
    && (forall st, block :: InvertsBlock(c, st, block))
    && (forall st, block :: DecryptsBlock(c, st, block))
  }

  /** The cipher over all whole blocks of `data`. */
  function Process<S(!new)>(c: Cipher<S>, forward: bool, st: S, data: seq<byte>): (S, seq<byte>)
    requires c.blockSize > 0
    decreases |data|
  {
    if |data| < c.blockSize then (st, [])
    else
      var (st', x) := c.Step(forward)(st, data[..c.blockSize]);
      var (st'', y) := Process(c, forward, st', data[c.blockSize..]);
      (st'', x + y)
  }

  lemma MultipleLess(n: nat, blockSize: nat)
    requires IsMultiple(n, blockSize) && blockSize > 0
    ensures n > 0 ==> n >= blockSize && IsMultiple(n - blockSize, blockSize)
  {
    var k: nat :| n == Capacity(blockSize, k);
    if k >= 1 {
      assert blockSize * k == blockSize * (k - 1) + blockSize;
      assert blockSize * (k - 1) >= 0;
      assert n - blockSize == Capacity(blockSize, k - 1);
    }
  }

  lemma MultipleDifference(n: nat, blocks: nat, blockSize: nat)
    requires IsMultiple(n, blockSize) && Capacity(blockSize, blocks) <= n && blocks >= 1 && blockSize > 0
    ensures IsMultiple(Capacity(blockSize, blocks), blockSize) && Capacity(blockSize, blocks) > 0
    ensures IsMultiple(n - Capacity(blockSize, blocks), blockSize)
  {
    var k: nat :| n == Capacity(blockSize, k);
    var d := k - blocks;
    assert blockSize * k == blockSize * blocks + blockSize * d;
    assert d < 0 ==> blockSize * d < 0;
    assert blockSize * blocks >= 1 * blocks;
    assert n - Capacity(blockSize, blocks) == Capacity(blockSize, d);
  }

  /** Running over a whole number of blocks and then over the rest is running over everything. */
  lemma {:induction false} ProcessConcatenation<S(!new)>(c: Cipher<S>, forward: bool, st: S, a: seq<byte>, b: seq<byte>)
    requires c.blockSize > 0 && IsMultiple(|a|, c.blockSize)
    ensures var (st', x) := Process(c, forward, st, a);
            var (st'', y) := Process(c, forward, st', b);
            Process(c, forward, st, a + b) == (st'', x + y)
    decreases |a|
  {
    MultipleLess(|a|, c.blockSize);
    if a == [] {
      assert a + b == b;
      var y := Process(c, forward, st, b).1;
      assert [] + y == y;
    } else {
      var s := c.blockSize;
      var (st1, x1) := c.Step(forward)(st, a[..s]);
      ProcessConcatenation(c, forward, st1, a[s..], b);
      assert (a + b)[..s] == a[..s] && (a + b)[s..] == a[s..] + b;
      var (st2, x2) := Process(c, forward, st1, a[s..]);
      var y := Process(c, forward, st2, b).1;
      assert x1 + (x2 + y) == (x1 + x2) + y;
    }
  }

  /** Decrypting what was encrypted, over whole blocks. */
  lemma {:induction false} ProcessInverts<S(!new)>(c: Cipher<S>, st: S, data: seq<byte>)
    requires IsCipher(c) && IsMultiple(|data|, c.blockSize)
    ensures var (st', x) := Process(c, true, st, data);
            |x| == |data| && Process(c, false, st, x) == (st', data)
    decreases |data|
  {
    MultipleLess(|data|, c.blockSize);
    if data != [] {
      var s := c.blockSize;
      assert InvertsBlock(c, st, data[..s]);
      var (st1, x1) := c.encrypt(st, data[..s]);
      ProcessInverts(c, st1, data[s..]);
      var x2 := Process(c, true, st1, data[s..]).1;
      assert (x1 + x2)[..s] == x1 && (x1 + x2)[s..] == x2;
      assert data[..s] + data[s..] == data;
    }
  }

  /** A block is encrypted or decrypted by itself. */
  lemma ProcessOneBlock<S(!new)>(c: Cipher<S>, forward: bool, st: S, block: seq<byte>)
    requires c.blockSize > 0 && |block| == c.blockSize
    ensures Process(c, forward, st, block) == if forward then c.encrypt(st, block) else c.decrypt(st, block)
  {
    var (st', x) := c.Step(forward)(st, block);
    assert block[..c.blockSize] == block && block[c.blockSize..] == [];
    assert x + [] == x;
  }

  /** What the last call of an encryption puts after the last whole block; no padding at all is an
      error unless the message fills its blocks. */
  function Pad(scheme: Scheme, blockSize: nat, last: seq<byte>): (r: Option<seq<byte>>)
    requires |last| < blockSize < 256
    ensures r.Some? ==> |r.value| == blockSize || (last == r.value == [])
  {
    match scheme
    case NoPadding => if last == [] then Some([]) else None
    case ZerosPadding => if last == [] then Some([]) else Some(last + Repeated<byte>(0, blockSize - |last|))
    case PkcsPadding => Some(last + Repeated<byte>(blockSize - |last|, blockSize - |last|))
    case OneAndZerosPadding => Some(last + [0x80] + Repeated<byte>(0, blockSize - |last| - 1))
  }

  /** What the last call of a decryption makes of the last decrypted block. */
  function Unpad(scheme: Scheme, block: seq<byte>): Option<seq<byte>>
    requires scheme == PkcsPadding || scheme == OneAndZerosPadding
    requires |block| > 1
  {
    if scheme == PkcsPadding then
      var pad := block[|block| - 1];
      if pad < 1 || pad > |block| || !AllEqual(block[|block| - pad..], pad) then None
      else Some(block[..|block| - pad])
    else
      var n := WithoutZeros(block);
      if block[n - 1] != 0x80 then None else Some(block[..n - 1])
  }

  predicate AllEqual(s: seq<byte>, b: byte) {
    forall i :: 0 <= i < |s| ==> s[i] == b
  }

  /** The length without trailing zeros, but at least one. */
  function WithoutZeros(s: seq<byte>): (n: nat)
    requires |s| >= 1
    ensures 1 <= n <= |s|
    ensures forall i :: n <= i < |s| ==> s[i] == 0
    ensures n > 1 ==> s[n - 1] != 0
  {
    if |s| > 1 && s[|s| - 1] == 0 then WithoutZeros(s[..|s| - 1]) else |s|
  }

  /** Unpadding accepts a block exactly when padding makes it, and gives back what was padded. */
  lemma UnpadInvertsPad(scheme: Scheme, block: seq<byte>, x: seq<byte>)
    requires scheme == PkcsPadding || scheme == OneAndZerosPadding
    requires 1 < |block| < 256
    ensures Unpad(scheme, block) == Some(x) <==> |x| < |block| && Pad(scheme, |block|, x) == Some(block)
  {
    if |x| < |block| && Pad(scheme, |block|, x) == Some(block) {
      PadUnpads(scheme, block, x);
    }
    if Unpad(scheme, block) == Some(x) {
      if scheme == PkcsPadding {
        var pad := block[|block| - 1];
        assert block == x + block[|block| - pad..];
        assert block[|block| - pad..] == Repeated<byte>(pad, pad);
      } else {
        var n := WithoutZeros(block);
        assert block == x + [0x80] + block[n..];
        assert block[n..] == Repeated<byte>(0, |block| - |x| - 1);
      }
    }
  }

  lemma PadUnpads(scheme: Scheme, block: seq<byte>, x: seq<byte>)
    requires scheme == PkcsPadding || scheme == OneAndZerosPadding
    requires 1 < |block| < 256 && |x| < |block| && Pad(scheme, |block|, x) == Some(block)
    ensures Unpad(scheme, block) == Some(x)
  {
    var n := |block|;
    if scheme == PkcsPadding {
      assert block[n - 1] == n - |x|;
      assert block[|x|..] == Repeated<byte>(n - |x|, n - |x|);
      assert block[..|x|] == x;
    } else {
      assert block[|x|] == 0x80;
      assert forall i :: |x| < i < n ==> block[i] == 0;
      assert WithoutZeros(block) == |x| + 1;
      assert block[..|x|] == x;
    }
  }

  /** How much a filter keeps back for the last call. */
  function LastSize(scheme: Scheme, forward: bool, blockSize: nat): nat {
    if !forward && scheme != NoPadding && scheme != ZerosPadding then blockSize else 0
  }

  datatype Outcome<S> = Done(state: S, output: seq<byte>) | InvalidDataFormat | InvalidCiphertext
  {
    function Output(): seq<byte> { if Done? then output else [] }
  }

  /** What the last call of a message does, given what was kept back for it. */
  function Finish<S(!new)>(c: Cipher<S>, scheme: Scheme, forward: bool, st: S, last: seq<byte>): Outcome<S>
    requires IsCipher(c) && (forward ==> |last| < c.blockSize)
  {
    if forward then
      match Pad(scheme, c.blockSize, last)
      case None => InvalidDataFormat
      case Some(block) => var (st', x) := Process(c, true, st, block); Done(st', x)
    else if scheme == NoPadding || scheme == ZerosPadding then
      if last == [] then Done(st, []) else InvalidCiphertext
    else if |last| != c.blockSize then InvalidCiphertext
    else
      assert DecryptsBlock(c, st, last);
      var (st', block) := c.decrypt(st, last);
      match Unpad(scheme, block)
      case None => InvalidCiphertext
      case Some(x) => Done(st', x)
  }

  /** A whole message in one go. */
  function Transform<S(!new)>(c: Cipher<S>, scheme: Scheme, forward: bool, st: S, message: seq<byte>): Outcome<S>
    requires IsCipher(c)
  {
    var m := MiddleLength(c.blockSize, LastSize(scheme, forward, c.blockSize), |message|);
    var (st', x) := Process(c, forward, st, message[..m]);
    After(x, Finish(c, scheme, forward, st', message[m..]))
  }

  /** The output of the last call goes behind the output of the others. */
  function After<S>(before: seq<byte>, last: Outcome<S>): Outcome<S> {
    if last.Done? then Done(last.state, before + last.output) else last
  }

  lemma BothParts(s: seq<byte>, t: seq<byte>)
    ensures (s + t)[..|s|] == s && (s + t)[|s|..] == t
  {}

  /** Encrypting and then decrypting from the same state gives the message back. */
  lemma RoundTrip<S(!new)>(c: Cipher<S>, scheme: Scheme, st: S, message: seq<byte>)
    requires IsCipher(c) && (scheme == PkcsPadding || scheme == OneAndZerosPadding)
    ensures var e := Transform(c, scheme, true, st, message);
            e.Done? && Transform(c, scheme, false, st, e.output) == Done(e.state, message)
  {
    var s := c.blockSize;
    var m := MiddleLength(s, 0, |message|);
    var middle, last := message[..m], message[m..];
    var block := Pad(scheme, s, last).value;
    hide Process, IsCipher, MiddleLength, IsMultiple, Pad, Unpad;
    var (st1, x) := Process(c, true, st, middle);
    var (st2, y) := Process(c, true, st1, block);
    ProcessInverts(c, st, middle);
    ProcessOneBlock(c, true, st1, block);
    assert InvertsBlock(c, st1, block);
    MultipleUnits(s);
    var m' := MiddleLength(s, s, |x + y|);
    SplitIsUnique(s, s, m, s, m', |x + y| - m');
    assert DecryptsBlock(c, st1, y);
    BothParts(x, y);
    BothParts(middle, last);
    UnpadInvertsPad(scheme, block, last);
    assert middle + last == message;
  }

  /** Without padding, or with zeros for padding, the message comes back exactly when it fills its
      blocks: otherwise it is refused, or zeros stay behind it. */
  lemma RoundTripUnpadded<S(!new)>(c: Cipher<S>, scheme: Scheme, st: S, message: seq<byte>)
    requires IsCipher(c) && (scheme == NoPadding || scheme == ZerosPadding)
    ensures var e := Transform(c, scheme, true, st, message);
            (e.Done? && Transform(c, scheme, false, st, e.output) == Done(e.state, message))
            <==> IsMultiple(|message|, c.blockSize)
  {
    var s := c.blockSize;
    var m := MiddleLength(s, 0, |message|);
    var middle, last := message[..m], message[m..];
    MultipleUnits(s);
    hide Process, MiddleLength;
    EmptyRun(c, true, st);
    if IsMultiple(|message|, s) {
      SplitIsUnique(s, 0, |message|, 0, m, |message| - m);
    }
    if Pad(scheme, s, last).Some? {
      var block := Pad(scheme, s, last).value;
      var (st1, x) := Process(c, true, st, middle);
      var (st2, y) := Process(c, true, st1, block);
      assert middle + last == message;
      MultipleSum(m, |block|, s);
      ProcessConcatenation(c, true, st, middle, block);
      ProcessInverts(c, st, middle + block);
      var m' := MiddleLength(s, 0, |x + y|);
      SplitIsUnique(s, 0, |x + y|, 0, m', |x + y| - m');
      BothParts(x + y, []);
      AppendNothing(x + y);
      assert middle + block + [] == middle + block;
    }
  }

  datatype Status = Ok | DataFormatError | CiphertextError

  class StreamTransformationFilter<S(!new)> {
    const cipher: Cipher<S>
    const scheme: Scheme
    const forward: bool
    const buffered: FilterWithBufferedInput
    var state: S
    var output: seq<byte>
    /** The cipher's state and the output when the message began. */
    ghost var start: S
    ghost var outputBefore: seq<byte>

    ghost predicate Valid()
      reads this, buffered, buffered.queue, buffered.queue.buffer
    {
      && Sizes() && buffered.Valid()
      && Reached(buffered.handed)
    }

    ghost predicate Sizes()
      reads this, buffered`firstSize
    {
      && IsCipher(cipher)
      && buffered.firstSize == 0 && buffered.blockSize == cipher.blockSize
      && buffered.lastSize == LastSize(scheme, forward, cipher.blockSize)
    }

    /** The cipher has run over the middle bytes of these calls. */
    ghost predicate Reached(calls: seq<Call>)
      reads this
      requires cipher.blockSize > 0
    {
      && IsMultiple(|Bytes(calls)|, cipher.blockSize)
      && var (st, x) := Process(cipher, forward, start, Bytes(calls));
         state == st && output == outputBefore + x
    }

    constructor (cipher: Cipher<S>, scheme: Scheme, forward: bool, state: S)
      requires IsCipher(cipher)
      ensures Valid() && fresh(buffered) && fresh(buffered.queue) && fresh(buffered.queue.buffer)
      ensures this.cipher == cipher && this.scheme == scheme && this.forward == forward
      ensures start == state && outputBefore == output == [] && buffered.message == []
    {
      this.cipher, this.scheme, this.forward := cipher, scheme, forward;
      this.state, output := state, [];
      start, outputBefore := state, [];
      buffered := new FilterWithBufferedInput(0, cipher.blockSize, LastSize(scheme, forward, cipher.blockSize));
      new;
      MultipleUnits(cipher.blockSize);
    }

    /** A middle call: the bytes are transformed in pieces of whole blocks, as large as there is room
        for, and each piece is passed on. */
    method NextPut(data: seq<byte>, ghost before: seq<Call>)
      requires cipher.blockSize > 0 && Reached(before) && IsMultiple(|data|, cipher.blockSize)
      modifies this`state, this`output
      ensures Reached(before + [Next(data)])
    {
      var s := cipher.blockSize;
      ghost var done: seq<byte> := [];
      var rest := data;
      assert Bytes(before) + [] == Bytes(before);
      while |rest| > 0
        invariant data == done + rest && IsMultiple(|rest|, s)
        invariant IsMultiple(|Bytes(before) + done|, s)
        invariant var (st, x) := Process(cipher, forward, start, Bytes(before) + done);
                  state == st && output == outputBefore + x
      {
        MultipleLess(|rest|, s);
        MultipleUnits(s);
        assert Capacity(s, 1) == s;
        var blocks: nat :| 1 <= blocks && Capacity(s, blocks) <= |rest|;
        var len := Capacity(s, blocks);
        MultipleDifference(|rest|, blocks, s);
        var piece := rest[..len];
        MultipleSum(|Bytes(before) + done|, len, s);
        ProcessConcatenation(cipher, forward, start, Bytes(before) + done, piece);
        assert Bytes(before) + done + piece == Bytes(before) + (done + piece);
        var (st, x) := Process(cipher, forward, state, piece);
        assert outputBefore + Process(cipher, forward, start, Bytes(before) + done).1 + x
            == outputBefore + (Process(cipher, forward, start, Bytes(before) + done).1 + x);
        state, output := st, output + x;
        done, rest := done + piece, rest[len..];
      }
      BytesOfConcatenation(before, [Next(data)]);
      BytesOfOne(data);
      assert done == data;
    }

    /** The last call of a message. */
    method LastPut(last: seq<byte>) returns (status: Status)
      requires IsCipher(cipher) && (forward ==> |last| < cipher.blockSize)
      modifies this`state, this`output
      ensures match Finish(cipher, scheme, forward, old(state), last)
              case Done(st, x) => status == Ok && state == st && output == old(output) + x
              case InvalidDataFormat => status == DataFormatError && state == old(state) && output == old(output)
              case InvalidCiphertext => status == CiphertextError && output == old(output)
    {
      if scheme == NoPadding || scheme == ZerosPadding {
        status := LastUnpadded(last);
      } else if forward {
        PadAndEncrypt(last);
        status := Ok;
      } else {
        status := DecryptAndUnpad(last);
      }
    }

    method LastUnpadded(last: seq<byte>) returns (status: Status)
      requires IsCipher(cipher) && (forward ==> |last| < cipher.blockSize)
      requires scheme == NoPadding || scheme == ZerosPadding
      modifies this`state, this`output
      ensures match Finish(cipher, scheme, forward, old(state), last)
              case Done(st, x) => status == Ok && state == st && output == old(output) + x
              case InvalidDataFormat => status == DataFormatError && state == old(state) && output == old(output)
              case InvalidCiphertext => status == CiphertextError && output == old(output)
    {
      AppendNothing(output);
      status := Ok;
      if |last| > 0 {
        if forward && scheme == ZerosPadding {
          var space := last + Repeated<byte>(0, cipher.blockSize - |last|);
          ProcessOneBlock(cipher, true, state, space);
          var (st, x) := cipher.encrypt(state, space);
          state, output := st, output + x;
        } else if forward {
          status := DataFormatError;
        } else {
          status := CiphertextError;
        }
      }
    }

    method PadAndEncrypt(last: seq<byte>)
      requires IsCipher(cipher) && forward && |last| < cipher.blockSize
      requires scheme == PkcsPadding || scheme == OneAndZerosPadding
      modifies this`state, this`output
      ensures var r := Finish(cipher, scheme, forward, old(state), last);
              r.Done? && state == r.state && output == old(output) + r.output
    {
      var s := cipher.blockSize;
      var space := if scheme == PkcsPadding then last + Repeated<byte>(s - |last|, s - |last|)
                   else last + [0x80] + Repeated<byte>(0, s - |last| - 1);
      ProcessOneBlock(cipher, true, state, space);
      var (st, x) := cipher.encrypt(state, space);
      state, output := st, output + x;
    }

    method DecryptAndUnpad(last: seq<byte>) returns (status: Status)
      requires IsCipher(cipher) && !forward && (scheme == PkcsPadding || scheme == OneAndZerosPadding)
      modifies this`state, this`output
      ensures match Finish(cipher, scheme, forward, old(state), last)
              case Done(st, x) => status == Ok && state == st && output == old(output) + x
              case InvalidCiphertext => status == CiphertextError && output == old(output)
              case InvalidDataFormat => false
    {
      var s := cipher.blockSize;
      if |last| != s {
        return CiphertextError;
      }
      assert DecryptsBlock(cipher, state, last);
      var (st, space) := cipher.decrypt(state, last);
      state := st;
      if scheme == PkcsPadding {
        var pad := space[s - 1];
        if pad < 1 || pad > s || !AllEqual(space[s - pad..], pad) {
          return CiphertextError;
        }
        output := output + space[..s - pad];
      } else {
        var length := DropZeros(space);
        length := length - 1;
        if space[length] != 0x80 {
          return CiphertextError;
        }
        output := output + space[..length];
      }
      status := Ok;
    }

    /** The loop that walks back over trailing zeros. */
    method DropZeros(space: seq<byte>) returns (length: nat)
      requires |space| >= 1
      ensures length == WithoutZeros(space)
    {
      length := |space|;
      assert space[..length] == space;
      while length > 1 && space[length - 1] == 0
        invariant 1 <= length <= |space| && WithoutZeros(space[..length]) == WithoutZeros(space)
      {
        assert space[..length][..length - 1] == space[..length - 1];
        length := length - 1;
      }
    }

    /** Bytes of a message, and whether it ends with them: the filter puts out what the cipher makes of
        the whole message, however it was cut up. A refused message leaves the filter unusable. */
    method Put(input: seq<byte>, messageEnd: bool) returns (status: Status)
      requires Valid()
      modifies this, buffered, buffered.queue, buffered.queue.buffer
      ensures buffered.queue.buffer == old(buffered.queue.buffer) || fresh(buffered.queue.buffer)
      ensures !messageEnd ==>
                status == Ok && Valid() && start == old(start) && outputBefore == old(outputBefore)
                && buffered.message == old(buffered.message) + input
      ensures messageEnd ==>
                match Transform(cipher, scheme, forward, old(start), old(buffered.message) + input)
                case Done(st, x) =>
                  status == Ok && Valid() && state == start == st && output == outputBefore == old(outputBefore) + x
                  && buffered.message == []
                case InvalidDataFormat => status == DataFormatError
                case InvalidCiphertext => status == CiphertextError
    {
      hide IsCipher, Process, Finish, Transform, Partway, Complete, Bytes;
      ghost var handed, message := buffered.handed, buffered.message + input;
      var calls := buffered.Put(input, messageEnd);
      if messageEnd {
        status := EndOfMessage(handed, calls, message);
      } else {
        assert calls[..|calls|] == calls;
        HandleMiddle(handed, calls, |calls|, message, buffered.queue.Contents());
        status := Ok;
      }
    }

    /** The calls of a put that ends the message. */
    method EndOfMessage(ghost handed: seq<Call>, calls: seq<Call>, ghost message: seq<byte>) returns (status: Status)
      requires Sizes() && Reached(handed) && |calls| >= 2
      requires Complete(0, cipher.blockSize, buffered.lastSize, handed + calls, message)
      modifies this`state, this`output, this`start, this`outputBefore
      ensures match Transform(cipher, scheme, forward, old(start), message)
              case Done(st, x) =>
                status == Ok && state == start == st && output == outputBefore == old(outputBefore) + x
                && Reached([])
              case InvalidDataFormat => status == DataFormatError
              case InvalidCiphertext => status == CiphertextError
    {
      assert cipher.blockSize > 1;
      TransformByCalls(cipher, scheme, forward, start, handed + calls, message);
      hide IsCipher, Process, Finish, Transform, Partway, Complete, Bytes, IsMultiple, MiddleLength, LastSize;
      var n := |calls| - 2;
      CallsEnd(handed, calls, n);
      HandleMiddle(handed, calls, n, message, calls[n].data);
      AppendAssociates(outputBefore, Process(cipher, forward, start, Bytes(handed + calls[..n])).1,
                       Finish(cipher, scheme, forward, state, calls[n].data).Output());
      status := LastPut(calls[n].data);
      EmptyRun(cipher, forward, state);
      AppendNothing(output);
      start, outputBefore := state, output;
    }

    /** The calls before the last one, in order. */
    method HandleMiddle(
      ghost handed: seq<Call>, calls: seq<Call>, n: nat, ghost message: seq<byte>, ghost kept: seq<byte>)
      requires cipher.blockSize > 0 && n <= |calls| && Reached(handed)
      requires Partway(0, cipher.blockSize, buffered.lastSize, handed + calls[..n], message, kept)
      modifies this`state, this`output
      ensures Reached(handed + calls[..n])
    {
      hide Partway, Reached, Bytes, Process, IsMultiple;
      ghost var all := handed + calls[..n];
      NoCalls(handed, calls);
      for i := 0 to n
        invariant Reached(handed + calls[..i])
      {
        CallsUpTo(handed, calls, n, i);
        MiddleCall(0, cipher.blockSize, buffered.lastSize, all, message, kept, |handed| + i);
        HandleCall(handed + calls[..i], calls[i]);
      }
    }

    method HandleCall(ghost before: seq<Call>, call: Call)
      requires cipher.blockSize > 0 && Reached(before)
      requires call.First? || (call.Next? && IsMultiple(|call.data|, cipher.blockSize))
      modifies this`state, this`output
      ensures Reached(before + [call])
    {
      hide *;
      if call.Next? {
        NextPut(call.data, before);
      } else {
        FirstChangesNothing(before, call);
      }
    }

    /** The first call only prepares for the others. */
    lemma FirstChangesNothing(calls: seq<Call>, call: Call)
      requires cipher.blockSize > 0 && Reached(calls) && call.First?
      ensures Reached(calls + [call])
    {
      assert Bytes(calls + [call]) == Bytes(calls) by {
        assert (calls + [call])[..|calls|] == calls;
      }
    }
  }

  lemma NoCalls(handed: seq<Call>, calls: seq<Call>)
    ensures handed + calls[..0] == handed
  {}

  lemma CallsUpTo(handed: seq<Call>, calls: seq<Call>, n: nat, i: nat)
    requires i < n <= |calls|
    ensures handed + calls[..i + 1] == (handed + calls[..i]) + [calls[i]]
    ensures (handed + calls[..n])[|handed| + i] == calls[i]
  {}

  lemma CallsEnd(handed: seq<Call>, calls: seq<Call>, n: nat)
    requires n + 2 == |calls|
    ensures (handed + calls)[..|handed + calls| - 2] == handed + calls[..n]
    ensures (handed + calls)[|handed + calls| - 2] == calls[n]
  {}

  lemma EmptyRun<S(!new)>(c: Cipher<S>, forward: bool, st: S)
    requires c.blockSize > 0
    ensures Bytes([]) == [] && IsMultiple(0, c.blockSize) && Process(c, forward, st, Bytes([])) == (st, [])
  {
    MultipleUnits(c.blockSize);
  }

  /** Calls before the last are the first one or middle ones. */
  lemma MiddleCall(
    firstSize: nat, blockSize: nat, lastSize: nat, all: seq<Call>, message: seq<byte>, kept: seq<byte>, k: nat)
    requires Partway(firstSize, blockSize, lastSize, all, message, kept) && k < |all|
    ensures all[k].First? || (all[k].Next? && IsMultiple(|all[k].data|, blockSize))
  {
    if k > 0 { assert all[k] == all[1..][k - 1]; }
  }

  /** What is made of a finished message, in terms of its calls. */
  lemma TransformByCalls<S(!new)>(
    c: Cipher<S>, scheme: Scheme, forward: bool, st: S, all: seq<Call>, message: seq<byte>)
    requires IsCipher(c)
    requires Complete(0, c.blockSize, LastSize(scheme, forward, c.blockSize), all, message)
    ensures |all| > 2 && all[|all| - 2].Last? && (forward ==> |all[|all| - 2].data| < c.blockSize)
    ensures Partway(0, c.blockSize, LastSize(scheme, forward, c.blockSize), all[..|all| - 2], message,
      all[|all| - 2].data)
    ensures var (st', x) := Process(c, forward, st, Bytes(all[..|all| - 2]));
            Transform(c, scheme, forward, st, message)
            == After(x, Finish(c, scheme, forward, st', all[|all| - 2].data))
  {
    MessageSplit(c, scheme, forward, all, message);
  }

  /** The middle bytes and the last call of a finished message are those of the one-shot cut. */
  lemma MessageSplit<S(!new)>(c: Cipher<S>, scheme: Scheme, forward: bool, all: seq<Call>, message: seq<byte>)
    requires c.blockSize >= 1
    requires Complete(0, c.blockSize, LastSize(scheme, forward, c.blockSize), all, message)
    ensures |all| > 2 && all[|all| - 2].Last?
    ensures var m := MiddleLength(c.blockSize, LastSize(scheme, forward, c.blockSize), |message|);
            Bytes(all[..|all| - 2]) == message[..m] && all[|all| - 2].data == message[m..]
    ensures forward ==> |all[|all| - 2].data| < c.blockSize
  {
    ChunkingIsIrrelevant(0, c.blockSize, LastSize(scheme, forward, c.blockSize), all, message);
    var before := all[..|all| - 2];
    assert before == [all[0]] + all[1..|all| - 2];
    BytesOfConcatenation([all[0]], all[1..|all| - 2]);
    assert [all[0]][..0] == [] && Bytes([]) == [];
    assert message[0..] == message;
  }

  /** One whole message put in chunk by chunk. */
  method PutInChunks<S(!new)>(f: StreamTransformationFilter<S>, chunks: seq<seq<byte>>) returns (status: Status)
    requires f.Valid() && f.buffered.message == []
    modifies f, f.buffered, f.buffered.queue, f.buffered.queue.buffer
    ensures match Transform(f.cipher, f.scheme, f.forward, old(f.start), Flatten(chunks))
            case Done(st, x) => status == Ok && f.state == st && f.output == old(f.outputBefore) + x
            case InvalidDataFormat => status == DataFormatError
            case InvalidCiphertext => status == CiphertextError
  {
    hide IsCipher, Transform, Process, Partway, Bytes, Ring, Capacity;
    for i := 0 to |chunks|
      invariant f.Valid() && f.start == old(f.start) && f.outputBefore == old(f.outputBefore)
      invariant f.buffered.message == Flatten(chunks[..i])
      invariant f.buffered.queue.buffer == old(f.buffered.queue.buffer) || fresh(f.buffered.queue.buffer)
    {
      assert chunks[..i + 1][..i] == chunks[..i];
      status := f.Put(chunks[i], false);
    }
    assert chunks[..|chunks|] == chunks;
    AppendNothing(Flatten(chunks));
    status := f.Put([], true);
  }

  /** One message through a new filter. */
  method TransformMessage<S(!new)>(c: Cipher<S>, scheme: Scheme, forward: bool, st: S, chunks: seq<seq<byte>>)
    returns (status: Status, output: seq<byte>)
    requires IsCipher(c)
    ensures match Transform(c, scheme, forward, st, Flatten(chunks))
            case Done(_, x) => status == Ok && output == x
            case InvalidDataFormat => status == DataFormatError
            case InvalidCiphertext => status == CiphertextError
  {
    hide IsCipher, Transform, Flatten;
    var filter := new StreamTransformationFilter(c, scheme, forward, st);
    status := PutInChunks(filter, chunks);
    output := filter.output;
    ghost var x := Transform(c, scheme, forward, st, Flatten(chunks)).Output();
    assert [] + x == x;
  }

  /** Encryption at one end and decryption at the other, each cutting up its input in its own way. */
  method EncryptAndDecrypt<S(!new)>(
    c: Cipher<S>, scheme: Scheme, st: S, chunks: seq<seq<byte>>, cut: seq<byte> -> seq<seq<byte>>)
    returns (sent: seq<byte>, received: seq<byte>)
    requires IsCipher(c) && (scheme == PkcsPadding || scheme == OneAndZerosPadding)
    requires forall x :: Flatten(cut(x)) == x
    ensures received == Flatten(chunks)
  {
    var status;
    RoundTrip(c, scheme, st, Flatten(chunks));
    hide IsCipher, Transform;
    status, sent := TransformMessage(c, scheme, true, st, chunks);
    status, received := TransformMessage(c, scheme, false, st, cut(sent));
  }
}
