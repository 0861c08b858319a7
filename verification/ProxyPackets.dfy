/** The packets inside the proxy's frames: sequenced ones (SequencedPacket.cpp) and encrypted ones
    (EncryptedPacket.cpp). */
module ProxyPackets {
  import opened ByteStrings
  import opened ByteBuffers
  import opened BlockQueues
  import opened BufferedFilters
  import opened StreamTransformations
  import opened Frames

  // ---------- Sequence numbers ----------

  datatype Sequences = Sequences(localSeq: nat, remoteSeq: nat, playerSetupState: byte)

  /** State, remote and local sequence number in one word; the masked fields do not overlap. */
  function PackSequences(q: Sequences): (v: nat)
    ensures v < 0x1_0000_0000
  {
    q.playerSetupState * 0x100_0000 + q.remoteSeq % 0x1000 * 0x1000 + q.localSeq % 0x1000
  }

  /** v & 0xFFF, (v >> 12) & 0xFFF and (v >> 24) & 0xFF of a 32-bit word. */
  function Local(v: nat): nat {
    v % 0x1000
  }

  function Remote(v: nat): nat {
    v / 0x1000 % 0x1000
  }

  function State(v: nat): byte
    requires v < 0x1_0000_0000
  {
    v / 0x100_0000
  }

  function UnpackSequences(v: nat): Sequences
    requires v < 0x1_0000_0000
  {
    Sequences(Local(v), Remote(v), State(v))
  }

  lemma PackedSequences(q: Sequences)
    ensures UnpackSequences(PackSequences(q)) == q <==> q.localSeq < 0x1000 && q.remoteSeq < 0x1000
  {
    var l, r, p: int := q.localSeq % 0x1000, q.remoteSeq % 0x1000, q.playerSetupState;
    var v := p * 0x100_0000 + r * 0x1000 + l;
    assert v == (p * 0x1000 + r) * 0x1000 + l;
    assert v / 0x1000 == p * 0x1000 + r;
  }

  /** The bytes of a sequenced packet. */
  function WithHeader(q: Sequences, data: seq<byte>): seq<byte> {
    LittleEndian32(Swap32(PackSequences(q))) + Visible(data)
  }

  class SequencedPacket {
    var localSeq: nat
    var remoteSeq: nat
    var playerSetupState: byte
    const buffer: ByteBuffer

    function Numbers(): Sequences
      reads this
    {
      Sequences(localSeq, remoteSeq, playerSetupState)
    }

    constructor (localSeq: nat, remoteSeq: nat, playerSetupState: byte, headerless: seq<byte>)
      ensures fresh(buffer) && buffer.storage == headerless
      ensures this.localSeq == localSeq && this.remoteSeq == remoteSeq && this.playerSetupState == playerSetupState
    {
      this.localSeq, this.remoteSeq, this.playerSetupState := localSeq, remoteSeq, playerSetupState;
      buffer := new ByteBuffer();
      new;
      buffer.Append(headerless);
    }

    /** The numbers and the data out of a packet; one without a header is refused. */
    static method Parse(received: ByteBuffer) returns (ok: bool, packet: SequencedPacket)
      ensures fresh(packet) && fresh(packet.buffer)
      ensures ok == (received.Size() >= 4)
      ensures ok ==> HasParsed(received.storage, packet.Numbers(), packet.buffer.storage)
    {
      hide Swap32, FromLittleEndian32, Local, Remote, State;
      packet := new SequencedPacket(0, 0, 0, []);
      var withHeader := new ByteBuffer.Copy(received);
      withHeader.SetReadPosition(0);
      var head := withHeader.Read(4);
      if head == Error {
        return false, packet;
      }
      var packed := Swap32(FromLittleEndian32(head.value));
      packet.localSeq := Local(packed);
      packet.remoteSeq := Remote(packed);
      packet.playerSetupState := State(packed);
      var rest := withHeader.Read(withHeader.Size() - withHeader.rpos);
      assert Visible(received.storage)[..4] == head.value && Visible(received.storage)[4..] == rest.value;
      packet.buffer.Clear();
      packet.buffer.Append(rest.value);
      ok := true;
    }

    /** The constructor from a string parses the string into a temporary packet and discards that: the new
        packet is empty, and its numbers are what its memory held `before`. */
    static method FromString(withHeader: seq<byte>, before: Sequences) returns (ok: bool, packet: SequencedPacket)
      ensures fresh(packet) && fresh(packet.buffer)
      ensures ok == (Size16(|withHeader|) >= 4)
      ensures packet.Numbers() == before && packet.buffer.storage == []
    {
      packet := new SequencedPacket(before.localSeq, before.remoteSeq, before.playerSetupState, []);
      var simulation := new ByteBuffer();
      simulation.Append(withHeader);
      var temporary;
      ok, temporary := Parse(simulation);
    }

    method GetDataWithHeader() returns (b: ByteBuffer)
      ensures fresh(b)
      ensures b.storage == WithHeader(Numbers(), buffer.storage)
    {
      hide PackSequences, Swap32, LittleEndian32;
      b := new ByteBuffer();
      b.Append(LittleEndian32(Swap32(PackSequences(Numbers()))));
      b.Append(Visible(buffer.storage));
    }
  }

  /** What parsing finds in a packet's bytes, as far as their 16-bit size shows them. */
  ghost predicate HasParsed(bytes: seq<byte>, q: Sequences, data: seq<byte>) {
    var v := Visible(bytes);
    |v| >= 4 && q == UnpackSequences(Swap32(FromLittleEndian32(v[..4]))) && data == v[4..]
  }

  /** Parsing undoes adding the header exactly when the numbers have 12 bits and the packet's size 16. */
  lemma SequencedRoundTrip(q: Sequences, data: seq<byte>)
    ensures HasParsed(WithHeader(q, data), q, data)
       <==> q.localSeq < 0x1000 && q.remoteSeq < 0x1000 && |data| + 4 < 0x1_0000
  {
    hide PackSequences, UnpackSequences, Swap32, LittleEndian32, FromLittleEndian32, Size16;
    PackedSequences(q);
    WordRoundTrip32(PackSequences(q));
    WordRoundTrip32(Swap32(PackSequences(q)));
    var head := LittleEndian32(Swap32(PackSequences(q)));
    var w := head + Visible(data);
    TakeAndDrop(head, Visible(data), 4);
    assert head[..4] == head && head[4..] + Visible(data) == Visible(data);
    var v := Visible(w);
    if |v| >= 4 {
      assert v[..4] == w[..4];
      assert v[4..] == data ==> |v| == |data| + 4;
      assert |data| + 4 < 0x1_0000 ==> v == w;
    }
  }

  /** The number 4096 is read as 0. */
  lemma ThirteenBits()
    ensures var bytes := WithHeader(Sequences(0x1000, 0, 0), []);
            HasParsed(bytes, Sequences(0, 0, 0), []) && !HasParsed(bytes, Sequences(0x1000, 0, 0), [])
  {
    hide *;
    SamePacket();
    SequencedRoundTrip(Sequences(0, 0, 0), []);
    SequencedRoundTrip(Sequences(0x1000, 0, 0), []);
  }

  lemma SamePacket()
    ensures WithHeader(Sequences(0x1000, 0, 0), []) == WithHeader(Sequences(0, 0, 0), [])
  {
    assert PackSequences(Sequences(0x1000, 0, 0)) == PackSequences(Sequences(0, 0, 0));
    hide PackSequences, Swap32, LittleEndian32, Visible;
  }

  /** The constructor from a string makes the packet that was sent exactly when that had no data and the
      memory already held its numbers. */
  lemma StringConstructorAgrees(q: Sequences, data: seq<byte>, before: Sequences)
    requires q.localSeq < 0x1000 && q.remoteSeq < 0x1000 && |data| + 4 < 0x1_0000
    ensures HasParsed(WithHeader(q, data), before, []) <==> data == [] && before == q
  {
    SequencedRoundTrip(q, data);
    hide WithHeader, UnpackSequences;
  }

  // ---------- Encryption ----------

  /** A cipher in some mode, what setting its initial vector does, and a four-byte checksum. */
  datatype Session<!S(!new)> = Session(cipher: Cipher<S>, resynchronize: seq<byte> -> S, crc: seq<byte> -> seq<byte>)

  ghost predicate IsSession<S(!new)>(s: Session<S>) {
    IsCipher(s.cipher) && s.cipher.blockSize == 16 && forall x :: |s.crc(x)| == 4
  }

  /** Length, time and payload: what the checksum is taken of. */
  function Checked(time: nat, payload: seq<byte>): (b: seq<byte>)
    requires time < 0x1_0000_0000
    ensures |b| == 6 + Size16(|payload|)
  {
    LittleEndian16(Size16(|payload|)) + LittleEndian32(time) + Visible(payload)
  }

  /** The encrypted packet: the vector in the clear, then the ciphertext. */
  function Seal<S(!new)>(s: Session<S>, vector: seq<byte>, time: nat, payload: seq<byte>): seq<byte>
    requires IsSession(s) && time < 0x1_0000_0000
  {
    var checked := Checked(time, payload);
    vector + Transform(s.cipher, PkcsPadding, true, s.resynchronize(vector), s.crc(checked) + checked).Output()
  }

  datatype Opened = Payload(data: seq<byte>) | BadCiphertext | ReadError | OutOfRange | InvalidCrc | InvalidLength

  /** What is found in a decrypted packet. */
  function Checks<S(!new)>(s: Session<S>, decrypted: seq<byte>): Opened {
    if |decrypted| < 4 then OutOfRange
    else
      var checked := decrypted[4..];
      if s.crc(checked) != decrypted[..4] then InvalidCrc
      else if |checked| < 6 then OutOfRange
      else if |checked| - 6 != FromLittleEndian16(checked[..2]) then InvalidLength
      else Payload(checked[6..])
  }

  function Open<S(!new)>(s: Session<S>, packet: seq<byte>): Opened
    requires IsSession(s)
  {
    var v := Visible(packet);
    if |v| < 1 then BadCiphertext
    else if |v| < 16 then ReadError
    else
      match Transform(s.cipher, PkcsPadding, false, s.resynchronize(v[..16]), v[16..])
      case Done(_, decrypted) => Checks(s, decrypted)
      case _ => BadCiphertext
  }

  class EncryptedPacket {
    const buffer: ByteBuffer

    constructor (payload: seq<byte>)
      ensures fresh(buffer) && buffer.storage == payload
    {
      buffer := new ByteBuffer();
      new;
      buffer.Append(payload);
    }

    /** Encrypts for a random vector and the time of the call; nothing is not encrypted. */
    method ToCipherText<S(!new)>(s: Session<S>, vector: seq<byte>, time: nat) returns (ok: bool, packet: ByteBuffer)
      requires IsSession(s) && time < 0x1_0000_0000
      ensures fresh(packet) && ok == (buffer.Size() >= 1)
      ensures ok ==> packet.storage == Seal(s, vector, time, buffer.storage)
    {
      packet := new ByteBuffer();
      if buffer.Size() < 1 {
        return false, packet;
      }
      var checked := LittleEndian16(buffer.Size()) + LittleEndian32(time) + Visible(buffer.storage);
      hide IsCipher, Transform, LittleEndian16, LittleEndian32, Visible, Size16;
      var encryptMe := s.crc(checked) + checked;
      FlattenOne(encryptMe);
      PaddingAlwaysWorks(s.cipher, s.resynchronize(vector), encryptMe);
      var status, encrypted := TransformMessage(s.cipher, PkcsPadding, true, s.resynchronize(vector), [encryptMe]);
      packet.Append(vector);
      packet.Append(encrypted);
      packet.SetReadPosition(0);
      ok := true;
    }

    /** Decrypts and checks a packet; the payload is only replaced by one that passes. */
    method FromCipherText<S(!new)>(s: Session<S>, cipherText: ByteBuffer) returns (r: Opened)
      requires IsSession(s) && cipherText != buffer
      modifies buffer, cipherText`rpos
      ensures r == Open(s, cipherText.storage)
      ensures buffer.storage == if r.Payload? then r.data else old(buffer.storage)
    {
      if cipherText.Size() < 1 {
        return BadCiphertext;
      }
      cipherText.SetReadPosition(0);
      var vector := cipherText.Read(16);
      if vector == Error {
        return ReadError;
      }
      var encrypted := cipherText.Read(cipherText.Size() - cipherText.rpos);
      FlattenOne(encrypted.value);
      assert Visible(cipherText.storage)[..16] == vector.value && Visible(cipherText.storage)[16..] == encrypted.value;
      hide IsCipher, Transform, Checks, Size16;
      var status, decrypted :=
        TransformMessage(s.cipher, PkcsPadding, false, s.resynchronize(vector.value), [encrypted.value]);
      if status != Ok {
        return BadCiphertext;
      }
      r := CheckDecrypted(s, decrypted);
      if r.Payload? {
        buffer.Clear();
        buffer.Append(r.data);
      }
    }

    /** Strips checksum, length and time one after the other. */
    method CheckDecrypted<S(!new)>(s: Session<S>, packet: seq<byte>) returns (r: Opened)
      ensures r == Checks(s, packet)
    {
      var decrypted := packet;
      if |decrypted| < 4 {
        return OutOfRange;
      }
      var crc32 := decrypted[..4];
      decrypted := decrypted[4..];
      if s.crc(decrypted) != crc32 {
        return InvalidCrc;
      }
      if |decrypted| < 2 {
        return OutOfRange;
      }
      var length := FromLittleEndian16(decrypted[..2]);
      decrypted := decrypted[2..];
      if |decrypted| < 4 {
        return OutOfRange;
      }
      decrypted := decrypted[4..];
      if |decrypted| != length {
        return InvalidLength;
      }
      r := Payload(decrypted);
    }
  }

  lemma FlattenOne(s: seq<byte>)
    ensures Flatten([s]) == s
  {
    assert [s][..0] == [];
    assert Flatten([s][..0]) + s == s;
  }

  lemma PaddingAlwaysWorks<S(!new)>(c: Cipher<S>, st: S, message: seq<byte>)
    requires IsCipher(c)
    ensures Transform(c, PkcsPadding, true, st, message).Done?
  {
    RoundTrip(c, PkcsPadding, st, message);
  }

  /** Encryption lengthens a message to the next whole block. */
  lemma EncryptedLength<S(!new)>(c: Cipher<S>, st: S, message: seq<byte>)
    requires IsCipher(c) && c.blockSize == 16
    ensures var n := |Transform(c, PkcsPadding, true, st, message).Output()|;
            |message| < n <= |message| + 16 && n % 16 == 0
  {
    var m := MiddleLength(16, 0, |message|);
    var block := Pad(PkcsPadding, 16, message[m..]).value;
    var k: nat :| m == Capacity(16, k);
    var st' := Process(c, true, st, message[..m]).0;
    MultipleUnits(16);
    ProcessInverts(c, st, message[..m]);
    ProcessInverts(c, st', block);
  }

  /** Decryption does not lengthen one. */
  lemma {:induction false} DecryptedLength<S(!new)>(c: Cipher<S>, st: S, data: seq<byte>)
    requires IsCipher(c)
    ensures |Process(c, false, st, data).1| <= |data|
    decreases |data|
  {
    if |data| >= c.blockSize {
      assert DecryptsBlock(c, st, data[..c.blockSize]);
      DecryptedLength(c, c.decrypt(st, data[..c.blockSize]).0, data[c.blockSize..]);
    }
  }

  lemma OpenedLength<S(!new)>(s: Session<S>, packet: seq<byte>)
    requires IsSession(s)
    ensures Open(s, packet).Payload? ==> |Open(s, packet).data| < |Visible(packet)|
  {
    var v := Visible(packet);
    if Open(s, packet).Payload? {
      var c, st, data := s.cipher, s.resynchronize(v[..16]), v[16..];
      var m := MiddleLength(16, 16, |data|);
      DecryptedLength(c, st, data[..m]);
      var st' := Process(c, false, st, data[..m]).0;
      hide Process, MiddleLength;
      if |data[m..]| == 16 { assert DecryptsBlock(c, st', data[m..]); }
    }
  }

  /** The checks pass on what was sealed, when its size shows. */
  lemma ChecksSealed<S(!new)>(s: Session<S>, time: nat, payload: seq<byte>)
    requires IsSession(s) && time < 0x1_0000_0000 && |payload| < 0x1_0000
    ensures var checked := Checked(time, payload); Checks(s, s.crc(checked) + checked) == Payload(payload)
  {
    var length, checked := LittleEndian16(|payload|), Checked(time, payload);
    WordRoundTrip16(|payload|);
    var d := s.crc(checked) + checked;
    assert d[..4] == s.crc(checked) && d[4..] == checked;
    assert checked[..2] == length && checked[6..] == payload;
  }

  /** A sealed payload opens to itself exactly when the packet's size shows in sixteen bits: when it has
      at most 65493 bytes. (An empty one is refused.) */
  lemma OpensExactlyWhenSizeShows<S(!new)>(s: Session<S>, vector: seq<byte>, time: nat, payload: seq<byte>)
    requires IsSession(s) && |vector| == 16 && time < 0x1_0000_0000
    ensures Open(s, Seal(s, vector, time, payload)) == Payload(payload) <==> |payload| <= 65493
    ensures |payload| < 0x1_0000 ==>
      var n := |Seal(s, vector, time, payload)|; 26 + |payload| < n <= 42 + |payload| && n % 16 == 0
  {
    hide Seal, Open, IsCipher, Transform, Checks, Checked, Visible;
    SealedLength(s, vector, time, payload);
    OpenedLength(s, Seal(s, vector, time, payload));
    if |Seal(s, vector, time, payload)| < 0x1_0000 && |payload| < 0x1_0000 {
      OpensSealed(s, vector, time, payload);
    }
  }

  lemma SealedLength<S(!new)>(s: Session<S>, vector: seq<byte>, time: nat, payload: seq<byte>)
    requires IsSession(s) && |vector| == 16 && time < 0x1_0000_0000
    ensures var n := |Seal(s, vector, time, payload)|;
            26 + Size16(|payload|) < n <= 42 + Size16(|payload|) && n % 16 == 0
            && |Visible(Seal(s, vector, time, payload))| == n % 0x1_0000
  {
    var checked := Checked(time, payload);
    var message := s.crc(checked) + checked;
    EncryptedLength(s.cipher, s.resynchronize(vector), message);
    assert |message| == 10 + Size16(|payload|);
    var n := |Transform(s.cipher, PkcsPadding, true, s.resynchronize(vector), message).Output()|;
    assert |Seal(s, vector, time, payload)| == 16 + n;
    hide *;
    VectorInFront(n);
  }

  lemma VectorInFront(n: nat)
    ensures n % 16 == 0 ==> (16 + n) % 16 == 0
  {}

  lemma OpensSealed<S(!new)>(s: Session<S>, vector: seq<byte>, time: nat, payload: seq<byte>)
    requires IsSession(s) && |vector| == 16 && time < 0x1_0000_0000 && |payload| < 0x1_0000
    requires |Seal(s, vector, time, payload)| < 0x1_0000
    ensures Open(s, Seal(s, vector, time, payload)) == Payload(payload)
  {
    var checked := Checked(time, payload);
    var message, st := s.crc(checked) + checked, s.resynchronize(vector);
    RoundTrip(s.cipher, PkcsPadding, st, message);
    ChecksSealed(s, time, payload);
    hide Transform, IsCipher, Checks, Checked;
    var packet := Seal(s, vector, time, payload);
    assert packet[..16] == vector && packet[16..] == Transform(s.cipher, PkcsPadding, true, st, message).Output();
  }

  // ---------- Whole stacks ----------

  /** What arrives of a payload that was sealed and framed: the first packet cut, stripped and opened. */
  function Arrives<S(!new)>(s: Session<S>, stream: seq<byte>): Opened
    requires IsSession(s)
  {
    var packets := Cut(stream);
    if packets == [] || |packets[0]| < HeaderLength(packets[0]) then OutOfRange
    else Open(s, packets[0][HeaderLength(packets[0])..])
  }

  /** Over TCP, any sequence of payloads of at most 32725 bytes arrives as sent: the packets are cut
      apart, and each opens to its payload. */
  lemma TcpStack<S(!new)>(s: Session<S>, vectors: seq<seq<byte>>, times: seq<nat>, payloads: seq<seq<byte>>)
    requires IsSession(s) && |vectors| == |times| == |payloads|
    requires forall i :: 0 <= i < |payloads| ==>
      |vectors[i]| == 16 && times[i] < 0x1_0000_0000 && |payloads[i]| <= 32725
    ensures var sealed := seq(|payloads|, i requires 0 <= i < |payloads| => Seal(s, vectors[i], times[i], payloads[i]));
            var packets := Cut(Flatten(AllFrames(sealed)));
            |packets| == |payloads| && forall i :: 0 <= i < |payloads| ==>
              |packets[i]| >= HeaderLength(packets[i])
              && Open(s, packets[i][HeaderLength(packets[i])..]) == Payload(payloads[i])
  {
    hide Seal, Open, IsCipher;
    var sealed := seq(|payloads|, i requires 0 <= i < |payloads| => Seal(s, vectors[i], times[i], payloads[i]));
    forall i | 0 <= i < |payloads|
      ensures FitsFrame(sealed[i]) && Open(s, sealed[i]) == Payload(payloads[i])
    {
      OpensExactlyWhenSizeShows(s, vectors[i], times[i], payloads[i]);
    }
    CutOfFrames(sealed);
    forall i | 0 <= i < |payloads|
      ensures AllFrames(sealed)[i] == Frame(sealed[i])
      ensures |Frame(sealed[i])| >= HeaderLength(Frame(sealed[i]))
      ensures Frame(sealed[i])[HeaderLength(Frame(sealed[i]))..] == sealed[i]
    {
      FrameAt(sealed, i);
      FrameFound(sealed[i], []);
    }
  }

  lemma {:induction false} FrameAt(payloads: seq<seq<byte>>, i: nat)
    requires i < |payloads|
    ensures AllFrames(payloads)[i] == Frame(payloads[i])
  {
    if i > 0 { FrameAt(payloads[1..], i - 1); }
  }

  /** The sealed packet of a larger payload does not fit a frame. */
  lemma FrameLimit<S(!new)>(s: Session<S>, vector: seq<byte>, time: nat, payload: seq<byte>)
    requires IsSession(s) && |vector| == 16 && time < 0x1_0000_0000 && |payload| < 0x1_0000
    ensures FitsFrame(Seal(s, vector, time, payload)) <==> |payload| <= 32725
  {
    hide Seal, IsCipher;
    OpensExactlyWhenSizeShows(s, vector, time, payload);
  }

  /** A payload that is sealed and framed arrives exactly when it has at most 32725 bytes. */
  lemma ArrivesExactlyWhenFits<S(!new)>(s: Session<S>, vector: seq<byte>, time: nat, payload: seq<byte>)
    requires IsSession(s) && |vector| == 16 && time < 0x1_0000_0000
    ensures Arrives(s, Frame(Seal(s, vector, time, payload))) == Payload(payload) <==> |payload| <= 32725
  {
    hide Seal, Open, Frame, Cut, IsCipher, HeaderLength, Visible;
    var packet := Seal(s, vector, time, payload);
    OpensExactlyWhenSizeShows(s, vector, time, payload);
    DeliveredExactlyWhenFits(packet);
    CutLength(packet);
    var arrived := Cut(Frame(packet))[0];
    OpenedLength(s, arrived[HeaderLength(arrived)..]);
  }

  /** Over UDP, a datagram carries sequence numbers and data inside the encryption: they arrive exactly when
      the numbers have 12 bits and the data at most 65489 bytes. */
  lemma UdpStack<S(!new)>(s: Session<S>, vector: seq<byte>, time: nat, q: Sequences, data: seq<byte>)
    requires IsSession(s) && |vector| == 16 && time < 0x1_0000_0000
    ensures var packet := WithHeader(q, data);
            Open(s, Seal(s, vector, time, packet)) == Payload(packet) && HasParsed(packet, q, data)
            <==> q.localSeq < 0x1000 && q.remoteSeq < 0x1000 && |data| <= 65489
  {
    hide Seal, Open, IsCipher, HasParsed;
    SequencedRoundTrip(q, data);
    OpensExactlyWhenSizeShows(s, vector, time, WithHeader(q, data));
  }

  /** The shortest payloads that are lost: 32726 zeros over TCP, 65494 in a packet alone, 0x8000 in a frame. */
  lemma ShortestLost<S(!new)>(s: Session<S>, vector: seq<byte>, time: nat)
    requires IsSession(s) && |vector| == 16 && time < 0x1_0000_0000
    ensures Arrives(s, Frame(Seal(s, vector, time, Repeated<byte>(0, 32726)))) != Payload(Repeated<byte>(0, 32726))
    ensures Open(s, Seal(s, vector, time, Repeated<byte>(0, 65494))) != Payload(Repeated<byte>(0, 65494))
    ensures var packets := Cut(Frame(Repeated<byte>(0, 0x8000)));
            packets == [] || packets[0][HeaderLength(packets[0])..] != Repeated<byte>(0, 0x8000)
  {
    ArrivesExactlyWhenFits(s, vector, time, Repeated<byte>(0, 32726));
    OpensExactlyWhenSizeShows(s, vector, time, Repeated<byte>(0, 65494));
    DeliveredExactlyWhenFits(Repeated<byte>(0, 0x8000));
    hide Open, Seal, Frame, Arrives, Cut, HeaderLength;
  }
}
