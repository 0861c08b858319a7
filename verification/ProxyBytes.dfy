/** The proxy's packets octet by octet (TCPVariableLengthPacket.cpp, SequencedPacket.cpp, EncryptedPacket.cpp). */
module ProxyBytes {
  import opened ByteStrings
  import opened ByteBuffers
  import opened BlockQueues
  import opened BufferedFilters
  import opened StreamTransformations
  import opened PaddedMessages
  import opened Frames
  import opened ProxyPackets

  /** A frame: the payload's size in one octet, or in two with the top bit set, the higher one first. */
  lemma FrameBytes(payload: seq<byte>)
    requires |payload| < 0x8000
    ensures Frame(payload)
         == (if |payload| < 0x80 then [|payload|] else [0x80 + |payload| / 0x100, |payload| % 0x100]) + payload
  {}

  /** What is read as a frame: a size in one or two octets, also when one would do, and that many more. */
  lemma FrameRead(s: seq<byte>)
    ensures NextFrame(s)
         == if s == [] || (s[0] >= 0x80 && |s| < 2) then 0
            else
              var n := if s[0] < 0x80 then 1 + s[0] as nat else 2 + (s[0] as nat - 0x80) * 0x100 + s[1] as nat;
              if n <= |s| then n else 0
  {}

  lemma BigEndianWord(v: nat)
    requires v < 0x1_0000_0000
    ensures LittleEndian32(Swap32(v)) == BigEndian16(High16(v)) + BigEndian16(Low16(v))
  {
    hide Swap16, LittleEndian16, BigEndian16, Low16, High16;
    SwappedIsBigEndian(High16(v));
    SwappedIsBigEndian(Low16(v));
    HalvesOf(Swap16(High16(v)), Swap16(Low16(v)));
  }

  /** State, remote and local number of a packet, in one word of 8, 12 and 12 bits. */
  lemma PackedWord(q: Sequences)
    requires q.localSeq < 0x1000 && q.remoteSeq < 0x1000
    ensures var v := PackSequences(q);
            && High16(v) == q.playerSetupState * 0x100 + q.remoteSeq / 0x10
            && Low16(v) == q.remoteSeq % 0x10 * 0x1000 + q.localSeq
  {
    var low, high := q.remoteSeq % 0x10 * 0x1000 + q.localSeq, q.playerSetupState * 0x100 + q.remoteSeq / 0x10;
    assert q.localSeq % 0x1000 == q.localSeq && q.remoteSeq % 0x1000 == q.remoteSeq;
    assert PackSequences(q) == low + 0x1_0000 * high;
    HalvesOf(low, high);
  }

  /** A sequenced packet: the word's octets, the highest first, and the data. */
  lemma SequencedBytes(q: Sequences, data: seq<byte>)
    requires q.localSeq < 0x1000 && q.remoteSeq < 0x1000 && |data| < 0x1_0000
    ensures WithHeader(q, data)
         == [q.playerSetupState, q.remoteSeq / 0x10, q.remoteSeq % 0x10 * 0x10 + q.localSeq / 0x100,
             q.localSeq % 0x100] + data
  {
    hide PackSequences, Swap32, LittleEndian32, High16, Low16, Visible;
    BigEndianWord(PackSequences(q));
    PackedWord(q);
    Octets(q.playerSetupState, q.remoteSeq / 0x10);
    Octets(q.remoteSeq % 0x10 * 0x10 + q.localSeq / 0x100, q.localSeq % 0x100);
    assert Visible(data) == data;
  }

  lemma Octets(high: byte, low: byte)
    ensures BigEndian16(high * 0x100 + low) == [high, low]
  {}

  /** Length, time and payload: the length in two octets, the time in four, the lowest first. */
  function Stamped(time: nat, payload: seq<byte>): seq<byte>
    requires time < 0x1_0000_0000 && |payload| < 0x1_0000
  {
    [|payload| % 0x100, |payload| / 0x100,
     time % 0x100, time / 0x100 % 0x100, time / 0x1_0000 % 0x100, time / 0x100_0000] + payload
  }

  lemma LowOctet(v: nat)
    ensures v % 0x1_0000 % 0x100 == v % 0x100
  {}

  lemma NextOctet(v: nat)
    ensures v % 0x1_0000 / 0x100 == v / 0x100 % 0x100
  {}

  lemma TopOctet(v: nat)
    ensures v / 0x1_0000 / 0x100 == v / 0x100_0000
  {}

  lemma TimeBytes(time: nat)
    requires time < 0x1_0000_0000
    ensures LittleEndian32(time)
         == [time % 0x100, time / 0x100 % 0x100, time / 0x1_0000 % 0x100, time / 0x100_0000]
  {
    LowOctet(time);
    NextOctet(time);
    TopOctet(time);
  }

  lemma CheckedIs(time: nat, payload: seq<byte>)
    requires time < 0x1_0000_0000 && |payload| < 0x1_0000
    ensures Checked(time, payload) == Stamped(time, payload)
  {
    TimeBytes(time);
    hide LittleEndian32;
  }

  /** An encrypted packet: the vector, and the checksum with what it is taken of, filled up with k octets of
      value k and encrypted in one run from the vector. */
  lemma SealedBytes<S(!new)>(s: Session<S>, vector: seq<byte>, time: nat, payload: seq<byte>)
    requires IsSession(s) && time < 0x1_0000_0000 && |payload| < 0x1_0000
    ensures var stamped := Stamped(time, payload);
            var k := 16 - (10 + |payload|) % 16;
            Seal(s, vector, time, payload) == vector
              + Process(s.cipher, true, s.resynchronize(vector), s.crc(stamped) + stamped + Repeated<byte>(k, k)).1
  {
    CheckedIs(time, payload);
    var message := s.crc(Stamped(time, payload)) + Stamped(time, payload);
    assert |message| == 10 + |payload|;
    EncryptedPkcs(s.cipher, s.resynchronize(vector), message);
    hide Checked, Transform, Process, Stamped;
  }

  /** What the ciphertext of a packet with this payload decrypts to. */
  ghost predicate Carries<S(!new)>(s: Session<S>, packet: seq<byte>, payload: seq<byte>, time: nat)
    requires IsSession(s) && |packet| >= 16
  {
    time < 0x1_0000_0000 && |payload| < 0x1_0000 &&
    var stamped := Stamped(time, payload);
    var k := 16 - (10 + |payload|) % 16;
    (|packet| - 16) % 16 == 0
    && Process(s.cipher, false, s.resynchronize(packet[..16]), packet[16..]).1
       == s.crc(stamped) + stamped + Repeated<byte>(k, k)
  }

  lemma ChecksStamped<S(!new)>(s: Session<S>, time: nat, payload: seq<byte>)
    requires IsSession(s) && time < 0x1_0000_0000 && |payload| < 0x1_0000
    ensures Checks(s, s.crc(Stamped(time, payload)) + Stamped(time, payload)) == Payload(payload)
  {
    CheckedIs(time, payload);
    ChecksSealed(s, time, payload);
  }

  /** What passes the checks is a checksum and what it is taken of. */
  lemma ChecksOnly<S(!new)>(s: Session<S>, decrypted: seq<byte>, payload: seq<byte>) returns (time: nat)
    requires IsSession(s) && Checks(s, decrypted) == Payload(payload)
    ensures time < 0x1_0000_0000 && |payload| < 0x1_0000
    ensures decrypted == s.crc(Stamped(time, payload)) + Stamped(time, payload)
  {
    var checked := decrypted[4..];
    var a: nat, b: nat, c: nat, d: nat := checked[2], checked[3], checked[4], checked[5];
    time := a + 0x100 * b + 0x1_0000 * (c + 0x100 * d);
    TimeParts(a, b, c, d);
    Word16Bytes(checked[0], checked[1]);
    assert checked == Stamped(time, payload);
  }

  lemma TimeParts(a: nat, b: nat, c: nat, d: nat)
    requires a < 0x100 && b < 0x100 && c < 0x100 && d < 0x100
    ensures var time := a + 0x100 * b + 0x1_0000 * (c + 0x100 * d);
            time < 0x1_0000_0000 && time % 0x100 == a && time / 0x100 % 0x100 == b
            && time / 0x1_0000 % 0x100 == c && time / 0x100_0000 == d
  {
    var time := a + 0x100 * b + 0x1_0000 * (c + 0x100 * d);
    assert time / 0x100 == b + 0x100 * (c + 0x100 * d) && time / 0x1_0000 == c + 0x100 * d;
  }

  /** A packet opens to a payload exactly when its ciphertext decrypts to that payload with its checksum,
      its length and some time, filled up as in sealing. */
  lemma OpensExactlyWhenCarried<S(!new)>(s: Session<S>, packet: seq<byte>, payload: seq<byte>)
    requires IsSession(s) && 16 <= |packet| < 0x1_0000
    ensures Open(s, packet) == Payload(payload) <==> exists time :: Carries(s, packet, payload, time)
  {
    hide IsCipher, Transform, Process, Checks, Stamped;
    var st, data := s.resynchronize(packet[..16]), packet[16..];
    assert Visible(packet) == packet;
    if Open(s, packet) == Payload(payload) {
      var r := Transform(s.cipher, PkcsPadding, false, st, data);
      DecryptedPkcs(s.cipher, st, data, r.state, r.output);
      var time := ChecksOnly(s, r.output, payload);
      StampedLength(s, time, payload);
      assert Carries(s, packet, payload, time);
    }
    if time :| Carries(s, packet, payload, time) {
      var message := s.crc(Stamped(time, payload)) + Stamped(time, payload);
      StampedLength(s, time, payload);
      DecryptedPkcs(s.cipher, st, data, Process(s.cipher, false, st, data).0, message);
      ChecksStamped(s, time, payload);
    }
  }

  lemma StampedLength<S(!new)>(s: Session<S>, time: nat, payload: seq<byte>)
    requires IsSession(s) && time < 0x1_0000_0000 && |payload| < 0x1_0000
    ensures |s.crc(Stamped(time, payload)) + Stamped(time, payload)| == 10 + |payload|
  {}

  /** What a packet with any contents opens to, and which check refuses it: checksum, length, time and
      payload are taken off one after the other. */
  lemma OpensAs<S(!new)>(s: Session<S>, vector: seq<byte>, contents: seq<byte>)
    requires IsSession(s) && |vector| == 16 && |contents| < 0xFFE0
    ensures var k := 16 - |contents| % 16;
            var packet := vector + Process(s.cipher, true, s.resynchronize(vector), contents + Repeated<byte>(k, k)).1;
            Open(s, packet)
            == if |contents| < 4 then OutOfRange
               else if s.crc(contents[4..]) != contents[..4] then InvalidCrc
               else if |contents| < 10 then OutOfRange
               else if |contents| - 10 != contents[4] as nat + 0x100 * contents[5] as nat then InvalidLength
               else Payload(contents[10..])
  {
    hide IsCipher, Transform, Process, Checks, Open;
    var st := s.resynchronize(vector);
    var data, st' := RunOnce(s.cipher, st, contents);
    OpensTransformed(s, vector, contents, st', data);
    ChecksOf(s, contents);
  }

  /** The ciphertext of contents, which decrypts to them. */
  lemma RunOnce<S(!new)>(c: Cipher<S>, st: S, contents: seq<byte>) returns (data: seq<byte>, st': S)
    requires IsCipher(c) && c.blockSize == 16
    ensures var k := 16 - |contents| % 16;
            1 <= k <= 16 && data == Process(c, true, st, contents + Repeated<byte>(k, k)).1
    ensures 0 < |data| <= |contents| + 16
    ensures Transform(c, PkcsPadding, false, st, data) == Done(st', contents)
  {
    hide IsCipher, Transform, Process;
    EncryptedPkcs(c, st, contents);
    EncryptedLength(c, st, contents);
    RoundTrip(c, PkcsPadding, st, contents);
    var e := Transform(c, PkcsPadding, true, st, contents);
    data, st' := e.output, e.state;
  }

  lemma OpensTransformed<S(!new)>(s: Session<S>, vector: seq<byte>, contents: seq<byte>, st: S, data: seq<byte>)
    requires IsSession(s) && |vector| == 16 && 0 < |data| < 0xFFF0
    requires Transform(s.cipher, PkcsPadding, false, s.resynchronize(vector), data) == Done(st, contents)
    ensures Open(s, vector + data) == Checks(s, contents)
  {
    hide IsCipher, Transform, Checks;
    BothParts(vector, data);
    assert Visible(vector + data) == vector + data;
  }

  lemma ChecksOf<S(!new)>(s: Session<S>, contents: seq<byte>)
    requires IsSession(s)
    ensures Checks(s, contents)
         == if |contents| < 4 then OutOfRange
            else if s.crc(contents[4..]) != contents[..4] then InvalidCrc
            else if |contents| < 10 then OutOfRange
            else if |contents| - 10 != contents[4] as nat + 0x100 * contents[5] as nat then InvalidLength
            else Payload(contents[10..])
  {
    if |contents| >= 10 {
      assert contents[4..][..2] == [contents[4], contents[5]] && contents[4..][6..] == contents[10..];
    }
  }
}
