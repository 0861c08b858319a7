/** Length-prefixed frames on a TCP stream (TCPVariableLengthPacket.cpp and the receive loops of
    stprog.cpp). */
module Frames {
  import opened ByteStrings
  import opened ByteBuffers

  /** v | 0x8000 */
  function WithTopBit(v: nat): (w: nat)
    requires v < 0x1_0000
    ensures 0x8000 <= w < 0x1_0000
  {
    if v < 0x8000 then v + 0x8000 else v
  }

  /** The bytes that go out for a payload. */
  function Frame(payload: seq<byte>): seq<byte> {
    var body := Visible(payload);
    if |body| > 0x7f then
      var w := WithTopBit(|body|);
      BigEndian16(w) + body
    else [|body|] + body
  }

  function BigEndian16(v: nat): (s: seq<byte>)
    requires v < 0x1_0000
    ensures |s| == 2
  {
    [v / 0x100, v % 0x100]
  }

  lemma SwappedIsBigEndian(v: nat)
    requires v < 0x1_0000
    ensures LittleEndian16(Swap16(v)) == BigEndian16(v)
  {
    Word16Bytes(v / 0x100, v % 0x100);
  }

  method GetContentsWithSize(packet: ByteBuffer) returns (framed: ByteBuffer)
    ensures fresh(framed) && framed.storage == Frame(packet.storage)
    ensures framed.rpos == 0 && framed.wpos == |framed.storage|
  {
    hide Size16, Visible, BigEndian16, LittleEndian16, Swap16;
    var packetSize := packet.Size();
    framed := new ByteBuffer();
    if packetSize > 0x7f {
      SwappedIsBigEndian(WithTopBit(packetSize));
      packetSize := Swap16(WithTopBit(packetSize));
      framed.Append(LittleEndian16(packetSize));
    } else {
      framed.Append([packetSize]);
    }
    framed.Append(Visible(packet.storage));
  }

  function HeaderLength(packet: seq<byte>): nat {
    if packet != [] && packet[0] > 0x7F then 2 else 1
  }

  /** A received packet without its header; too short a packet is refused. */
  method StripHeader(packet: seq<byte>) returns (ok: bool, contents: ByteBuffer)
    ensures fresh(contents)
    ensures ok == (|packet| >= HeaderLength(packet))
    ensures ok ==> contents.storage == packet[HeaderLength(packet)..] && contents.rpos == 0
  {
    contents := new ByteBuffer();
    var bytesToRemove := 1;
    var firstByte: byte := if packet == [] then 0 else packet[0];
    if firstByte > 0x7F {
      bytesToRemove := 2;
      firstByte := firstByte - 0x80;
    }
    ok := bytesToRemove <= |packet|;
    if ok {
      contents.Append(packet[bytesToRemove..]);
      contents.SetReadPosition(0);
    }
  }

  // ---------- Receiving ----------

  /** The number of size bytes that a stream begins with, and the size; zero bytes if they are incomplete. */
  function FrameHeader(s: seq<byte>): (r: (nat, nat))
    ensures r.0 <= 2 && r.0 <= |s| && r.1 < 0x8000
  {
    if s == [] then (0, 0)
    else if s[0] <= 0x7F then (1, s[0] as nat)
    else if |s| < 2 then (0, 0)
    else (2, Word16(s[1], s[0] - 0x80))
  }

  /** The length of the frame that a stream begins with, or zero if there is no whole frame. */
  function NextFrame(s: seq<byte>): (n: nat)
    ensures n <= |s|
  {
    var (k, size) := FrameHeader(s);
    if k > 0 && k + size <= |s| then k + size else 0
  }

  /** A stream cut into frames. */
  function Cut(s: seq<byte>): (packets: seq<seq<byte>>)
    decreases |s|
  {
    var n := NextFrame(s);
    if n == 0 then [] else [s[..n]] + Cut(s[n..])
  }

  /** The header put back from the size is the header received. */
  lemma SizeRestored(first: byte, second: byte)
    requires first > 0x7F
    ensures var size := Swap16(FromLittleEndian16([first - 0x80, second]));
            size == Word16(second, first - 0x80) < 0x8000
            && LittleEndian16(Swap16(WithTopBit(size))) == [first, second]
  {
    Word16Bytes(first - 0x80, second);
    Word16Bytes(second, first - 0x80);
    var size := Word16(second, first - 0x80);
    SwappedIsBigEndian(WithTopBit(size));
    Word16Bytes(second, first);
    assert WithTopBit(size) == Word16(second, first);
  }

  /** One round of the loop over a connection that delivers `stream` and is then closed: the next
      packet, or the end. */
  method ReceivePacket(stream: seq<byte>, from: nat) returns (closed: bool, packet: ByteBuffer, next: nat)
    requires from <= |stream|
    ensures fresh(packet)
    ensures closed <==> NextFrame(stream[from..]) == 0
    ensures !closed ==> next == from + NextFrame(stream[from..]) && packet.storage == stream[from..next]
  {
    hide FrameHeader;
    packet := new ByteBuffer();
    var numSizeBytes, packetSize;
    closed, numSizeBytes, packetSize, next := ReceiveHeader(packet, stream, from);
    if !closed {
      next := AwaitBytes(packet, stream, from, next, numSizeBytes + packetSize);
      closed := packet.Size() != numSizeBytes + packetSize;
    }
  }

  /** The size bytes: the second one is waited for when the first has its top bit set. The packet gets
      them back from the size. */
  method ReceiveHeader(packet: ByteBuffer, stream: seq<byte>, from: nat)
    returns (closed: bool, numSizeBytes: nat, packetSize: nat, next: nat)
    requires from <= |stream| && packet.storage == [] && packet.wpos == 0
    modifies packet
    ensures closed <==> FrameHeader(stream[from..]).0 == 0
    ensures !closed ==> (numSizeBytes, packetSize) == FrameHeader(stream[from..]) && next == from + numSizeBytes
    ensures !closed ==> next <= |stream| && packet.storage == stream[from..next] && packet.wpos == numSizeBytes
  {
    numSizeBytes, packetSize, next := 1, 0, from;
    var sizeBytes: seq<byte> := [0, 0];
    if next == |stream| {
      return true, numSizeBytes, packetSize, next;
    }
    sizeBytes := sizeBytes[0 := stream[next]];
    next := next + 1;
    if sizeBytes[0] > 0x7F {
      numSizeBytes := 2;
      sizeBytes := sizeBytes[0 := sizeBytes[0] - 0x80];
    }
    if numSizeBytes == 2 {
      if next == |stream| {
        return true, numSizeBytes, packetSize, next;
      }
      sizeBytes := sizeBytes[1 := stream[next]];
      next := next + 1;
    }
    if numSizeBytes == 1 {
      packetSize := sizeBytes[0];
      packet.Append([packetSize]);
    } else {
      SizeRestored(stream[from], stream[from + 1]);
      hide Swap16, FromLittleEndian16, LittleEndian16, WithTopBit, Word16;
      packetSize := Swap16(FromLittleEndian16(sizeBytes));
      packet.Append(LittleEndian16(Swap16(WithTopBit(packetSize))));
    }
    closed := false;
  }

  /** Bytes until the packet is complete or the connection is closed. */
  method AwaitBytes(packet: ByteBuffer, stream: seq<byte>, ghost from: nat, next: nat, total: nat) returns (next': nat)
    requires from <= next <= |stream| && next - from <= total < 0x1_0000
    requires packet.storage == stream[from..next] && packet.wpos == next - from
    modifies packet
    ensures next <= next' <= |stream| && packet.storage == stream[from..next']
    ensures next' == if from + total <= |stream| then from + total else |stream|
  {
    next' := next;
    while packet.Size() < total
      invariant next <= next' <= |stream| && next' - from <= total
      invariant packet.storage == stream[from..next'] && packet.wpos == |packet.storage|
    {
      if next' == |stream| {
        break;
      }
      packet.Append([stream[next']]);
      next' := next' + 1;
    }
  }

  /** The loop: packets until the connection is closed. */
  method ReceivePackets(stream: seq<byte>) returns (packets: seq<seq<byte>>)
    ensures packets == Cut(stream)
  {
    packets := [];
    var i: nat := 0;
    assert stream[0..] == stream;
    while true
      invariant i <= |stream| && packets + Cut(stream[i..]) == Cut(stream)
      decreases |stream| - i
    {
      var closed, packet, next := ReceivePacket(stream, i);
      if closed {
        break;
      }
      ghost var before := packets;
      packets := packets + [packet.storage];
      assert stream[i..][..next - i] == packet.storage && stream[i..][next - i..] == stream[next..];
      AppendAssociates(before, [packet.storage], Cut(stream[next..]));
      i := next;
    }
    AppendNothing(packets);
  }

  // ---------- Cutting undoes framing ----------

  lemma {:induction false} FlattenFirst(first: seq<byte>, others: seq<seq<byte>>)
    ensures Flatten([first] + others) == first + Flatten(others)
  {
    var all := [first] + others;
    if others == [] {
      assert all[..0] == [];
      assert [] + first == first && first + [] == first;
    } else {
      var last, init := others[|others| - 1], others[..|others| - 1];
      FlattenFirst(first, init);
      assert all[..|all| - 1] == [first] + init;
      AppendAssociates(first, Flatten(init), last);
    }
  }

  /** The loop loses nothing: its packets, put together, are the stream but for an incomplete frame. */
  lemma {:induction false} CutIsPrefix(s: seq<byte>) returns (rest: seq<byte>)
    ensures s == Flatten(Cut(s)) + rest && NextFrame(rest) == 0
    decreases |s|
  {
    var n := NextFrame(s);
    if n == 0 {
      rest := s;
      assert [] + s == s;
    } else {
      rest := CutIsPrefix(s[n..]);
      FlattenFirst(s[..n], Cut(s[n..]));
      assert s == s[..n] + s[n..];
      AppendAssociates(s[..n], Flatten(Cut(s[n..])), rest);
    }
  }

  /** Payloads up to 0x7FFF bytes. */
  ghost predicate FitsFrame(payload: seq<byte>) {
    |payload| <= 0x7FFF
  }

  /** A frame is found whole whatever follows it, and holds its payload. */
  lemma FrameFound(payload: seq<byte>, more: seq<byte>)
    requires FitsFrame(payload)
    ensures NextFrame(Frame(payload) + more) == |Frame(payload)| > 0
    ensures Frame(payload)[HeaderLength(Frame(payload))..] == payload
  {
    var f, n := Frame(payload), |payload|;
    if n > 0x7f {
      var w := n + 0x8000;
      var high := w / 0x100 - 0x80;
      assert f[0] == high + 0x80 && f[1] == w % 0x100;
      assert Word16(w % 0x100, high) == n;
    }
  }

  function AllFrames(payloads: seq<seq<byte>>): (frames: seq<seq<byte>>)
    ensures |frames| == |payloads|
  {
    if payloads == [] then [] else [Frame(payloads[0])] + AllFrames(payloads[1..])
  }

  /** Any sequence of payloads, framed and put one after the other, is cut into exactly their frames. */
  lemma {:induction false} CutOfFrames(payloads: seq<seq<byte>>)
    requires forall i :: 0 <= i < |payloads| ==> FitsFrame(payloads[i])
    ensures Cut(Flatten(AllFrames(payloads))) == AllFrames(payloads)
  {
    if payloads != [] {
      var f, others := Frame(payloads[0]), AllFrames(payloads[1..]);
      hide Frame, NextFrame;
      CutOfFrames(payloads[1..]);
      FlattenFirst(f, others);
      FrameFound(payloads[0], Flatten(others));
      TakeAndDrop(f, Flatten(others), |f|);
      assert f[..|f|] == f && f[|f|..] + Flatten(others) == Flatten(others);
    }
  }

  /** A payload comes out of its own frame again exactly when it has at most 0x7FFF bytes: the length
      field has 15 bits, and a buffer shows only the low 16 bits of its size. */
  lemma DeliveredExactlyWhenFits(payload: seq<byte>)
    ensures var packets := Cut(Frame(payload));
            packets != [] && packets[0][HeaderLength(packets[0])..] == payload <==> FitsFrame(payload)
  {
    var f := Frame(payload);
    var n := NextFrame(f);
    if FitsFrame(payload) {
      FrameFound(payload, []);
      assert f + [] == f;
      assert f[..|f|] == f;
    } else if n != 0 {
      assert Cut(f)[0] == f[..n];
      assert |Visible(payload)| < |payload| || |Visible(payload)| >= 0x8000;
      assert HeaderLength(f[..n]) == HeaderLength(f);
      assert n - HeaderLength(f) < |payload|;
    }
  }

  /** How much of a payload's frame is taken for its contents. */
  lemma CutLength(payload: seq<byte>)
    ensures var packets := Cut(Frame(payload));
            packets != [] && |packets[0]| >= HeaderLength(packets[0])
            && |packets[0]| - HeaderLength(packets[0])
               == var size := Size16(|payload|); if size < 0x8000 then size else size - 0x8000
  {
    var f, body := Frame(payload), Visible(payload);
    if |body| > 0x7f {
      var w := WithTopBit(|body|);
      var high := w / 0x100 - 0x80;
      assert f[0] == high + 0x80 && f[1] == w % 0x100;
      assert Word16(w % 0x100, high) == w - 0x8000;
    }
    assert Cut(f)[0] == f[..NextFrame(f)];
  }
}
