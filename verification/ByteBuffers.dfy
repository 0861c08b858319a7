/** The proxy's byte buffer (ByteBuffer.h): a vector with a read and a write position, whose size is
    reported in sixteen bits. */
module ByteBuffers {
  import opened ByteStrings

  /** The low 16 bits of a length, which is what size() returns. */
  function Size16(length: nat): (n: nat)
    ensures n < 0x1_0000 && n <= length
  {
    length % 0x1_0000
  }

  /** What contents() and size() together show of a buffer's bytes. */
  function Visible(bytes: seq<byte>): (v: seq<byte>)
    ensures |v| == Size16(|bytes|)
    ensures v == bytes <==> |bytes| < 0x1_0000
  {
    bytes[..Size16(|bytes|)]
  }

  function Word16(low: nat, high: nat): nat {
    low + 0x100 * high
  }

  function LittleEndian16(v: nat): (s: seq<byte>)
    requires v < 0x1_0000
    ensures |s| == 2
  {
    [v % 0x100, v / 0x100]
  }

  function FromLittleEndian16(s: seq<byte>): (v: nat)
    requires |s| == 2
    ensures v < 0x1_0000
  {
    Word16(s[0], s[1])
  }

  function Low16(v: nat): (w: nat)
    ensures w < 0x1_0000
  {
    v % 0x1_0000
  }

  function High16(v: nat): (w: nat)
    requires v < 0x1_0000_0000
    ensures w < 0x1_0000
  {
    v / 0x1_0000
  }

  function LittleEndian32(v: nat): (s: seq<byte>)
    requires v < 0x1_0000_0000
    ensures |s| == 4
  {
    LittleEndian16(Low16(v)) + LittleEndian16(High16(v))
  }

  function FromLittleEndian32(s: seq<byte>): (v: nat)
    requires |s| == 4
    ensures v < 0x1_0000_0000
  {
    FromLittleEndian16(s[..2]) + 0x1_0000 * FromLittleEndian16(s[2..])
  }

  /** Byte order reversed. */
  function Swap16(v: nat): (w: nat)
    requires v < 0x1_0000
    ensures w < 0x1_0000
  {
    Word16(v / 0x100, v % 0x100)
  }

  function Swap32(v: nat): (w: nat)
    requires v < 0x1_0000_0000
    ensures w < 0x1_0000_0000
  {
    Swap16(High16(v)) + 0x1_0000 * Swap16(Low16(v))
  }

  lemma Word16Bytes(low: nat, high: nat)
    requires low < 0x100
    ensures Word16(low, high) % 0x100 == low && Word16(low, high) / 0x100 == high
  {}

  lemma WordRoundTrip16(v: nat)
    requires v < 0x1_0000
    ensures FromLittleEndian16(LittleEndian16(v)) == v && Swap16(Swap16(v)) == v
  {
    Word16Bytes(v / 0x100, v % 0x100);
  }

  lemma HalvesOf(low: nat, high: nat)
    requires low < 0x1_0000 && high < 0x1_0000
    ensures Low16(low + 0x1_0000 * high) == low && High16(low + 0x1_0000 * high) == high
  {}

  lemma Halves(v: nat)
    requires v < 0x1_0000_0000
    ensures v == Low16(v) + 0x1_0000 * High16(v)
  {}

  lemma WordRoundTrip32(v: nat)
    requires v < 0x1_0000_0000
    ensures FromLittleEndian32(LittleEndian32(v)) == v && Swap32(Swap32(v)) == v
  {
    hide Swap16, LittleEndian16, FromLittleEndian16, Low16, High16;
    var low, high := Low16(v), High16(v);
    Halves(v);
    WordRoundTrip16(low);
    WordRoundTrip16(high);
    TwoHalves(LittleEndian16(low), LittleEndian16(high));
    HalvesOf(Swap16(high), Swap16(low));
  }

  lemma TwoHalves(s: seq<byte>, t: seq<byte>)
    requires |s| == |t| == 2
    ensures (s + t)[..2] == s && (s + t)[2..] == t
  {}

  datatype ReadResult = Bytes(value: seq<byte>) | Error

  class ByteBuffer {
    var storage: seq<byte>
    var rpos: nat
    var wpos: nat

    constructor ()
      ensures storage == [] && rpos == 0 && wpos == 0
    {
      storage, rpos, wpos := [], 0, 0;
    }

    constructor Copy(b: ByteBuffer)
      ensures storage == b.storage && rpos == b.rpos && wpos == b.wpos
    {
      storage, rpos, wpos := b.storage, b.rpos, b.wpos;
    }

    function Size(): (n: nat)
      reads this
      ensures n < 0x1_0000
    {
      Size16(|storage|)
    }

    method Clear()
      modifies this
      ensures storage == [] && rpos == 0 && wpos == 0
    {
      storage, rpos, wpos := [], 0, 0;
    }

    method SetReadPosition(position: nat)
      modifies this`rpos
      ensures rpos == position
    {
      rpos := position;
    }

    /** Writes at the write position, over what is there and beyond the end, where a gap is zero. */
    method Append(src: seq<byte>)
      modifies this`storage, this`wpos
      ensures wpos == old(wpos) + |src|
      ensures src == [] ==> storage == old(storage)
      ensures src != [] ==> |storage| == (if wpos > |old(storage)| then wpos else |old(storage)|)
      ensures src != [] ==> forall i :: 0 <= i < |storage| ==>
        storage[i] == if old(wpos) <= i < wpos then src[i - old(wpos)]
                      else if i < |old(storage)| then old(storage)[i] else 0
      ensures old(wpos) == |old(storage)| ==> storage == old(storage) + src
    {
      if src == [] {
        return;
      }
      if |storage| < wpos + |src| {
        storage := storage + seq(wpos + |src| - |storage|, _ => 0);
      }
      storage := storage[..wpos] + src + storage[wpos + |src|..];
      wpos := wpos + |src|;
    }

    /** Reads at the read position, as far as the 16-bit size admits. */
    method Read(len: nat) returns (r: ReadResult)
      modifies this`rpos
      ensures if old(rpos) + len <= Size()
              then r == Bytes(storage[old(rpos)..old(rpos) + len]) && rpos == old(rpos) + len
              else r == Error && rpos == old(rpos)
    {
      if rpos + len <= Size() {
        r := Bytes(storage[rpos..rpos + len]);
        rpos := rpos + len;
      } else {
        r := Error;
      }
    }
  }
}
