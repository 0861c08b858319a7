/** Object identifiers and unsigned integers in DER (asn.cpp, asn.h). */
module Asn1Values {
  import opened ByteStrings
  import opened BitMath
  import opened BerLengths
  import opened BerTrees

  const WORD32_LIMIT: nat := 0x1_0000_0000

  datatype ReadResult<T> = Read(value: T, rest: seq<byte>) | Failed

  // ---------- One arc of an object identifier ----------

  /** Section 8.19.2 of X.690: seven bits an octet, the top bit set on all octets but the last. */
  function Base128(v: nat): seq<byte> {
    if v < 0x80 then [v] else Continued(v / 0x80) + [v % 0x80]
  }

  function Continued(v: nat): (s: seq<byte>)
    ensures |s| >= 1
  {
    if v < 0x80 then [0x80 + v] else Continued(v / 0x80) + [0x80 + v % 0x80]
  }

  /** The octets of `v` before its last one. */
  function Begun(v: nat): seq<byte> {
    if v < 0x80 then [] else Continued(v / 0x80)
  }

  lemma BegunStep(v: nat)
    ensures Begun(v) + [0x80 + v % 0x80] == Continued(v)
    ensures Begun(v) + [v % 0x80] == Base128(v)
  {}

  lemma ShiftSeven(v: nat, i: nat)
    ensures Shift(v, i + 7) == Shift(v, i) / 0x80
  {
    ShiftShift(v, i, 7);
    ShiftIsDivision(Shift(v, i), 7);
    assert Pow2(7) == 0x80 by { assert Pow2(3) == 8 && Pow2(5) == 32; }
  }

  /** Rounded up to a multiple of seven. */
  function RoundUpToSeven(n: nat): (r: nat)
    ensures n <= r < n + 7 && r % 7 == 0
  {
    n + 6 - (n + 6) % 7
  }

  /** The word's seven-bit groups, most significant first. */
  method EncodeValue(bt: ByteQueue, v: nat)
    requires v < WORD32_LIMIT
    modifies bt
    ensures bt.contents == old(bt.contents) + Base128(v)
  {
    ghost var before := bt.contents;
    var bits := BitCount(v);
    var i: nat := RoundUpToSeven(if bits > 7 then bits else 7) - 7;
    TopGroup(v, i);
    ghost var k: nat := i / 7;
    assert Shift(v, 0) == v;
    hide *;
    AppendNothing(before);
    while i != 0
      invariant i == 7 * k && (i > 0 ==> Shift(v, i) > 0) && bt.contents == before + Begun(Shift(v, i))
    {
      PutGroup(bt, v, i, before);
      i := i - 7;
      k := k - 1;
    }
    BegunStep(v);
    bt.Put([v % 0x80]);
    AppendAssociates(before, Begun(v), [v % 0x80]);
  }

  method PutGroup(bt: ByteQueue, v: nat, i: nat, ghost before: seq<byte>)
    requires i >= 7 && Shift(v, i) > 0 && bt.contents == before + Begun(Shift(v, i))
    modifies bt
    ensures Shift(v, i - 7) > 0 && bt.contents == before + Begun(Shift(v, i - 7))
  {
    ghost var g := Shift(v, i);
    BegunStep(g);
    ShiftSeven(v, i - 7);
    hide Continued, Shift;
    bt.Put([0x80 + Shift(v, i) % 0x80]);
    AppendAssociates(before, Begun(g), [0x80 + g % 0x80]);
  }

  /** The loop starts at the highest group that is not zero, or at the only one. */
  lemma TopGroup(v: nat, i: nat)
    requires i == RoundUpToSeven(if BitCount(v) > 7 then BitCount(v) else 7) - 7
    ensures Begun(Shift(v, i)) == [] && (i > 0 ==> Shift(v, i) > 0)
  {
    BitCountAbove(v, i + 7);
    ShiftSeven(v, i);
    if i > 0 {
      BitCountTop(v);
      ShiftShift(v, i, BitCount(v) - 1 - i);
      if Shift(v, i) == 0 { ShiftZero(BitCount(v) - 1 - i); }
    }
  }

  /** Reads one arc, in a 32-bit word that loses what is shifted out of it. */
  function ReadBase128(s: seq<byte>, v: nat): (r: ReadResult<nat>)
    requires v < WORD32_LIMIT
    ensures r.Read? ==> r.value < WORD32_LIMIT && |r.rest| < |s|
  {
    if s == [] then Failed
    else
      var w := v * 0x80 % WORD32_LIMIT + s[0] % 0x80;
      ShiftedInWord(v, s[0] % 0x80);
      if s[0] < 0x80 then Read(w, s[1..]) else ReadBase128(s[1..], w)
  }

  lemma ShiftedInWord(v: nat, b: nat)
    requires b < 0x80
    ensures v * 0x80 % WORD32_LIMIT + b < WORD32_LIMIT
    ensures v * 0x80 + b < WORD32_LIMIT ==> v * 0x80 % WORD32_LIMIT + b == v * 0x80 + b
  {}

  /** Decoding undoes encoding for every word. */
  lemma {:induction false} ReadContinued(v: nat, t: seq<byte>)
    requires v < WORD32_LIMIT
    ensures ReadBase128(Continued(v) + t, 0) == ReadBase128(t, v)
  {
    var b: byte := 0x80 + v % 0x80;
    assert ReadBase128([b] + t, v / 0x80) == ReadBase128(t, v) by {
      ShiftedInWord(v / 0x80, v % 0x80);
      assert ([b] + t)[1..] == t;
    }
    if v >= 0x80 {
      ReadContinued(v / 0x80, [b] + t);
      AppendAssociates(Continued(v / 0x80), [b], t);
    }
  }

  lemma Base128RoundTrip(v: nat, more: seq<byte>)
    requires v < WORD32_LIMIT
    ensures ReadBase128(Base128(v) + more, 0) == Read(v, more)
  {
    var b: byte := v % 0x80;
    ShiftedInWord(v / 0x80, v % 0x80);
    assert ([b] + more)[1..] == more;
    if v >= 0x80 {
      ReadContinued(v / 0x80, [b] + more);
      AppendAssociates(Continued(v / 0x80), [b], more);
    }
  }

  method DecodeValue(bt: Source) returns (r: ReadResult<nat>, i: nat)
    modifies bt
    ensures r == ReadBase128(old(bt.Window()), 0)
    ensures r.Read? ==> bt.Window() == r.rest && i == |old(bt.Window())| - |r.rest|
  {
    var v: nat := 0;
    i := 0;
    ghost var s := bt.Window();
    while true
      invariant v < WORD32_LIMIT && i + |bt.Window()| == |s|
      invariant ReadBase128(s, 0) == ReadBase128(bt.Window(), v)
      decreases |bt.Window()|
    {
      var ok, b := bt.Get();
      if !ok {
        return Failed, i;
      }
      i := i + 1;
      ShiftedInWord(v, b % 0x80);
      v := v * 0x80 % WORD32_LIMIT;
      v := v + b % 0x80;
      if b < 0x80 {
        return Read(v, bt.Window()), i;
      }
    }
  }

  // ---------- Object identifiers ----------

  const OBJECT_IDENTIFIER: byte := 0x06

  function Arcs(values: seq<nat>): seq<byte> {
    if values == [] then [] else Arcs(values[..|values| - 1]) + Base128(values[|values| - 1])
  }

  function FirstOctet(x: nat, y: nat): byte {
    (x * 40 + y) % 0x100
  }

  /** The contents of an identifier: the first two arcs in one octet, which is all of them it keeps. */
  function OidContents(values: seq<nat>): seq<byte>
    requires |values| >= 2
  {
    [FirstOctet(values[0], values[1])] + Arcs(values[2..])
  }

  /** The arcs in the next `length` bytes. */
  function ReadArcs(s: seq<byte>, length: nat): (r: ReadResult<seq<nat>>)
    ensures r.Read? ==> |r.rest| <= |s|
    decreases |s|
  {
    if length == 0 then Read([], s)
    else
      match ReadBase128(s, 0)
      case Failed => Failed
      case Read(v, rest) =>
        if |s| - |rest| > length then Failed
        else
          match ReadArcs(rest, length - (|s| - |rest|))
          case Failed => Failed
          case Read(values, last) => Read([v] + values, last)
  }

  function ReadOid(s: seq<byte>): ReadResult<seq<nat>> {
    if s == [] || s[0] != OBJECT_IDENTIFIER then Failed
    else
      match ReadLength(s[1..])
      case Definite(length, t) =>
        if length < 1 || t == [] then Failed
        else
          (match ReadArcs(t[1..], length - 1)
           case Failed => Failed
           case Read(values, rest) => Read([t[0] as nat / 40, t[0] as nat % 40] + values, rest))
      case _ => Failed
  }

  class OID {
    var values: seq<nat>

    constructor (values: seq<nat>)
      ensures this.values == values
    {
      this.values := values;
    }

    /** Arcs are 32-bit words, and there are at least two of them. */
    method DEREncode(bt: ByteQueue)
      requires |values| >= 2 && forall i :: 0 <= i < |values| ==> values[i] < WORD32_LIMIT
      modifies bt
      ensures bt.contents == old(bt.contents) + Tlv(OBJECT_IDENTIFIER, OidContents(values))
    {
      var temp := new ByteQueue();
      FirstInWord(values[0], values[1]);
      hide FirstOctet, Arcs, Base128, Tlv;
      temp.Put([(values[0] * 40 + values[1]) % WORD32_LIMIT % 0x100]);
      assert temp.contents == [FirstOctet(values[0], values[1])];
      PutArcs(temp);
      PutTlv(bt, OBJECT_IDENTIFIER, temp);
    }

    method PutArcs(temp: ByteQueue)
      requires |values| >= 2 && forall i :: 0 <= i < |values| ==> values[i] < WORD32_LIMIT
      modifies temp
      ensures temp.contents == old(temp.contents) + Arcs(values[2..])
    {
      ghost var first := temp.contents;
      ArcsUpTo(values, 2);
      AppendNothing(first);
      hide Arcs, Base128;
      for i := 2 to |values|
        invariant temp.contents == first + Arcs(values[2..i])
      {
        ArcsUpTo(values, i);
        EncodeValue(temp, values[i]);
        AppendAssociates(first, Arcs(values[2..i]), Base128(values[i]));
      }
      assert values[2..|values|] == values[2..];
    }

    /** Appends the arcs in the next `size` bytes. */
    method DecodeArcs(bt: Source, size: nat) returns (ok: bool)
      modifies this, bt
      ensures ok == ReadArcs(old(bt.Window()), size).Read?
      ensures ok ==>
        var r := ReadArcs(old(bt.Window()), size);
        values == old(values) + r.value && bt.Window() == r.rest
    {
      var length := size;
      ghost var whole := ReadArcs(bt.Window(), length);
      while length > 0
        invariant whole.Read? == ReadArcs(bt.Window(), length).Read?
        invariant whole.Read? ==>
          var r := ReadArcs(bt.Window(), length);
          old(values) + whole.value == values + r.value && whole.rest == r.rest
        decreases length
      {
        hide ReadArcs, ReadBase128;
        ghost var before, w := values, bt.Window();
        ArcsStep(w, length);
        var r, valueLen := DecodeValue(bt);
        if r.Failed? || valueLen > length {
          return false;
        }
        values := values + [r.value];
        length := length - valueLen;
        if whole.Read? {
          AppendAssociates(before, [r.value], ReadArcs(bt.Window(), length).value);
        }
      }
      AppendNothing(values);
      ok := true;
    }

    /** Replaces the arcs by those read; what they are after a failure does not matter. */
    method BERDecode(bt: Source) returns (ok: bool)
      modifies this, bt
      ensures ok == ReadOid(old(bt.Window())).Read?
      ensures ok ==> values == ReadOid(old(bt.Window())).value && bt.Window() == ReadOid(old(bt.Window())).rest
    {
      hide ReadArcs, ReadLength;
      var b;
      ok, b := bt.Get();
      if !ok || b != OBJECT_IDENTIFIER {
        return false;
      }
      var l := BERLengthDecode(bt);
      if !l.Definite? || l.length < 1 {
        return false;
      }
      ok, b := bt.Get();
      if !ok {
        return;
      }
      values := [b as nat / 40, b as nat % 40];
      ok := DecodeArcs(bt, l.length - 1);
    }
  }

  lemma ArcsMore(values: seq<nat>, i: nat)
    requires i < |values|
    ensures Arcs(values[..i + 1]) == Arcs(values[..i]) + Base128(values[i])
  {
    assert values[..i + 1][..i] == values[..i];
  }

  lemma ArcsUpTo(values: seq<nat>, i: nat)
    requires 2 <= i <= |values|
    ensures Arcs(values[2..2]) == []
    ensures i < |values| ==> Arcs(values[2..i + 1]) == Arcs(values[2..i]) + Base128(values[i])
  {
    if i < |values| {
      assert values[2..i + 1][..i - 2] == values[2..i];
    }
  }

  lemma FirstInWord(x: nat, y: nat)
    ensures (x * 40 + y) % WORD32_LIMIT % 0x100 == FirstOctet(x, y)
  {
    LowOctet(x * 40 + y);
  }

  lemma LowOctet(n: nat)
    ensures n % WORD32_LIMIT % 0x100 == n % 0x100
  {
    var q, r := n / WORD32_LIMIT, n % WORD32_LIMIT;
    var a, b := r / 0x100, r % 0x100;
    assert n == (q * 0x100_0000 + a) * 0x100 + b;
  }

  lemma ArcsStep(s: seq<byte>, length: nat)
    requires length > 0
    ensures match ReadBase128(s, 0)
            case Failed => ReadArcs(s, length) == Failed
            case Read(v, rest) =>
              if |s| - |rest| > length then ReadArcs(s, length) == Failed
              else
                var later := ReadArcs(rest, length - (|s| - |rest|));
                ReadArcs(s, length) == if later.Read? then Read([v] + later.value, later.rest) else Failed
  {
    hide ReadBase128;
  }

  lemma OneArcMore(v: nat, tail: seq<byte>, length: nat)
    requires v < WORD32_LIMIT && ReadArcs(tail, length).Read?
    ensures var r := ReadArcs(tail, length);
            ReadArcs(Base128(v) + tail, |Base128(v)| + length) == Read([v] + r.value, r.rest)
  {
    Base128RoundTrip(v, tail);
    assert |Base128(v)| >= 1;
    hide Base128, ReadBase128;
  }

  lemma NoArcs(tail: seq<byte>, length: nat)
    requires ReadArcs(tail, length).Read?
    ensures var r := ReadArcs(tail, length);
            ReadArcs(Arcs([]) + tail, |Arcs([])| + length) == Read([] + r.value, r.rest)
  {
    hide ReadArcs;
    assert Arcs([]) + tail == tail && [] + ReadArcs(tail, length).value == ReadArcs(tail, length).value;
  }

  lemma {:induction false} ReadArcsBack(values: seq<nat>, tail: seq<byte>, length: nat)
    requires forall i :: 0 <= i < |values| ==> values[i] < WORD32_LIMIT
    requires ReadArcs(tail, length).Read?
    ensures var r := ReadArcs(tail, length);
            ReadArcs(Arcs(values) + tail, |Arcs(values)| + length) == Read(values + r.value, r.rest)
    decreases |values|
  {
    hide *;
    var r := ReadArcs(tail, length);
    if values == [] {
      NoArcs(tail, length);
    } else {
      var k := |values| - 1;
      var v := values[k];
      OneArcMore(v, tail, length);
      ArcsMore(values, k);
      assert values[..k + 1] == values;
      var t := Base128(v) + tail;
      ReadArcsBack(values[..k], t, |Base128(v)| + length);
      AppendAssociates(Arcs(values[..k]), Base128(v), tail);
      AppendAssociates(values[..k], [v], r.value);
      assert values[..k] + [v] == values;
    }
  }

  /** What is read of an encoded identifier: all arcs as they were, but the first two as one octet
      divides into them. */
  lemma OidReads(values: seq<nat>, octet: byte, more: seq<byte>)
    requires |values| >= 2 && forall i :: 0 <= i < |values| ==> values[i] < WORD32_LIMIT
    requires |OidContents(values)| < LWORD_LIMIT && octet == (values[0] * 40 + values[1]) % 0x100
    ensures ReadOid(Tlv(OBJECT_IDENTIFIER, OidContents(values)) + more)
         == Read([octet as nat / 40, octet as nat % 40] + values[2..], more)
  {
    ReadArcsBack(values[2..], more, 0);
    assert ReadArcs(more, 0) == Read([], more);
    hide Tlv, ReadArcs, Arcs, ReadLength, LengthOctets;
    var content, arcs := OidContents(values), Arcs(values[2..]);
    ReadTlv(OBJECT_IDENTIFIER, content, more);
    AppendNothing(values[2..]);
    FirstOff(octet, arcs, more);
  }

  lemma FirstOff(first: byte, s: seq<byte>, more: seq<byte>)
    ensures var all := [first] + s + more; all != [] && all[0] == first && all[1..] == s + more
  {}

  /** An identifier comes back exactly when its first two arcs fit one octet and the second is below 40. */
  lemma OidRoundTrip(values: seq<nat>, more: seq<byte>)
    requires |values| >= 2 && forall i :: 0 <= i < |values| ==> values[i] < WORD32_LIMIT
    requires |OidContents(values)| < LWORD_LIMIT
    ensures ReadOid(Tlv(OBJECT_IDENTIFIER, OidContents(values)) + more) == Read(values, more)
       <==> values[1] < 40 && values[0] * 40 + values[1] <= 255
  {
    var octet := (values[0] * 40 + values[1]) % 0x100;
    OidReads(values, octet, more);
    TwoArcs(values[0], values[1], octet);
    hide *;
    var x: nat, y: nat := octet / 40, octet % 40;
    SplitPair(values, x, y);
  }

  /** 2.48 is read as 3.8: both make the first octet 128. */
  lemma FortyEight()
    ensures ReadOid(Tlv(OBJECT_IDENTIFIER, OidContents([2, 48]))) == Read([3, 8], [])
  {
    assert [2, 48][2..] == [] && [3, 8] + [] == [3, 8];
    assert OidContents([2, 48]) == [128];
    OidReads([2, 48], 128, []);
    AppendNothing(Tlv(OBJECT_IDENTIFIER, OidContents([2, 48])));
  }

  lemma SplitPair(values: seq<nat>, x: nat, y: nat)
    requires |values| >= 2
    ensures [x, y] + values[2..] == values <==> x == values[0] && y == values[1]
  {
    var v := [x, y] + values[2..];
    assert v[0] == x && v[1] == y && v[2..] == values[2..];
  }

  lemma TwoArcs(x: nat, y: nat, octet: nat)
    requires octet == (x * 40 + y) % 0x100
    ensures octet / 40 == x && octet % 40 == y <==> y < 40 && x * 40 + y <= 255
  {}

  // ---------- Unsigned integers ----------

  const BOOLEAN: byte := 0x01

  /** Section 8.3.2 of X.690: as few octets as leave the number non-negative. */
  function UnsignedOctets(w: nat): (s: seq<byte>)
    ensures |s| >= 1
  {
    var n := if w == 0 then 1 else BytePrecision(w);
    var s := BigEndian(w, n);
    if s[0] >= 0x80 then [0] + s else s
  }

  /** The contents octets; a Boolean keeps only whether the number is zero. */
  function UnsignedContents(w: nat, asnTag: byte): (s: seq<byte>)
    ensures |s| >= 1
  {
    if asnTag == BOOLEAN then [if w == 0 then 0 else 0xff] else UnsignedOctets(w)
  }

  /** The top octet, and the others. */
  lemma {:induction false} FirstOctetOf(w: nat, n: nat)
    requires n >= 1 && BytePrecision(w) <= n
    ensures BigEndian(w, n)[0] == 0 <==> BytePrecision(w) <= n - 1
    ensures BigEndian(w, n)[1..] == BigEndian(w, n - 1)
  {
    if n == 1 {
      assert w < 0x100 by { assert w > 0 ==> BytePrecision(w / 0x100) == 0; }
      assert BigEndian(w, 1) == [w];
    } else {
      FirstOctetOf(w / 0x100, n - 1);
    }
  }

  /** An octet of the word, byte by byte as the buffer is filled. */
  lemma {:induction false} OctetAt(w: nat, n: nat, i: nat)
    requires i < n
    ensures BigEndian(w, n)[i] == ShiftBytes(w, n - 1 - i) % 0x100
  {
    if i < n - 1 { OctetAt(w / 0x100, n - 1, i); }
  }

  /** The number's bytes behind a zero, without the leading zeros that are not needed. */
  method DEREncodeUnsigned(out: ByteQueue, w: nat, width: nat, asnTag: byte)
    requires width >= 1 && BytePrecision(w) <= width
    modifies out
    ensures out.contents == old(out.contents) + Tlv(asnTag, UnsignedContents(w, asnTag))
  {
    var buf := new byte[width + 1](_ => 0);
    var bc: nat;
    if asnTag == BOOLEAN {
      buf[width] := if w != 0 then 0xff else 0;
      bc := 1;
    } else {
      bc := FillUnsigned(buf, w, width);
    }
    var content := new ByteQueue();
    content.Put(buf[width + 1 - bc..]);
    assert content.contents == UnsignedContents(w, asnTag);
    PutTlv(out, asnTag, content);
  }

  method FillUnsigned(buf: array<byte>, w: nat, width: nat) returns (bc: nat)
    requires width >= 1 && BytePrecision(w) <= width && buf.Length == width + 1
    modifies buf
    ensures 1 <= bc <= width + 1 && buf[width + 1 - bc..] == UnsignedOctets(w)
  {
    hide BigEndian, UnsignedOctets, ShiftBytes, BytePrecision;
    buf[0] := 0;
    for i := 0 to width
      invariant buf[0] == 0 && forall k :: 0 <= k < i ==> buf[k + 1] == BigEndian(w, width)[k]
    {
      OctetAt(w, width, i);
      buf[i + 1] := ShiftBytes(w, width - 1 - i) % 0x100;
    }
    assert buf[1..] == BigEndian(w, width);
    bc := TrimUnsigned(buf, w, width);
  }

  /** Drops leading zeros, but not one that keeps the number from looking negative. */
  method TrimUnsigned(buf: array<byte>, w: nat, width: nat) returns (bc: nat)
    requires width >= 1 && BytePrecision(w) <= width && buf.Length == width + 1
    requires buf[0] == 0 && buf[1..] == BigEndian(w, width)
    ensures 1 <= bc <= width + 1 && buf[width + 1 - bc..] == UnsignedOctets(w)
  {
    hide BigEndian, UnsignedOctets, BytePrecision;
    bc := width;
    while bc > 1 && buf[width + 1 - bc] == 0
      invariant 1 <= bc <= width && BytePrecision(w) <= bc && buf[width + 1 - bc..] == BigEndian(w, bc)
      invariant buf[width - bc] == 0
    {
      FirstOctetOf(w, bc);
      ghost var s := buf[width + 1 - bc..];
      assert buf[width + 2 - bc..] == s[1..];
      bc := bc - 1;
    }
    FirstOctetOf(w, bc);
    UnsignedOctetsOf(w, bc);
    ghost var s := buf[width + 1 - bc..];
    if buf[width + 1 - bc] >= 0x80 {
      bc := bc + 1;
      assert buf[width + 1 - bc..] == [0] + s;
    }
  }

  lemma UnsignedOctetsOf(w: nat, n: nat)
    requires n >= 1 && BytePrecision(w) <= n && (n > 1 ==> BytePrecision(w) > n - 1)
    ensures var s := BigEndian(w, n); UnsignedOctets(w) == if s[0] >= 0x80 then [0] + s else s
  {}

  function FromBigEndian(s: seq<byte>): nat {
    if s == [] then 0 else FromBigEndian(s[..|s| - 1]) * 0x100 + s[|s| - 1]
  }

  /** Without leading zeros, as long as it is longer than a word. */
  function Trimmed(s: seq<byte>, width: nat): (r: seq<byte>)
    ensures |r| <= |s|
    decreases |s|
  {
    if |s| > width && s[0] == 0 then Trimmed(s[1..], width) else s
  }

  /** The number that is next, if it has this tag, fits a word of `width` bytes and is in range. */
  function ReadUnsigned(s: seq<byte>, asnTag: byte, width: nat, minValue: nat, maxValue: nat): ReadResult<nat> {
    if s == [] || s[0] != asnTag then Failed
    else
      match ReadLength(s[1..])
      case Definite(n, t) =>
        if n > |t| then Failed
        else
          var octets := Trimmed(t[..n], width);
          var w := FromBigEndian(octets);
          if |octets| > width || w < minValue || w > maxValue then Failed else Read(w, t[n..])
      case _ => Failed
  }

  method BERDecodeUnsigned(source: Source, asnTag: byte, width: nat, minValue: nat, maxValue: nat)
    returns (r: ReadResult<nat>)
    modifies source
    ensures r == ReadUnsigned(old(source.Window()), asnTag, width, minValue, maxValue)
  {
    var ok, b := source.Get();
    if !ok || b != asnTag {
      return Failed;
    }
    var l := BERLengthDecode(source);
    if !l.Definite? {
      return Failed;
    }
    if l.length > |source.Window()| {
      return Failed;
    }
    var bc: nat := l.length;
    var buf := source.Take(bc);
    var ptr: nat := 0;
    assert buf[0..] == buf;
    while bc > width && buf[ptr] == 0
      invariant ptr + bc == |buf| && Trimmed(buf[ptr..], width) == Trimmed(buf, width)
    {
      assert buf[ptr..][1..] == buf[ptr + 1..];
      bc := bc - 1;
      ptr := ptr + 1;
    }
    if bc > width {
      return Failed;
    }
    ghost var octets := buf[ptr..];
    var w: nat := 0;
    for i := 0 to bc
      invariant w == FromBigEndian(octets[..i])
    {
      assert octets[..i + 1][..i] == octets[..i];
      w := w * 0x100 + buf[ptr + i];
    }
    assert octets[..bc] == octets;
    if w < minValue || w > maxValue {
      return Failed;
    }
    r := Read(w, source.Window());
  }

  lemma {:induction false} FromBigEndianBack(v: nat, n: nat)
    requires BytePrecision(v) <= n
    ensures FromBigEndian(BigEndian(v, n)) == v
  {
    if n > 0 { FromBigEndianBack(v / 0x100, n - 1); }
  }

  lemma {:induction false} LeadingZero(s: seq<byte>)
    ensures FromBigEndian([0] + s) == FromBigEndian(s)
  {
    var t := [0] + s;
    if s == [] {
      assert t[..0] == [];
    } else {
      LeadingZero(s[..|s| - 1]);
      assert t[..|t| - 1] == [0] + s[..|s| - 1];
    }
  }

  lemma UnsignedOctetsBack(w: nat, width: nat)
    requires width >= 1 && BytePrecision(w) <= width
    ensures var octets := Trimmed(UnsignedOctets(w), width); |octets| <= width && FromBigEndian(octets) == w
    ensures |UnsignedOctets(w)| <= width + 1
  {
    var n := if w == 0 then 1 else BytePrecision(w);
    var s := BigEndian(w, n);
    UnsignedOctetsOf(w, n);
    FromBigEndianBack(w, n);
    hide UnsignedOctets, BigEndian, FromBigEndian, BytePrecision;
    LeadingZero(s);
    assert ([0] + s)[1..] == s && Trimmed(s, width) == s;
  }

  /** Decoding undoes encoding exactly for numbers in range and, with the Boolean tag, for 0 and 255. */
  lemma UnsignedRoundTrip(w: nat, asnTag: byte, width: nat, minValue: nat, maxValue: nat, more: seq<byte>)
    requires 1 <= width <= 8 && BytePrecision(w) <= width
    ensures ReadUnsigned(Tlv(asnTag, UnsignedContents(w, asnTag)) + more, asnTag, width, minValue, maxValue)
              == Read(w, more)
       <==> minValue <= w <= maxValue && (asnTag == BOOLEAN ==> w == 0 || w == 255)
  {
    var content := UnsignedContents(w, asnTag);
    UnsignedOctetsBack(w, width);
    ReadTlv(asnTag, content, more);
    if asnTag == BOOLEAN {
      assert content[..0] == [] && FromBigEndian(content) == content[0] as nat;
      assert Trimmed(content, width) == content;
    }
    hide Tlv, UnsignedOctets, ReadLength;
  }

  /** With the Boolean tag, 2 is read as 255. */
  lemma BooleanTwo()
    ensures ReadUnsigned(Tlv(BOOLEAN, UnsignedContents(2, BOOLEAN)), BOOLEAN, 1, 0, 255) == Read(255, [])
  {
    assert UnsignedContents(2, BOOLEAN) == UnsignedContents(255, BOOLEAN);
    assert BytePrecision(255) == 1;
    UnsignedRoundTrip(255, BOOLEAN, 1, 0, 255, []);
    AppendNothing(Tlv(BOOLEAN, UnsignedContents(2, BOOLEAN)));
  }
}
