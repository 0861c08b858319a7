/** The encodings of asn.cpp and of the proxy's packets in numbers: what every octet is, and which octets
    are read as what, without the functions that the encoders and decoders are proved against. */
module WireBytes {
  import opened ByteStrings
  import opened ByteBuffers
  import opened BerLengths
  import opened BerTrees
  import opened Asn1Values

  // ---------- Big-endian numbers ----------

  /** `n` and then the octets of `s` as one number. */
  function Accumulated(n: nat, s: seq<byte>): nat
    decreases |s|
  {
    if s == [] then n else Accumulated(n * 0x100 + s[0], s[1..])
  }

  lemma {:induction false} AccumulatedPush(n: nat, s: seq<byte>, b: byte)
    ensures Accumulated(n, s + [b]) == Accumulated(n, s) * 0x100 + b
    decreases |s|
  {
    if s == [] {
      assert [b][1..] == [];
    } else {
      assert (s + [b])[1..] == s[1..] + [b];
      AccumulatedPush(n * 0x100 + s[0], s[1..], b);
    }
  }

  lemma {:induction false} AccumulatedGrows(n: nat, s: seq<byte>)
    ensures Accumulated(n, s) >= n && (s != [] ==> Accumulated(n, s) >= n * 0x100)
    decreases |s|
  {
    if s != [] { AccumulatedGrows(n * 0x100 + s[0], s[1..]); }
  }

  lemma {:induction false} AccumulatedBack(v: nat, n: nat)
    requires BytePrecision(v) <= n
    ensures Accumulated(0, BigEndian(v, n)) == v
  {
    if n > 0 {
      AccumulatedBack(v / 0x100, n - 1);
      AccumulatedPush(0, BigEndian(v / 0x100, n - 1), v % 0x100);
    }
  }

  // ---------- Lengths ----------

  /** Section 10.1 of X.690: a length is one octet below 0x80, or the number of its octets and these, which
      begin with no zero. */
  lemma LengthOctetsAre(n: nat)
    requires n < LWORD_LIMIT
    ensures n < 0x80 ==> LengthOctets(n) == [n]
    ensures n >= 0x80 ==>
      var s := LengthOctets(n);
      2 <= |s| <= 9 && s[0] == 0x80 + (|s| - 1) && s[1] != 0 && Accumulated(0, s[1..]) == n
  {
    if n >= 0x80 {
      var k := BytePrecision(n);
      PrecisionOfWord(n);
      OctetsOfWord(n);
      hide LengthOctets, BigEndian;
      AccumulatedBack(n, k);
      FirstOctetOf(n, k);
      assert LengthOctets(n)[1..] == BigEndian(n, k);
    }
  }

  /** Read as a length: octets that say how many follow, and these, when the number fits a word. */
  lemma LengthRead(count: nat, octets: seq<byte>, more: seq<byte>)
    requires 1 <= count < 0x80 && |octets| == count
    ensures ReadLength([0x80 + count] + octets + more)
         == if Accumulated(0, octets) < LWORD_LIMIT then Definite(Accumulated(0, octets), more) else Overflow
  {
    var s := [0x80 + count] + octets + more;
    assert s[1..] == octets + more;
    OctetsRead(octets, 0, more);
  }

  lemma {:induction false} OctetsRead(octets: seq<byte>, n: nat, more: seq<byte>)
    requires n < LWORD_LIMIT
    ensures ReadOctets(octets + more, |octets|, n)
         == if Accumulated(n, octets) < LWORD_LIMIT then Definite(Accumulated(n, octets), more) else Overflow
    decreases |octets|
  {
    if octets == [] {
      assert [] + more == more;
    } else {
      AccumulatedGrows(n, octets);
      if n < TOP_BYTE {
        assert (octets + more)[1..] == octets[1..] + more;
        OctetsRead(octets[1..], n * 0x100 + octets[0], more);
      }
    }
  }

  // ---------- Tags ----------

  /** The constructed bit, and the tags the program writes. */
  lemma TagBits(tag: byte)
    ensures IsConstructed(tag) <==> tag as bv8 & 0x20 != 0
    ensures BOOLEAN == 1 && OBJECT_IDENTIFIER == 6
  {}

  // ---------- Integers ----------

  /** Section 8.3 of X.690: an unsigned number's octets make it up, do not look negative, and do not begin
      with nine zero bits. */
  lemma UnsignedOctetsAre(w: nat)
    ensures var s := UnsignedOctets(w);
            |s| >= 1 && Accumulated(0, s) == w && s[0] < 0x80 && (|s| > 1 ==> s[0] != 0 || s[1] >= 0x80)
  {
    var n := if w == 0 then 1 else BytePrecision(w);
    var s := BigEndian(w, n);
    UnsignedOctetsOf(w, n);
    AccumulatedBack(w, n);
    FirstOctetOf(w, n);
    hide UnsignedOctets, BigEndian, BytePrecision;
    assert ([0] + s)[1..] == s;
  }

  lemma {:induction false} AccumulatedIs(s: seq<byte>)
    ensures FromBigEndian(s) == Accumulated(0, s)
  {
    if s != [] {
      AccumulatedIs(s[..|s| - 1]);
      assert s == s[..|s| - 1] + [s[|s| - 1]];
      AccumulatedPush(0, s[..|s| - 1], s[|s| - 1]);
    }
  }

  /** The number's octets are no more than those that spell it, and as many when no zero is in front. */
  lemma {:induction false} PrecisionOf(s: seq<byte>)
    ensures BytePrecision(Accumulated(0, s)) <= |s|
    ensures s != [] && s[0] != 0 ==> BytePrecision(Accumulated(0, s)) == |s|
  {
    if s != [] {
      var init, b := s[..|s| - 1], s[|s| - 1];
      PrecisionOf(init);
      assert s == init + [b];
      AccumulatedPush(0, init, b);
      assert Accumulated(0, s) / 0x100 == Accumulated(0, init);
      if |s| > 1 && s[0] != 0 { assert init[0] != 0; }
      hide Accumulated;
    }
  }

  lemma {:induction false} TrimmedIs(s: seq<byte>, width: nat)
    ensures Accumulated(0, Trimmed(s, width)) == Accumulated(0, s)
    ensures |Trimmed(s, width)| <= width <==> BytePrecision(Accumulated(0, s)) <= width
  {
    if |s| > width && s[0] == 0 {
      TrimmedIs(s[1..], width);
    } else {
      PrecisionOf(s);
      hide Accumulated;
    }
  }

  lemma ReadAs(s: seq<byte>, n: nat, t: seq<byte>, width: nat, minValue: nat, maxValue: nat)
    requires s != [] && n <= |t| && ReadLength(s[1..]) == Definite(n, t)
    ensures var octets := Trimmed(t[..n], width);
            ReadUnsigned(s, s[0], width, minValue, maxValue)
            == if |octets| > width || FromBigEndian(octets) < minValue || FromBigEndian(octets) > maxValue then Failed
               else Read(FromBigEndian(octets), t[n..])
  {
    hide Trimmed, ReadLength, FromBigEndian;
  }

  lemma ShortHeader(tag: byte, content: seq<byte>, more: seq<byte>)
    requires |content| < 0x80
    ensures var s := [tag, |content|] + content + more;
            s != [] && s[0] == tag && ReadLength(s[1..]) == Definite(|content|, content + more)
            && (content + more)[..|content|] == content && (content + more)[|content|..] == more
  {
    var s := [tag, |content|] + content + more;
    assert s[1..] == [|content|] + (content + more);
  }

  /** A number is read from any octets that make it up, exactly when it fits its word and is in range. */
  lemma UnsignedRead(tag: byte, content: seq<byte>, width: nat, minValue: nat, maxValue: nat, more: seq<byte>)
    requires |content| < 0x80
    ensures var w := Accumulated(0, content);
            ReadUnsigned([tag, |content|] + content + more, tag, width, minValue, maxValue)
            == if BytePrecision(w) <= width && minValue <= w <= maxValue then Read(w, more) else Failed
  {
    hide *;
    ShortHeader(tag, content, more);
    ReadAs([tag, |content|] + content + more, |content|, content + more, width, minValue, maxValue);
    TrimmedIs(content, width);
    AccumulatedIs(Trimmed(content, width));
  }

  // ---------- Arcs ----------

  /** `n` and then the octets' lower seven bits as one number. */
  function Septets(n: nat, s: seq<byte>): nat
    decreases |s|
  {
    if s == [] then n else Septets(n * 0x80 + s[0] % 0x80, s[1..])
  }

  lemma {:induction false} SeptetsPush(n: nat, s: seq<byte>, b: byte)
    ensures Septets(n, s + [b]) == Septets(n, s) * 0x80 + b % 0x80
    decreases |s|
  {
    if s == [] {
      assert [b][1..] == [];
    } else {
      assert (s + [b])[1..] == s[1..] + [b];
      SeptetsPush(n * 0x80 + s[0] % 0x80, s[1..], b);
    }
  }

  lemma {:induction false} ContinuedIs(v: nat)
    ensures var s := Continued(v); Septets(0, s) == v && (v > 0 ==> s[0] != 0x80)
    ensures forall i :: 0 <= i < |Continued(v)| ==> Continued(v)[i] >= 0x80
  {
    var b: byte := 0x80 + v % 0x80;
    if v < 0x80 {
      assert [b][1..] == [];
    } else {
      ContinuedIs(v / 0x80);
      SeptetsPush(0, Continued(v / 0x80), b);
    }
  }

  /** Section 8.19.2 of X.690: an arc's septets make it up; all octets but the last have the top bit, and
      the first is not 0x80. */
  lemma Base128Is(v: nat)
    ensures var s := Base128(v);
            |s| >= 1 && Septets(0, s) == v && s[0] != 0x80 && s[|s| - 1] < 0x80
            && forall i :: 0 <= i < |s| - 1 ==> s[i] >= 0x80
  {
    var b: byte := v % 0x80;
    if v < 0x80 {
      assert [b][1..] == [];
    } else {
      ContinuedIs(v / 0x80);
      SeptetsPush(0, Continued(v / 0x80), b);
    }
  }

  // ---------- Values ----------

  /** Lengths of 127, 201 (the example of section 8.1.3.5 of X.690) and 435, INTEGER 128, and BOOLEAN. */
  lemma ValueVectors()
    ensures LengthOctets(127) == [0x7F] && LengthOctets(201) == [0x81, 0xC9] && LengthOctets(435) == [0x82, 0x01, 0xB3]
    ensures Tlv(0x02, UnsignedContents(128, 0x02)) == [0x02, 0x02, 0x00, 0x80]
    ensures Tlv(0x01, UnsignedContents(3, 0x01)) == [0x01, 0x01, 0xFF]
    ensures Tlv(0x01, UnsignedContents(0, 0x01)) == [0x01, 0x01, 0x00]
  {
    assert BytePrecision(435) == 2;
    assert BigEndian(435, 2) == BigEndian(1, 1) + [0xB3];
    assert BigEndian(1, 1) == BigEndian(0, 0) + [1];
  }

  /** The object identifier 1.2.840.113549. */
  lemma IdentifierVector()
    ensures Tlv(0x06, OidContents([1, 2, 840, 113549])) == [0x06, 0x06, 0x2A, 0x86, 0x48, 0x86, 0xF7, 0x0D]
  {
    var arcs: seq<nat> := [1, 2, 840, 113549];
    assert arcs[2..] == [840, 113549];
    assert [840, 113549][..1] == [840] && [840][..0] == [];
    assert Arcs([840, 113549]) == Arcs([840]) + Base128(113549);
    assert Arcs([840]) == [] + Base128(840);
    ArcVectors();
    hide Arcs, Base128;
  }

  lemma ArcVectors()
    ensures Base128(840) == [0x86, 0x48] && Base128(113549) == [0x86, 0xF7, 0x0D]
  {}

  lemma LeafVectors()
    ensures Der(Leaf(0x02, [5])) == [0x02, 0x01, 0x05] && Der(Leaf(0x01, [0xFF])) == [0x01, 0x01, 0xFF]
    ensures WellFormed(Leaf(0x02, [5])) && WellFormed(Leaf(0x01, [0xFF])) && IsConstructed(0x30)
  {}

  lemma OneMoreNode(nodes: seq<Node>, node: Node)
    ensures DerAll(nodes + [node]) == DerAll(nodes) + Der(node)
  {
    hide Der;
    assert (nodes + [node])[..|nodes|] == nodes;
  }

  lemma TwoNodes(a: Node, b: Node)
    ensures DerAll([a, b]) == Der(a) + Der(b)
  {
    hide Der;
    OneMoreNode([], a);
    OneMoreNode([a], b);
    assert DerAll([]) == [];
    hide DerAll;
    assert [] + [a] == [a] && [a] + [b] == [a, b];
    assert [] + Der(a) == Der(a);
  }

  /** A sequence of two values keeps their order. */
  lemma TreeVector()
    ensures Der(Branch(0x30, [Leaf(0x02, [5]), Leaf(0x01, [0xFF])]))
         == [0x30, 0x06, 0x02, 0x01, 0x05, 0x01, 0x01, 0xFF]
  {
    LeafVectors();
    TwoNodes(Leaf(0x02, [5]), Leaf(0x01, [0xFF]));
    hide DerAll, IsConstructed;
  }

  lemma UntilEnd(a: Node, b: Node)
    requires WellFormed(a) && WellFormed(b) && |Der(a)| < LWORD_LIMIT && |Der(b)| < LWORD_LIMIT
    requires a.tag != 0 && b.tag != 0
    ensures ParseUntilEnd(Der(a) + (Der(b) + [0, 0])) == ParsedAll([a, b], [])
  {
    ParseDer(a, Der(b) + [0, 0]);
    ParseDer(b, [0, 0]);
    FirstIsTag(a, Der(b) + [0, 0]);
    FirstIsTag(b, [0, 0]);
    assert [0, 0][2..] == [];
    assert ParseUntilEnd([0, 0]) == ParsedAll([], []);
    hide Der, Parse;
    assert ParseUntilEnd(Der(b) + [0, 0]) == ParsedAll([b] + [], []);
  }

  lemma FirstIsTag(node: Node, more: seq<byte>)
    ensures (Der(node) + more)[0] == node.tag
  {}

  /** So it does with an indefinite length, up to the end-of-contents octets. */
  lemma IndefiniteVector()
    ensures Parse([0x30, 0x80, 0x02, 0x01, 0x05, 0x01, 0x01, 0xFF, 0x00, 0x00])
         == Parsed(Branch(0x30, [Leaf(0x02, [5]), Leaf(0x01, [0xFF])]), [])
  {
    LeafVectors();
    UntilEnd(Leaf(0x02, [5]), Leaf(0x01, [0xFF]));
    hide ParseUntilEnd, Der, IsConstructed, WellFormed;
    var s: seq<byte> := [0x30, 0x80, 0x02, 0x01, 0x05, 0x01, 0x01, 0xFF, 0x00, 0x00];
    var inside: seq<byte> := [0x02, 0x01, 0x05] + ([0x01, 0x01, 0xFF] + [0, 0]);
    assert s[1..][1..] == inside;
  }
}
