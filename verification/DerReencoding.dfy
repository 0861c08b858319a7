/** When what DERReencode makes is DER (asn.cpp): a value of definite length is copied as it is, so the
    headers inside it have to be in DER already. */
module DerReencoding {
  import opened ByteStrings
  import opened BerLengths
  import opened BerTrees

  // ---------- Headers in DER ----------

  /** The value in front of `s` has, down to its leaves, definite lengths in the fewest octets. */
  predicate DerInFront(s: seq<byte>)
    decreases |s|, 0
  {
    s != [] && var l := ReadLength(s[1..]);
    l.Definite? && l.length <= |l.rest| && LengthOctets(l.length) <= s[1..]
    && (IsConstructed(s[0]) ==> AllDer(l.rest[..l.length]))
  }

  /** So have all the values that make up `s`. */
  predicate AllDer(s: seq<byte>)
    decreases |s|, 1
  {
    s == [] || (DerInFront(s) && var l := ReadLength(s[1..]); AllDer(l.rest[l.length..]))
  }

  /** What reencoding copies is in DER: the insides of constructed values of definite length that have only
      indefinite lengths around them. */
  predicate CopiesDer(s: seq<byte>)
    decreases |s|, 0
  {
    s != [] && match ReadLength(s[1..])
    case Definite(n, t) => IsConstructed(s[0]) && n <= |t| ==> AllDer(t[..n])
    case Indefinite(t) => CopiesDerUntilEnd(t)
    case _ => true
  }

  predicate CopiesDerUntilEnd(s: seq<byte>)
    decreases |s|, 1
  {
    AtEnd(s) || (CopiesDer(s) && (Reencode(s).Reencoded? ==> CopiesDerUntilEnd(Reencode(s).rest)))
  }

  // ---------- The size of DER ----------

  /** DER takes at most five times the octets: a header is at least two of them, and in DER at most ten. */
  lemma {:induction false} DerSize(s: seq<byte>)
    requires Parse(s).Parsed?
    ensures |Der(Parse(s).node)| <= 5 * (|s| - |Parse(s).rest|)
    decreases |s|, 0
  {
    var l := ReadLength(s[1..]);
    if l.Indefinite? {
      DerSizeUntilEnd(l.rest);
    } else if IsConstructed(s[0]) {
      DerSizeOfContents(l.rest[..l.length]);
    }
  }

  lemma {:induction false} DerSizeOfContents(s: seq<byte>)
    requires ParseContents(s).ParsedAll?
    ensures |DerAll(ParseContents(s).nodes)| <= 5 * |s|
    decreases |s|, 1
  {
    if s != [] {
      DerSize(s);
      DerSizeOfContents(Parse(s).rest);
      DerPush(Parse(s).node, ParseContents(Parse(s).rest).nodes);
    }
  }

  lemma {:induction false} DerSizeUntilEnd(s: seq<byte>)
    requires ParseUntilEnd(s).ParsedAll?
    ensures |DerAll(ParseUntilEnd(s).nodes)| <= 5 * (|s| - |ParseUntilEnd(s).rest| - 2)
    decreases |s|, 1
  {
    if !AtEnd(s) {
      DerSize(s);
      DerSizeUntilEnd(Parse(s).rest);
      DerPush(Parse(s).node, ParseUntilEnd(Parse(s).rest).nodes);
    }
  }

  lemma {:induction false} DerPush(node: Node, nodes: seq<Node>)
    ensures DerAll([node] + nodes) == Der(node) + DerAll(nodes)
    decreases |nodes|
  {
    var all := [node] + nodes;
    if nodes == [] {
      assert all[..0] == [] && all[0] == node;
      assert [] + Der(node) == Der(node) == Der(node) + [];
    } else {
      var k := |nodes| - 1;
      assert all[..|all| - 1] == [node] + nodes[..k] && all[|all| - 1] == nodes[k];
      DerPush(node, nodes[..k]);
      AppendAssociates(Der(node), DerAll(nodes[..k]), Der(nodes[k]));
    }
  }

  // ---------- Telling values apart ----------

  /** Two triples in front of something are the same only if they have the same contents. */
  lemma TlvCancels(tag: byte, c: seq<byte>, d: seq<byte>, x: seq<byte>, y: seq<byte>)
    requires |c| < LWORD_LIMIT && |d| < LWORD_LIMIT
    ensures Tlv(tag, c) + x == Tlv(tag, d) + y <==> c == d && x == y
  {
    ReadTlv(tag, c, x);
    ReadTlv(tag, d, y);
  }

  /** The contents of a tree's DER. */
  function ContentOf(node: Node): seq<byte> {
    match node
    case Leaf(_, content) => content
    case Branch(_, children) => DerAll(children)
  }

  /** Bytes begin with a tree's DER, in front of what is behind the tree, exactly when the headers there
      are in DER. */
  lemma {:induction false} DerInFrontIsDer(s: seq<byte>)
    requires Parse(s).Parsed? && 5 * |s| < LWORD_LIMIT
    ensures s == Der(Parse(s).node) + Parse(s).rest <==> DerInFront(s)
    decreases |s|, 0
  {
    var (node, rest, l) := (Parse(s).node, Parse(s).rest, ReadLength(s[1..]));
    var d := ContentOf(node);
    DerSize(s);
    assert Der(node) == Tlv(s[0], d);
    if l.Definite? {
      var c := l.rest[..l.length];
      if IsConstructed(s[0]) { AllDerIsDer(c); }
      HeaderIsDer(s[0], s[1..], d, rest);
    } else {
      ReadTlv(s[0], d, rest);
    }
  }

  /** A definite length in front of contents `c` is in DER exactly when it can be written again. */
  lemma HeaderIsDer(tag: byte, t: seq<byte>, d: seq<byte>, rest: seq<byte>)
    requires ReadLength(t).Definite? && |d| < LWORD_LIMIT && ReadLength(t).length <= |ReadLength(t).rest|
    requires rest == ReadLength(t).rest[ReadLength(t).length..]
    ensures var l := ReadLength(t);
            [tag] + t == Tlv(tag, d) + rest <==> LengthOctets(l.length) <= t && l.rest[..l.length] == d
  {
    if LengthOctets(ReadLength(t).length) <= t {
      HeaderWritten(tag, t, rest);
      TlvCancels(tag, ReadLength(t).rest[..ReadLength(t).length], d, rest, rest);
    }
    if [tag] + t == Tlv(tag, d) + rest {
      HeaderRead(tag, t, d, rest);
    }
  }

  lemma HeaderWritten(tag: byte, t: seq<byte>, rest: seq<byte>)
    requires ReadLength(t).Definite? && ReadLength(t).length <= |ReadLength(t).rest|
    requires rest == ReadLength(t).rest[ReadLength(t).length..] && LengthOctets(ReadLength(t).length) <= t
    ensures [tag] + t == Tlv(tag, ReadLength(t).rest[..ReadLength(t).length]) + rest
  {
    var n := ReadLength(t).length;
    var u := t[|LengthOctets(n)|..];
    assert t == LengthOctets(n) + u;
    LengthRoundTrip(n, u);
    hide ReadLength, LengthOctets;
    assert u == u[..n] + u[n..];
    AppendAssociates(LengthOctets(n), u[..n], rest);
    AppendAssociates([tag], LengthOctets(n) + u[..n], rest);
    AppendAssociates([tag], LengthOctets(n), u[..n]);
  }

  lemma HeaderRead(tag: byte, t: seq<byte>, d: seq<byte>, rest: seq<byte>)
    requires |d| < LWORD_LIMIT && [tag] + t == Tlv(tag, d) + rest
    ensures ReadLength(t) == Definite(|d|, d + rest) && LengthOctets(|d|) <= t
    ensures (d + rest)[..|d|] == d
  {
    assert Tlv(tag, d) == [tag] + LengthOctets(|d|) + d;
    hide *;
    ReadTlv(tag, d, rest);
    BehindTag(tag, t, LengthOctets(|d|), d, rest);
  }

  lemma BehindTag(tag: byte, t: seq<byte>, a: seq<byte>, d: seq<byte>, rest: seq<byte>)
    requires [tag] + t == [tag] + a + d + rest
    ensures ([tag] + t)[1..] == t && t == a + (d + rest) && a <= t
  {
    assert t == ([tag] + t)[1..] == ([tag] + a + d + rest)[1..] == a + (d + rest);
  }

  lemma {:induction false} AllDerIsDer(s: seq<byte>)
    requires ParseContents(s).ParsedAll? && 5 * |s| < LWORD_LIMIT
    ensures s == DerAll(ParseContents(s).nodes) <==> AllDer(s)
    decreases |s|, 1
  {
    if s != [] {
      var (node, rest) := (Parse(s).node, Parse(s).rest);
      var nodes := ParseContents(rest).nodes;
      DerInFrontIsDer(s);
      AllDerIsDer(rest);
      DerPush(node, nodes);
      if s == Der(node) + DerAll(nodes) {
        DerThenRest(s, DerAll(nodes));
      }
    }
  }

  /** If a value's DER is in front, then the value ends with it. */
  lemma DerThenRest(s: seq<byte>, more: seq<byte>)
    requires Parse(s).Parsed? && 5 * |s| < LWORD_LIMIT && s == Der(Parse(s).node) + more
    ensures Parse(s).rest == more
  {
    DerSize(s);
    ReadTlv(s[0], ContentOf(Parse(s).node), more);
  }

  // ---------- Reencoding ----------

  /** What reencoding makes is the DER of its tree exactly when all that it copies is in DER. */
  lemma {:induction false} ReencodingMakesDer(s: seq<byte>)
    requires Parse(s).Parsed? && 5 * |s| < LWORD_LIMIT
    ensures Reencode(s).Reencoded? && (Reencode(s).out == Der(Parse(s).node) <==> CopiesDer(s))
    decreases |s|, 0
  {
    var (node, l) := (Parse(s).node, ReadLength(s[1..]));
    ReencodingKeepsTree(s, []);
    DerSize(s);
    var d := ContentOf(node);
    assert Der(node) == Tlv(s[0], d);
    if l.Definite? {
      var c := l.rest[..l.length];
      if IsConstructed(s[0]) { AllDerIsDer(c); }
      TlvCancels(s[0], c, d, [], []);
    } else {
      ReencodingMakesDerUntilEnd(l.rest);
      EndReencodedSize(l.rest);
      TlvCancels(s[0], ReencodeUntilEnd(l.rest).out, d, [], []);
    }
  }

  /** The first of several reencoded values is the DER of its tree, or else they all are not what follows. */
  lemma ReencodedCancels(s: seq<byte>, x: seq<byte>, y: seq<byte>)
    requires Parse(s).Parsed? && 5 * |s| < LWORD_LIMIT
    ensures Reencode(s).Reencoded?
    ensures Reencode(s).out + x == Der(Parse(s).node) + y <==> Reencode(s).out == Der(Parse(s).node) && x == y
  {
    var contents := ReencodedTriple(s);
    var (c, d) := contents;
    hide *;
    TlvCancels(s[0], c, d, x, y);
    TlvCancels(s[0], c, d, [], []);
    AppendNothing(Reencode(s).out);
    AppendNothing(Der(Parse(s).node));
  }

  /** Both are a triple with the value's tag. */
  lemma ReencodedTriple(s: seq<byte>) returns (contents: (seq<byte>, seq<byte>))
    requires Parse(s).Parsed? && 5 * |s| < LWORD_LIMIT
    ensures s != [] && Reencode(s).Reencoded? && |contents.0| < LWORD_LIMIT && |contents.1| < LWORD_LIMIT
    ensures Reencode(s).out == Tlv(s[0], contents.0) && Der(Parse(s).node) == Tlv(s[0], contents.1)
  {
    ReencodingKeepsTree(s, []);
    ReencodedSize(s);
    DerSize(s);
    var l := ReadLength(s[1..]);
    contents := (if l.Indefinite? then ReencodeUntilEnd(l.rest).out else l.rest[..l.length], ContentOf(Parse(s).node));
  }

  lemma {:induction false} ReencodingMakesDerUntilEnd(s: seq<byte>)
    requires ParseUntilEnd(s).ParsedAll? && 5 * |s| < LWORD_LIMIT
    ensures ReencodeUntilEnd(s).Reencoded?
    ensures ReencodeUntilEnd(s).out == DerAll(ParseUntilEnd(s).nodes) <==> CopiesDerUntilEnd(s)
    decreases |s|, 1
  {
    if !AtEnd(s) {
      var (node, rest) := (Parse(s).node, Parse(s).rest);
      ReencodingKeepsTree(s, []);
      ReencodingMakesDer(s);
      ReencodingMakesDerUntilEnd(rest);
      DerPush(node, ParseUntilEnd(rest).nodes);
      ReencodedCancels(s, ReencodeUntilEnd(rest).out, DerAll(ParseUntilEnd(rest).nodes));
      hide Parse, Reencode, Der, DerAll, CopiesDer;
    }
  }

  /** An empty sequence of indefinite length inside a sequence of definite length: it is copied, not put
      into DER. */
  lemma CopiedInside()
    ensures var s: seq<byte> := [0x30, 4, 0x30, 0x80, 0, 0];
            !CopiesDer(s) && Reencode(s) == Reencoded(s, [])
            && Parse(s) == Parsed(Branch(0x30, [Branch(0x30, [])]), [])
            && Der(Parse(s).node) == [0x30, 2, 0x30, 0]
  {
    var s: seq<byte> := [0x30, 4, 0x30, 0x80, 0, 0];
    var t := s[2..];
    assert t == [0x30, 0x80, 0, 0] && t[..4] == t && t[4..] == [];
    assert ReadLength(s[1..]) == Definite(4, t);
    EmptyIndefinite();
    assert Tlv(0x30, t) == s && LengthOctets(2) == [2];
    assert ParseContents(t) == ParsedAll([Branch(0x30, [])], []);
    hide ReadLength, Der, DerAll, Parse, ParseContents, LengthOctets;
    assert Tlv(0x30, [0x30, 0]) == [0x30] + LengthOctets(2) + [0x30, 0];
    DerOfOne(0x30, Branch(0x30, []));
  }

  lemma EmptyIndefinite()
    ensures var t: seq<byte> := [0x30, 0x80, 0, 0];
            ReadLength(t[1..]) == Indefinite([0, 0]) && Parse(t) == Parsed(Branch(0x30, []), []) && !AllDer(t)
    ensures Der(Branch(0x30, [])) == [0x30, 0]
  {
    var t: seq<byte> := [0x30, 0x80, 0, 0];
    assert t[2..] == [0, 0] && [0, 0][2..] == [];
    assert ReadLength(t[1..]) == Indefinite([0, 0]);
    assert ParseUntilEnd([0, 0]) == ParsedAll([], []);
  }

  lemma DerOfOne(tag: byte, node: Node)
    ensures Der(Branch(tag, [node])) == Tlv(tag, Der(node))
  {
    assert [node][..0] == [] && [] + Der(node) == Der(node);
    assert DerAll([node]) == Der(node);
  }
}
