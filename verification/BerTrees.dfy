/** Nested tag-length-value trees (asn.cpp): the DER encoder, the BER decoder, and reencoding. */
module BerTrees {
  import opened ByteStrings
  import opened BerLengths

  datatype Node = Leaf(tag: byte, content: seq<byte>) | Branch(tag: byte, children: seq<Node>)

  /** tag & CONSTRUCTED */
  predicate IsConstructed(tag: byte) {
    tag / 0x20 % 2 == 1
  }

  /** Exactly the constructed tags have trees for contents. */
  ghost predicate WellFormed(node: Node) {
    match node
    case Leaf(tag, _) => !IsConstructed(tag)
    case Branch(tag, children) => IsConstructed(tag) && forall i :: 0 <= i < |children| ==> WellFormed(children[i])
  }

  // ---------- What the bytes are ----------

  function Tlv(tag: byte, content: seq<byte>): seq<byte> {
    [tag] + LengthOctets(|content|) + content
  }

  /** Section 10.1 of X.690: definite lengths in the fewest octets. */
  function Der(node: Node): seq<byte>
    decreases node, 0
  {
    match node
    case Leaf(tag, content) => Tlv(tag, content)
    case Branch(tag, children) => Tlv(tag, DerAll(children))
  }

  function DerAll(nodes: seq<Node>): seq<byte>
    decreases nodes, 1
  {
    if nodes == [] then [] else DerAll(nodes[..|nodes| - 1]) + Der(nodes[|nodes| - 1])
  }

  datatype Parsed = Parsed(node: Node, rest: seq<byte>) | Malformed
  datatype ParsedAll = ParsedAll(nodes: seq<Node>, rest: seq<byte>) | AllMalformed

  /** The tree that BER bytes denote: section 8.1 of X.690. */
  function Parse(s: seq<byte>): (r: Parsed)
    ensures r.Parsed? ==> |r.rest| + 2 <= |s|
    decreases |s|, 0
  {
    if s == [] then Malformed
    else
      match ReadLength(s[1..])
      case Definite(n, t) =>
        if n > |t| then Malformed
        else if !IsConstructed(s[0]) then Parsed(Leaf(s[0], t[..n]), t[n..])
        else
          (match ParseContents(t[..n])
           case ParsedAll(nodes, _) => Parsed(Branch(s[0], nodes), t[n..])
           case AllMalformed => Malformed)
      case Indefinite(t) =>
        if !IsConstructed(s[0]) then Malformed
        else
          (match ParseUntilEnd(t)
           case ParsedAll(nodes, rest) => Parsed(Branch(s[0], nodes), rest)
           case AllMalformed => Malformed)
      case _ => Malformed
  }

  function ParseContents(s: seq<byte>): (r: ParsedAll)
    ensures r.ParsedAll? ==> r.rest == []
    decreases |s|, 1
  {
    if s == [] then ParsedAll([], [])
    else
      match Parse(s)
      case Malformed => AllMalformed
      case Parsed(node, rest) =>
        match ParseContents(rest)
        case AllMalformed => AllMalformed
        case ParsedAll(nodes, _) => ParsedAll([node] + nodes, [])
  }

  /** The next bytes are the end-of-contents octets. */
  predicate AtEnd(s: seq<byte>) {
    |s| >= 2 && s[0] == 0 && s[1] == 0
  }

  function ParseUntilEnd(s: seq<byte>): (r: ParsedAll)
    ensures r.ParsedAll? ==> |r.rest| + 2 <= |s|
    decreases |s|, 1
  {
    if AtEnd(s) then ParsedAll([], s[2..])
    else
      match Parse(s)
      case Malformed => AllMalformed
      case Parsed(node, rest) =>
        match ParseUntilEnd(rest)
        case AllMalformed => AllMalformed
        case ParsedAll(nodes, last) => ParsedAll([node] + nodes, last)
  }

  // ---------- Reading undoes writing ----------

  /** A definite length is read off a tag-length-value triple whatever follows it. */
  lemma ReadTlv(tag: byte, content: seq<byte>, more: seq<byte>)
    requires |content| < LWORD_LIMIT
    ensures var s := Tlv(tag, content) + more;
            s != [] && s[0] == tag && ReadLength(s[1..]) == Definite(|content|, content + more)
    ensures (content + more)[..|content|] == content && (content + more)[|content|..] == more
  {
    LengthRoundTrip(|content|, content + more);
    assert (Tlv(tag, content) + more)[1..] == LengthOctets(|content|) + (content + more);
  }

  /** Every tree in DER, whatever its tags, is read back as that tree, with nothing left of it. */
  lemma {:induction false} ParseDer(node: Node, more: seq<byte>)
    requires WellFormed(node) && |Der(node)| < LWORD_LIMIT
    ensures Parse(Der(node) + more) == Parsed(node, more)
    decreases node, 0
  {
    match node
    case Leaf(tag, content) => ReadTlv(tag, content, more);
    case Branch(tag, children) =>
      ReadTlv(tag, DerAll(children), more);
      ParseDerAll(children, []);
      AppendNothing(DerAll(children));
      AppendNothing(children);
  }

  lemma ParseOneMore(node: Node, s: seq<byte>, more: seq<byte>)
    requires Parse(s + more) == Parsed(node, more) && ParseContents(more).ParsedAll?
    ensures ParseContents(s + more) == ParsedAll([node] + ParseContents(more).nodes, [])
  {}

  /** Trees in front of contents that parse. */
  lemma {:induction false} ParseDerAll(nodes: seq<Node>, more: seq<byte>)
    requires (forall i :: 0 <= i < |nodes| ==> WellFormed(nodes[i])) && |DerAll(nodes)| < LWORD_LIMIT
    requires ParseContents(more).ParsedAll?
    ensures ParseContents(DerAll(nodes) + more) == ParsedAll(nodes + ParseContents(more).nodes, [])
    decreases nodes, 1
  {
    if nodes == [] {
      assert [] + more == more;
      assert [] + ParseContents(more).nodes == ParseContents(more).nodes;
    } else {
      var k := |nodes| - 1;
      var before, last, tail := nodes[..k], nodes[k], ParseContents(more).nodes;
      assert DerAll(nodes) == DerAll(before) + Der(last) && nodes == before + [last];
      hide Der, DerAll, Parse, ParseContents, Tlv;
      ParseDer(last, more);
      ParseOneMore(last, Der(last), more);
      ParseDerAll(before, Der(last) + more);
      AppendAssociates(DerAll(before), Der(last), more);
      AppendAssociates(before, [last], tail);
    }
  }

  // ---------- The encoder ----------

  /** A queue that is put out with its tag and length in front when it is complete. */
  class DERGeneralEncoder {
    const outQueue: ByteQueue
    const queue: ByteQueue
    const tag: byte

    constructor (outQueue: ByteQueue, tag: byte)
      ensures this.outQueue == outQueue && this.tag == tag && fresh(queue) && queue.contents == []
    {
      this.outQueue := outQueue;
      this.tag := tag;
      queue := new ByteQueue();
    }

    method MessageEnd()
      requires queue != outQueue
      modifies queue, outQueue
      ensures outQueue.contents == old(outQueue.contents) + Tlv(tag, old(queue.contents))
    {
      PutTlv(outQueue, tag, queue);
    }
  }

  /** Tag, length and everything in a queue. */
  method PutTlv(out: ByteQueue, tag: byte, queue: ByteQueue)
    requires queue != out
    modifies queue, out
    ensures out.contents == old(out.contents) + Tlv(tag, old(queue.contents))
  {
    ghost var before, content := out.contents, queue.contents;
    LengthWraps(|content|);
    hide LengthOctets;
    var length := |queue.contents| % LWORD_LIMIT;
    out.Put([tag]);
    var n := DERLengthEncode(out, length);
    var all := queue.TransferTo(out, |queue.contents|);
    assert content[..|content|] == content;
    assert out.contents == before + ([tag] + LengthOctets(|content|) + content);
  }

  /** The length written is a 64-bit word. */
  lemma LengthWraps(length: nat)
    ensures LengthOctets(length % LWORD_LIMIT) == LengthOctets(length)
  {}

  /** A tree written with one encoder inside the other. */
  method EncodeNode(node: Node, out: ByteQueue)
    modifies out
    ensures out.contents == old(out.contents) + Der(node)
    decreases node
  {
    var encoder := new DERGeneralEncoder(out, node.tag);
    match node
    case Leaf(_, content) =>
      encoder.queue.Put(content);
      assert [] + content == content;
      encoder.MessageEnd();
    case Branch(_, children) =>
      for i := 0 to |children|
        invariant encoder.queue.contents == DerAll(children[..i]) && out.contents == old(out.contents)
        invariant fresh(encoder.queue)
      {
        assert children[..i + 1][..i] == children[..i];
        EncodeNode(children[i], encoder.queue);
      }
      assert children[..|children|] == children;
      encoder.MessageEnd();
  }

  // ---------- Reencoding ----------

  datatype Reencoded = Reencoded(out: seq<byte>, rest: seq<byte>) | Rejected

  /** A value with a definite length is copied, one with an indefinite length is reencoded inside. */
  function Reencode(s: seq<byte>): (r: Reencoded)
    ensures r.Reencoded? ==> |r.rest| + 2 <= |s|
    decreases |s|, 0
  {
    if s == [] then Rejected
    else
      match ReadLength(s[1..])
      case Definite(n, t) => if n > |t| then Rejected else Reencoded(Tlv(s[0], t[..n]), t[n..])
      case Indefinite(t) =>
        if !IsConstructed(s[0]) then Rejected
        else
          (match ReencodeUntilEnd(t)
           case Reencoded(out, rest) => Reencoded(Tlv(s[0], out), rest)
           case Rejected => Rejected)
      case _ => Rejected
  }

  function ReencodeUntilEnd(s: seq<byte>): (r: Reencoded)
    ensures r.Reencoded? ==> |r.rest| + 2 <= |s|
    decreases |s|, 1
  {
    if AtEnd(s) then Reencoded([], s[2..])
    else
      match Reencode(s)
      case Rejected => Rejected
      case Reencoded(out, rest) =>
        match ReencodeUntilEnd(rest)
        case Rejected => Rejected
        case Reencoded(outs, last) => Reencoded(out + outs, last)
  }

  // ---------- The decoder ----------

  /** What is expected inside an open decoder: contents that fill a definite length, or that end. */
  ghost function Expected(level: Level, s: seq<byte>): ParsedAll {
    match level
    case Bounded(left) => if |s| == left then ParseContents(s) else AllMalformed
    case Unbounded => ParseUntilEnd(s)
  }

  predicate EndReached(level: Level, s: seq<byte>) {
    match level
    case Bounded(left) => left == 0
    case Unbounded => AtEnd(s)
  }

  /** Tag and length octets of the value that is next, if it has this tag. */
  method ReadHeader(source: Source, asnTag: byte) returns (ok: bool, l: Length)
    modifies source
    ensures var w := old(source.Window());
            ok == (w != [] && w[0] == asnTag && (ReadLength(w[1..]).Definite? || ReadLength(w[1..]).Indefinite?))
    ensures ok ==>
      var w := old(source.Window());
      l == ReadLength(w[1..]) && source.Window() == l.rest
      && source.Advanced(old(source.contents), old(source.levels), |w| - |l.rest|)
  {
    ghost var c0, l0, w := source.contents, source.levels, source.Window();
    hide Limit, Reduced, ReadLength;
    l := Truncated;
    var b;
    ok, b := source.Get();
    if !ok || b != asnTag {
      return false, l;
    }
    l := BERLengthDecode(source);
    ok := l.Definite? || l.Indefinite?;
    if ok {
      ReducedTwice(l0, 1, |w| - 1 - |l.rest|);
      SliceTwice(c0, 1, |w| - 1 - |l.rest|);
    }
  }

  /** Opens a decoder on the value that is next, if it has this tag. */
  method BeginDecoder(source: Source, asnTag: byte) returns (ok: bool)
    modifies source
    ensures var w := old(source.Window());
            ok == (w != [] && w[0] == asnTag
                   && var l := ReadLength(w[1..]); l.Definite? || (l.Indefinite? && IsConstructed(asnTag)))
    ensures ok ==>
      var w := old(source.Window());
      var l := ReadLength(w[1..]);
      var k := |w| - |l.rest|;
      k <= |old(source.contents)| && source.contents == old(source.contents)[k..]
      && source.levels == Reduced(old(source.levels), k) + [if l.Definite? then Bounded(l.length) else Unbounded]
      && source.Window() == if l.Definite? then l.rest[..Min(l.length, |l.rest|)] else l.rest
  {
    hide Limit, Reduced, ReadLength;
    var l;
    ok, l := ReadHeader(source, asnTag);
    if !ok || (l.Indefinite? && !IsConstructed(asnTag)) {
      return false;
    }
    var level := if l.Definite? then Bounded(l.length) else Unbounded;
    LimitPush(source.levels, level, |source.contents|);
    source.levels := source.levels + [level];
  }

  /** Closes the innermost decoder: nothing may be left, or the end-of-contents octets are taken. */
  method EndDecoder(source: Source) returns (ok: bool)
    requires source.levels != []
    modifies source
    ensures ok == EndReached(old(source.levels)[|old(source.levels)| - 1], old(source.Window()))
    ensures ok ==>
      var n := |old(source.levels)| - 1;
      var k := if old(source.levels)[n].Unbounded? then 2 else 0;
      k <= |old(source.contents)| && source.contents == old(source.contents)[k..]
      && source.levels == Reduced(old(source.levels)[..n], k)
  {
    hide Limit, Reduced;
    ghost var levels := source.levels;
    var n := |source.levels| - 1;
    ReducedNothing(levels[..n]);
    match source.levels[n] {
      case Bounded(left) =>
        ok := left == 0;
      case Unbounded =>
        ok := AtEnd(source.Window());
        if ok {
          var end := source.Take(2);
          ReducedPush(levels[..n], levels[n], 2);
          assert levels == levels[..n] + [levels[n]];
        }
    }
    if ok {
      assert |source.levels| == n + 1;
      source.levels := source.levels[..n];
      assert levels[n].Unbounded? ==> source.levels == Reduced(levels[..n], 2);
    }
  }

  /** What is expected before and after one value. */
  lemma ExpectedStep(level: Level, s: seq<byte>)
    requires !EndReached(level, s) && (level.Bounded? ==> |s| <= level.left)
    ensures match Parse(s)
            case Malformed => Expected(level, s) == AllMalformed
            case Parsed(node, rest) =>
              var later := Expected(Lowered(level, |s| - |rest|), rest);
              Expected(level, s)
                == if later.ParsedAll? then ParsedAll([node] + later.nodes, later.rest) else AllMalformed
  {
    hide Parse;
    match level
    case Bounded(left) =>
      hide ParseUntilEnd;
      if |s| == left { ContentsStep(s); }
    case Unbounded =>
      hide ParseContents;
  }

  lemma ContentsStep(s: seq<byte>)
    requires s != []
    ensures match Parse(s)
            case Malformed => ParseContents(s) == AllMalformed
            case Parsed(node, rest) =>
              var later := ParseContents(rest);
              ParseContents(s) == if later.ParsedAll? then ParsedAll([node] + later.nodes, []) else AllMalformed
  {
    hide Parse;
  }

  lemma ExpectedAtEnd(level: Level, s: seq<byte>)
    requires EndReached(level, s) && (level.Bounded? ==> |s| <= level.left)
    ensures Expected(level, s) == ParsedAll([], if level.Unbounded? then s[2..] else [])
  {}

  lemma LevelsAt(levels: seq<Level>, k: nat, i: nat)
    requires i < |levels|
    ensures Reduced(levels, k)[i] == Lowered(levels[i], k)
  {}

  lemma WithinLevel(levels: seq<Level>, n: nat)
    requires levels != [] && levels[|levels| - 1].Bounded?
    ensures Limit(levels, n) <= levels[|levels| - 1].left
  {}

  // ---------- How far a source has been read ----------

  lemma WindowIs(source: Source)
    ensures source.Window() == source.contents[..Limit(source.levels, |source.contents|)]
    ensures source.Advanced(source.contents, source.levels, 0)
  {
    ReducedNothing(source.levels);
  }

  /** What a source shows when `k` bytes have been read. */
  lemma AdvancedIs(source: Source, contents: seq<byte>, levels: seq<Level>, k: nat)
    requires source.Advanced(contents, levels, k)
    ensures k <= Limit(levels, |contents|) && source.contents == contents[k..]
    ensures source.levels == Reduced(levels, k) && |source.levels| == |levels|
    ensures source.Window() == contents[..Limit(levels, |contents|)][k..]
  {
    LimitReduced(levels, |contents|, k);
    hide Limit, Reduced;
    DropThenTake(contents, k, Limit(levels, |contents|));
  }

  /** Reading `j` bytes more. */
  lemma AdvancedTwice(source: Source, contents: seq<byte>, levels: seq<Level>, k: nat, j: nat)
    requires k <= Limit(levels, |contents|) && source.Advanced(contents[k..], Reduced(levels, k), j)
    ensures source.Advanced(contents, levels, k + j)
    ensures source.Window() == contents[..Limit(levels, |contents|)][k + j..]
  {
    LimitReduced(levels, |contents|, k);
    ReducedTwice(levels, k, j);
    SliceTwice(contents, k, j);
    hide Limit, Reduced;
    AdvancedIs(source, contents, levels, k + j);
  }

  /** Having read all of a window but its end, a source shows that end. */
  lemma ShownRest(source: Source, contents: seq<byte>, levels: seq<Level>, k: nat, rest: seq<byte>)
    requires k <= |contents| && source.contents == contents[k..] && source.levels == Reduced(levels, k)
    requires IsSuffix(rest, contents[..Limit(levels, |contents|)]) && |rest| == Limit(levels, |contents|) - k
    ensures source.Advanced(contents, levels, k) && source.Window() == rest
  {
    AdvancedIs(source, contents, levels, k);
  }

  /** The bytes up to the end of what is expected inside a decoder. */
  ghost function ContentLength(level: Level, s: seq<byte>): (n: int)
    requires Expected(level, s).ParsedAll?
  {
    |s| - |Expected(level, s).rest| - if level.Unbounded? then 2 else 0
  }

  /** The values inside the innermost decoder, until its end is reached. */
  method DecodeAll(source: Source) returns (ok: bool, nodes: seq<Node>)
    requires source.levels != []
    modifies source
    ensures var (level, w) := (old(source.levels)[|old(source.levels)| - 1], old(source.Window()));
            ok == Expected(level, w).ParsedAll?
    ensures ok ==>
      var (level, w) := (old(source.levels)[|old(source.levels)| - 1], old(source.Window()));
      nodes == Expected(level, w).nodes && 0 <= ContentLength(level, w) <= |w|
      && source.Advanced(old(source.contents), old(source.levels), ContentLength(level, w))
      && source.Window() == w[ContentLength(level, w)..]
    ensures ok ==>
      var (level, w) := (old(source.levels)[|old(source.levels)| - 1], old(source.Window()));
      |source.levels| == |old(source.levels)| && EndReached(source.levels[|source.levels| - 1], source.Window())
      && Expected(level, w).rest == if level.Unbounded? then source.Window()[2..] else []
    decreases |source.contents|, 1
  {
    WindowIs(source);
    hide Limit, Reduced, Parse, Expected, Source.Window, Source.Advanced;
    ghost var c0, l0, w0 := source.contents, source.levels, source.Window();
    ghost var n := |l0| - 1;
    ghost var e0 := Expected(l0[n], w0);
    ghost var k: nat := 0;
    nodes := [];
    while !EndReached(source.levels[|source.levels| - 1], source.Window())
      invariant k <= |w0| && source.Advanced(c0, l0, k) && source.Window() == w0[k..]
      invariant |source.levels| == n + 1 && source.levels[n].Bounded? == l0[n].Bounded?
      invariant e0.ParsedAll? == Expected(source.levels[n], source.Window()).ParsedAll?
      invariant e0.ParsedAll? ==>
        var e := Expected(source.levels[n], source.Window());
        e0.nodes == nodes + e.nodes && e0.rest == e.rest
      decreases |source.contents|
    {
      ghost var w, before, level := source.Window(), nodes, source.levels[n];
      AdvancedIs(source, c0, l0, k);
      InnermostLevel(source);
      ExpectedStep(level, w);
      var node;
      ok, node := DecodeNode(source);
      if !ok {
        return;
      }
      ghost var j := |w| - |Parse(w).rest|;
      AdvancedTwice(source, c0, l0, k, j);
      AdvancedIs(source, c0, l0, k + j);
      LevelsStep(l0, k, j, n);
      k := k + j;
      nodes := nodes + [node];
      if e0.ParsedAll? {
        AppendAssociates(before, [node], Expected(source.levels[n], source.Window()).nodes);
      }
    }
    InnermostLevel(source);
    ExpectedAtEnd(source.levels[n], source.Window());
    AppendNothing(nodes);
    ok := true;
  }

  /** The innermost decoder bounds the window. */
  lemma InnermostLevel(source: Source)
    requires source.levels != []
    ensures var level := source.levels[|source.levels| - 1]; level.Bounded? ==> |source.Window()| <= level.left
  {
    if source.levels[|source.levels| - 1].Bounded? { WithinLevel(source.levels, |source.contents|); }
  }

  lemma LevelsStep(levels: seq<Level>, k: nat, j: nat, n: nat)
    requires n < |levels|
    ensures Reduced(levels, k + j)[n] == Lowered(Reduced(levels, k)[n], j)
  {
    ReducedTwice(levels, k, j);
  }

  /** What a decoder's inside amounts to, by its tag: raw contents, or trees. */
  ghost function Inside(tag: byte, level: Level, s: seq<byte>): ParsedAll
    requires level.Bounded? || IsConstructed(tag)
  {
    if IsConstructed(tag) then Expected(level, s)
    else if |s| < level.left then AllMalformed
    else ParsedAll([Leaf(tag, s[..level.left])], [])
  }

  ghost function InsideLength(tag: byte, level: Level, s: seq<byte>): int
    requires (level.Bounded? || IsConstructed(tag)) && Inside(tag, level, s).ParsedAll?
  {
    if IsConstructed(tag) then ContentLength(level, s) else level.left
  }

  /** Reads the inside of the innermost decoder and closes it. */
  method DecodeInside(source: Source, tag: byte) returns (ok: bool, node: Node)
    requires source.levels != [] && (source.levels[|source.levels| - 1].Bounded? || IsConstructed(tag))
    modifies source
    ensures var (level, w) := (old(source.levels)[|old(source.levels)| - 1], old(source.Window()));
            ok == Inside(tag, level, w).ParsedAll?
    ensures ok ==>
      var n := |old(source.levels)| - 1;
      var (level, w) := (old(source.levels)[n], old(source.Window()));
      var (nodes, j) := (Inside(tag, level, w).nodes, InsideLength(tag, level, w));
      var e := if level.Unbounded? then 2 else 0;
      node == (if IsConstructed(tag) then Branch(tag, nodes) else nodes[0])
      && 0 <= j && j + e <= |old(source.contents)| && source.contents == old(source.contents)[j + e..]
      && source.levels == Reduced(Reduced(old(source.levels), j)[..n], e)
    decreases |source.contents|, 2
  {
    hide Limit, Reduced, Expected;
    ghost var c1, l1, w1 := source.contents, source.levels, source.Window();
    ghost var n := |l1| - 1;
    var level := source.levels[|source.levels| - 1];
    node := Leaf(0, []);
    ghost var j: nat := 0;
    if !IsConstructed(tag) {
      WithinLevel(source.levels, |source.contents|);
      var length := Min(level.left, |source.Window()|);
      var content := source.Take(length);
      node := Leaf(tag, content);
      j := length;
    } else {
      var nodes;
      ok, nodes := DecodeAll(source);
      if !ok {
        return;
      }
      node := Branch(tag, nodes);
      j := ContentLength(level, w1);
    }
    LevelsAt(l1, j, n);
    ok := EndDecoder(source);
  }

  /** One value, whatever its tag, read through a decoder of its own. */
  method DecodeNode(source: Source) returns (ok: bool, node: Node)
    modifies source
    ensures ok == Parse(old(source.Window())).Parsed?
    ensures ok ==>
      var r := Parse(old(source.Window()));
      node == r.node && source.Window() == r.rest
      && source.Advanced(old(source.contents), old(source.levels), |old(source.Window())| - |r.rest|)
    decreases |source.contents|, 0
  {
    WindowIs(source);
    hide Limit, Reduced, Parse, ReadLength, Inside, InsideLength, Source.Window, Source.Advanced, IsSuffix;
    ghost var c0, l0, w0 := source.contents, source.levels, source.Window();
    node := Leaf(0, []);
    if source.Window() == [] {
      EmptyMalformed();
      return false, node;
    }
    var tag := source.Window()[0];
    ParseThrough(w0);
    ok := BeginDecoder(source, tag);
    if !ok {
      return;
    }
    ghost var w1, level := source.Window(), source.levels[|l0|];
    ghost var k := |c0| - |source.contents|;
    ok, node := DecodeInside(source, tag);
    if ok {
      ghost var j, e := InsideLength(tag, level, w1), if level.Unbounded? then 2 else 0;
      RestIsSuffix(w0);
      LevelsClosed(l0, level, k, j, e);
      SliceTwice(c0, k, j + e);
      ShownRest(source, c0, l0, k + j + e, Parse(w0).rest);
    }
  }

  lemma EmptyMalformed()
    ensures Parse([]) == Malformed
  {}

  /** Parsing a value is parsing what is inside its decoder. */
  lemma ParseThrough(s: seq<byte>)
    requires s != []
    ensures var (l, tag) := (ReadLength(s[1..]), s[0]);
            l.Truncated? || l.Overflow? || (l.Indefinite? && !IsConstructed(tag)) ==> Parse(s) == Malformed
    ensures var (l, tag) := (ReadLength(s[1..]), s[0]);
            l.Definite? || (l.Indefinite? && IsConstructed(tag)) ==>
            var level := if l.Definite? then Bounded(l.length) else Unbounded;
            var w := if l.Definite? then l.rest[..Min(l.length, |l.rest|)] else l.rest;
            var inside := Inside(tag, level, w);
            Parse(s).Parsed? == inside.ParsedAll?
            && (inside.ParsedAll? ==>
                  Parse(s).node == (if IsConstructed(tag) then Branch(tag, inside.nodes) else inside.nodes[0])
                  && |Parse(s).rest|
                     == |l.rest| - InsideLength(tag, level, w) - if level.Unbounded? then 2 else 0)
  {}

  ghost predicate IsSuffix(r: seq<byte>, s: seq<byte>) {
    |r| <= |s| && r == s[|s| - |r|..]
  }

  lemma Suffixes(s: seq<byte>, i: nat)
    requires i <= |s|
    ensures IsSuffix(s[i..], s)
  {}

  lemma SuffixOfSuffix(r: seq<byte>, t: seq<byte>, s: seq<byte>)
    requires IsSuffix(r, t) && IsSuffix(t, s)
    ensures IsSuffix(r, s)
  {}

  /** What is behind a value is the end of what it was in front of. */
  lemma {:induction false} RestIsSuffix(s: seq<byte>)
    requires Parse(s).Parsed?
    ensures IsSuffix(Parse(s).rest, s)
    decreases |s|, 0
  {
    hide IsSuffix;
    var l := ReadLength(s[1..]);
    LengthSuffix(s[1..]);
    Suffixes(s, 1);
    SuffixOfSuffix(l.rest, s[1..], s);
    if l.Indefinite? {
      EndIsSuffix(l.rest);
    } else {
      Suffixes(l.rest, l.length);
    }
    SuffixOfSuffix(Parse(s).rest, l.rest, s);
  }

  lemma {:induction false} EndIsSuffix(s: seq<byte>)
    requires ParseUntilEnd(s).ParsedAll?
    ensures IsSuffix(ParseUntilEnd(s).rest, s)
    decreases |s|, 1
  {
    hide IsSuffix;
    if AtEnd(s) {
      Suffixes(s, 2);
    } else {
      var t := Parse(s).rest;
      RestIsSuffix(s);
      EndIsSuffix(t);
      SuffixOfSuffix(ParseUntilEnd(t).rest, t, s);
    }
  }

  lemma LengthSuffix(s: seq<byte>)
    requires ReadLength(s).Definite? || ReadLength(s).Indefinite?
    ensures IsSuffix(ReadLength(s).rest, s)
  {
    hide IsSuffix;
    Suffixes(s, 1);
    if s[0] > 0x80 {
      OctetsSuffix(s[1..], s[0] - 0x80, 0);
      SuffixOfSuffix(ReadLength(s).rest, s[1..], s);
    }
  }

  lemma {:induction false} OctetsSuffix(s: seq<byte>, count: nat, length: nat)
    requires length < LWORD_LIMIT && ReadOctets(s, count, length).Definite?
    ensures IsSuffix(ReadOctets(s, count, length).rest, s)
    decreases count
  {
    hide IsSuffix;
    Suffixes(s, 0);
    assert s[0..] == s;
    if count > 0 {
      OctetsSuffix(s[1..], count - 1, length * 0x100 + s[0]);
      Suffixes(s, 1);
      SuffixOfSuffix(ReadOctets(s, count, length).rest, s[1..], s);
    }
  }

  /** Reading `k`, then `j` inside a decoder opened there, then `e` to close it. */
  lemma LevelsClosed(levels: seq<Level>, level: Level, k: nat, j: nat, e: nat)
    ensures Reduced(Reduced(Reduced(levels, k) + [level], j)[..|levels|], e) == Reduced(levels, k + j + e)
  {}

  lemma SliceTwice(s: seq<byte>, i: nat, j: nat)
    requires i + j <= |s|
    ensures s[i..][j..] == s[i + j..]
  {}

  lemma DropThenTake(s: seq<byte>, k: nat, n: nat)
    requires k <= n <= |s|
    ensures s[k..][..n - k] == s[..n][k..]
  {}

  /** A tree that is written and read again comes back, and nothing is left over. */
  method WriteAndRead(node: Node) returns (ok: bool, back: Node, left: seq<byte>)
    requires WellFormed(node) && |Der(node)| < LWORD_LIMIT
    ensures ok && back == node && left == []
  {
    hide Der, Parse, WellFormed;
    var queue := new ByteQueue();
    EncodeNode(node, queue);
    ParseDer(node, []);
    AppendNothing(Der(node));
    assert [] + Der(node) == Der(node);
    var source := new Source(queue.contents);
    assert source.Window() == source.contents;
    ok, back := DecodeNode(source);
    left := source.Window();
  }

  // ---------- The reencoder ----------

  /** What reencoding makes of a decoder's inside. */
  ghost function ReencodedInside(level: Level, s: seq<byte>): Reencoded {
    match level
    case Bounded(left) => if |s| < left then Rejected else Reencoded(s[..left], [])
    case Unbounded => ReencodeUntilEnd(s)
  }

  ghost function ReencodedLength(level: Level, s: seq<byte>): int
    requires ReencodedInside(level, s).Reencoded?
  {
    match level
    case Bounded(left) => left
    case Unbounded => |s| - |ReencodeUntilEnd(s).rest| - 2
  }

  /** Reads a value and puts it, with definite length, behind `dest`. */
  method DERReencode(source: Source, dest: ByteQueue) returns (ok: bool)
    modifies source, dest
    ensures ok == Reencode(old(source.Window())).Reencoded?
    ensures ok ==>
      var (w, r) := (old(source.Window()), Reencode(old(source.Window())));
      source.Window() == r.rest && dest.contents == old(dest.contents) + r.out
      && source.Advanced(old(source.contents), old(source.levels), |w| - |r.rest|)
    decreases |source.contents|, 0
  {
    WindowIs(source);
    hide Limit, Reduced, Reencode, ReadLength, ReencodedInside, ReencodedLength, Source.Window, Source.Advanced,
         IsSuffix;
    ghost var c0, l0, w0 := source.contents, source.levels, source.Window();
    if source.Window() == [] {
      EmptyRejected();
      return false;
    }
    var tag := source.Window()[0];
    ReencodeThrough(w0);
    ok := BeginDecoder(source, tag);
    if !ok {
      return;
    }
    ghost var w1, level := source.Window(), source.levels[|l0|];
    ghost var k := |c0| - |source.contents|;
    var encoder := new DERGeneralEncoder(dest, tag);
    ok := ReencodeInside(source, encoder.queue);
    if ok {
      ghost var j, e := ReencodedLength(level, w1), if level.Unbounded? then 2 else 0;
      RestOfReencoded(w0);
      LevelsClosed(l0, level, k, j, e);
      SliceTwice(c0, k, j + e);
      ShownRest(source, c0, l0, k + j + e, Reencode(w0).rest);
      encoder.MessageEnd();
    }
  }

  /** The inside of the innermost decoder: copied, or reencoded value by value; and its end. */
  method ReencodeInside(source: Source, target: ByteQueue) returns (ok: bool)
    requires source.levels != [] && target.contents == []
    modifies source, target
    ensures var (level, w) := (old(source.levels)[|old(source.levels)| - 1], old(source.Window()));
            ok == ReencodedInside(level, w).Reencoded?
    ensures ok ==>
      var n := |old(source.levels)| - 1;
      var (level, w) := (old(source.levels)[n], old(source.Window()));
      var j := ReencodedLength(level, w);
      var e := if level.Unbounded? then 2 else 0;
      target.contents == ReencodedInside(level, w).out
      && 0 <= j && j + e <= |old(source.contents)| && source.contents == old(source.contents)[j + e..]
      && source.levels == Reduced(Reduced(old(source.levels), j)[..n], e)
    decreases |source.contents|, 2
  {
    hide Limit, Reduced, ReencodeUntilEnd;
    ghost var l1, w1 := source.levels, source.Window();
    ghost var n := |l1| - 1;
    var level := source.levels[|source.levels| - 1];
    ghost var j: nat := 0;
    if level.Bounded? {
      WithinLevel(source.levels, |source.contents|);
      var content := source.Take(Min(level.left, |source.Window()|));
      target.Put(content);
      j := |content|;
    } else {
      ok := ReencodeAll(source, target);
      if !ok {
        return;
      }
      j := ReencodedLength(level, w1);
    }
    LevelsAt(l1, j, n);
    ok := EndDecoder(source);
  }

  method ReencodeAll(source: Source, target: ByteQueue) returns (ok: bool)
    requires source.levels != [] && source.levels[|source.levels| - 1].Unbounded? && target.contents == []
    modifies source, target
    ensures ok == ReencodeUntilEnd(old(source.Window())).Reencoded?
    ensures ok ==>
      var w := old(source.Window());
      var r := ReencodeUntilEnd(w);
      var j := |w| - |r.rest| - 2;
      target.contents == r.out && 0 <= j <= |w| && source.Advanced(old(source.contents), old(source.levels), j)
      && source.Window() == w[j..] && AtEnd(source.Window()) && |source.levels| == |old(source.levels)|
    decreases |source.contents|, 1
  {
    WindowIs(source);
    hide Limit, Reduced, Reencode, ReencodeUntilEnd, Source.Window, Source.Advanced;
    ghost var c0, l0, w0 := source.contents, source.levels, source.Window();
    ghost var n := |l0| - 1;
    ghost var whole := ReencodeUntilEnd(w0);
    ghost var k: nat := 0;
    while !AtEnd(source.Window())
      invariant k <= |w0| && source.Advanced(c0, l0, k) && source.Window() == w0[k..]
      invariant |source.levels| == n + 1
      invariant whole.Reencoded? == ReencodeUntilEnd(source.Window()).Reencoded?
      invariant whole.Reencoded? ==>
        var r := ReencodeUntilEnd(source.Window());
        whole.out == target.contents + r.out && whole.rest == r.rest
      decreases |source.contents|
    {
      ghost var w, before := source.Window(), target.contents;
      AdvancedIs(source, c0, l0, k);
      ReencodeStep(w);
      ok := DERReencode(source, target);
      if !ok {
        return;
      }
      ghost var j := |w| - |Reencode(w).rest|;
      AdvancedTwice(source, c0, l0, k, j);
      AdvancedIs(source, c0, l0, k + j);
      k := k + j;
      if whole.Reencoded? {
        AppendAssociates(before, Reencode(w).out, ReencodeUntilEnd(source.Window()).out);
      }
    }
    ReencodeStep(source.Window());
    AppendNothing(target.contents);
    ok := true;
  }

  lemma EmptyRejected()
    ensures Reencode([]) == Rejected
  {}

  lemma ReencodeStep(s: seq<byte>)
    ensures AtEnd(s) ==> ReencodeUntilEnd(s) == Reencoded([], s[2..])
    ensures !AtEnd(s) ==>
      match Reencode(s)
      case Rejected => ReencodeUntilEnd(s) == Rejected
      case Reencoded(out, rest) =>
        var later := ReencodeUntilEnd(rest);
        ReencodeUntilEnd(s) == if later.Reencoded? then Reencoded(out + later.out, later.rest) else Rejected
  {
    hide Reencode;
  }

  /** Reencoding a value is reencoding what is inside its decoder. */
  lemma ReencodeThrough(s: seq<byte>)
    requires s != []
    ensures var (l, tag) := (ReadLength(s[1..]), s[0]);
            l.Truncated? || l.Overflow? || (l.Indefinite? && !IsConstructed(tag)) ==> Reencode(s) == Rejected
    ensures var (l, tag) := (ReadLength(s[1..]), s[0]);
            l.Definite? || (l.Indefinite? && IsConstructed(tag)) ==>
            var level := if l.Definite? then Bounded(l.length) else Unbounded;
            var w := if l.Definite? then l.rest[..Min(l.length, |l.rest|)] else l.rest;
            var inside := ReencodedInside(level, w);
            Reencode(s).Reencoded? == inside.Reencoded?
            && (inside.Reencoded? ==>
                  Reencode(s).out == Tlv(tag, inside.out)
                  && |Reencode(s).rest| == |l.rest| - ReencodedLength(level, w) - if level.Unbounded? then 2 else 0)
  {
    hide Tlv;
    var l := ReadLength(s[1..]);
    if l.Definite? && l.length <= |l.rest| {
      assert l.rest[..l.length][..l.length] == l.rest[..l.length];
    }
  }

  lemma {:induction false} RestOfReencoded(s: seq<byte>)
    requires Reencode(s).Reencoded?
    ensures IsSuffix(Reencode(s).rest, s)
    decreases |s|, 0
  {
    hide IsSuffix, Tlv;
    var l := ReadLength(s[1..]);
    LengthSuffix(s[1..]);
    Suffixes(s, 1);
    SuffixOfSuffix(l.rest, s[1..], s);
    if l.Indefinite? {
      EndOfReencoded(l.rest);
    } else {
      Suffixes(l.rest, l.length);
    }
    SuffixOfSuffix(Reencode(s).rest, l.rest, s);
  }

  lemma {:induction false} EndOfReencoded(s: seq<byte>)
    requires ReencodeUntilEnd(s).Reencoded?
    ensures IsSuffix(ReencodeUntilEnd(s).rest, s)
    decreases |s|, 1
  {
    hide IsSuffix;
    if AtEnd(s) {
      Suffixes(s, 2);
    } else {
      var t := Reencode(s).rest;
      RestOfReencoded(s);
      EndOfReencoded(t);
      SuffixOfSuffix(ReencodeUntilEnd(t).rest, t, s);
    }
  }

  // ---------- Reencoding keeps the tree ----------

  /** Reencoding at most triples a value: an indefinite length and its end take three octets, a definite
      one up to nine. */
  lemma {:induction false} ReencodedSize(s: seq<byte>)
    requires Reencode(s).Reencoded?
    ensures |Reencode(s).out| <= 3 * (|s| - |Reencode(s).rest|)
    decreases |s|, 0
  {
    var l := ReadLength(s[1..]);
    if l.Indefinite? {
      EndReencodedSize(l.rest);
    } else {
      var n := |s| - |l.rest|;
      assert l.length > 0x7f ==> n >= 2;
    }
  }

  lemma {:induction false} EndReencodedSize(s: seq<byte>)
    requires ReencodeUntilEnd(s).Reencoded?
    ensures |ReencodeUntilEnd(s).out| <= 3 * (|s| - |ReencodeUntilEnd(s).rest| - 2)
    decreases |s|, 1
  {
    if !AtEnd(s) {
      ReencodedSize(s);
      EndReencodedSize(Reencode(s).rest);
    }
  }

  /** A value that parses is reencoded, up to the same place, as bytes that denote the same tree. */
  lemma {:induction false} ReencodingKeepsTree(s: seq<byte>, more: seq<byte>)
    requires Parse(s).Parsed? && 3 * |s| < LWORD_LIMIT
    ensures Reencode(s).Reencoded? && Reencode(s).rest == Parse(s).rest
    ensures Parse(Reencode(s).out + more) == Parsed(Parse(s).node, more)
    decreases |s|, 0
  {
    var l := ReadLength(s[1..]);
    if l.Indefinite? {
      ReencodingKeepsTrees(l.rest);
      EndReencodedSize(l.rest);
      ReadTlv(s[0], ReencodeUntilEnd(l.rest).out, more);
    } else {
      ReadTlv(s[0], l.rest[..l.length], more);
    }
  }

  lemma {:induction false} ReencodingKeepsTrees(s: seq<byte>)
    requires ParseUntilEnd(s).ParsedAll? && 3 * |s| < LWORD_LIMIT
    ensures ReencodeUntilEnd(s).Reencoded? && ReencodeUntilEnd(s).rest == ParseUntilEnd(s).rest
    ensures ParseContents(ReencodeUntilEnd(s).out) == ParsedAll(ParseUntilEnd(s).nodes, [])
    decreases |s|, 1
  {
    if !AtEnd(s) {
      var r := Reencode(s);
      var t := Parse(s).rest;
      ReencodingKeepsTrees(t);
      ReencodingKeepsTree(s, ReencodeUntilEnd(t).out);
      ReencodeStep(s);
      hide Parse, Reencode, ReencodeUntilEnd;
      ParseOneMore(Parse(s).node, r.out, ReencodeUntilEnd(t).out);
    }
  }

  /** What has been reencoded is not changed by reencoding it. */
  lemma ReencodingIsStable(s: seq<byte>, more: seq<byte>)
    requires Reencode(s).Reencoded? && 3 * |s| < LWORD_LIMIT
    ensures Reencode(Reencode(s).out + more) == Reencoded(Reencode(s).out, more)
  {
    ReencodedSize(s);
    var l := ReadLength(s[1..]);
    var content := if l.Indefinite? then ReencodeUntilEnd(l.rest).out else l.rest[..l.length];
    ReadTlv(s[0], content, more);
  }
}
