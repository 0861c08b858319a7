/** The rest of basecode.cpp: the decoder's lookup table and the filter that breaks text into groups,
    and what the encoder, the grouper and the decoder do when they are put together. */
module TextCodecs {
  import opened ByteStrings
  import opened BitMath
  import opened BitStrings
  import opened BaseCodes

  // ---------- The lookup table ----------

  predicate IsAlpha(c: byte) {
    65 <= c <= 90 || 97 <= c <= 122
  }

  function ToUpper(c: byte): byte {
    if 97 <= c <= 122 then c - 32 else c
  }

  function ToLower(c: byte): byte {
    if 65 <= c <= 90 then c + 32 else c
  }

  /** `c` stands for the letter `a`. */
  predicate StandsFor(c: byte, a: byte, caseInsensitive: bool) {
    if caseInsensitive && IsAlpha(a) then c == ToUpper(a) || c == ToLower(a) else c == a
  }

  /** No character stands for two of the first `base` letters: what the original's assertions check. */
  ghost predicate Unambiguous(alphabet: seq<byte>, base: nat, caseInsensitive: bool)
    requires base <= |alphabet|
  {
    forall i, j, c: byte :: 0 <= i < j < base ==>
      !(StandsFor(c, alphabet[i], caseInsensitive) && StandsFor(c, alphabet[j], caseInsensitive))
  }

  /** The table finds the letter a character stands for, and finds nothing for any other character. */
  ghost predicate TableOf(lookup: seq<int>, alphabet: seq<byte>, base: nat, caseInsensitive: bool)
    requires |lookup| == 256 && base <= |alphabet|
  {
    forall c: byte :: 0 <= c < 256 ==>
      if 0 <= lookup[c] then lookup[c] < base && StandsFor(c, alphabet[lookup[c]], caseInsensitive)
      else lookup[c] == -1 && forall i :: 0 <= i < base ==> !StandsFor(c, alphabet[i], caseInsensitive)
  }

  method InitializeDecodingLookupArray(lookup: array<int>, alphabet: seq<byte>, base: nat, caseInsensitive: bool)
    requires lookup.Length == 256 && base <= |alphabet|
    modifies lookup
    ensures TableOf(lookup[..], alphabet, base, caseInsensitive)
  {
    forall c | 0 <= c < 256 {
      lookup[c] := -1;
    }
    for i := 0 to base
      invariant TableOf(lookup[..], alphabet, i, caseInsensitive)
    {
      if caseInsensitive && IsAlpha(alphabet[i]) {
        lookup[ToUpper(alphabet[i])] := i;
        lookup[ToLower(alphabet[i])] := i;
      } else {
        lookup[alphabet[i]] := i;
      }
    }
  }

  /** Such a table gives every character the value of the letter it stands for exactly when the alphabet is
      unambiguous. */
  lemma TableInverts(lookup: seq<int>, alphabet: seq<byte>, base: nat, caseInsensitive: bool)
    requires |lookup| == 256 && base <= |alphabet| && TableOf(lookup, alphabet, base, caseInsensitive)
    ensures (forall c: byte, i :: 0 <= i < base && StandsFor(c, alphabet[i], caseInsensitive) ==> lookup[c] == i)
       <==> Unambiguous(alphabet, base, caseInsensitive)
    ensures Unambiguous(alphabet, base, caseInsensitive) ==> Inverts(lookup, alphabet, base)
  {
    if Unambiguous(alphabet, base, caseInsensitive) {
      forall c: byte, i | 0 <= i < base && StandsFor(c, alphabet[i], caseInsensitive)
        ensures lookup[c] == i
      {
        var j := lookup[c];
        assert 0 <= j < base && StandsFor(c, alphabet[j], caseInsensitive);
      }
      forall i | 0 <= i < base ensures lookup[alphabet[i]] == i {
        assert StandsFor(alphabet[i], alphabet[i], caseInsensitive);
      }
    } else {
      var i, j, c: byte :| 0 <= i < j < base
        && StandsFor(c, alphabet[i], caseInsensitive) && StandsFor(c, alphabet[j], caseInsensitive);
      assert lookup[c] != i || lookup[c] != j;
    }
  }

  // ---------- Groups ----------

  /** `text` with `separator` after every `size` characters that more follow. */
  function Groups(text: seq<byte>, size: nat, separator: seq<byte>): seq<byte> {
    if size == 0 || |text| <= size then text
    else text[..size] + separator + Groups(text[size..], size, separator)
  }

  /** The length of the last group. */
  function LastGroup(length: nat, size: nat): nat {
    if size == 0 || length <= size then length else LastGroup(length - size, size)
  }

  /** Text goes into the last group while it has room. */
  lemma {:induction false} GroupExtended(text: seq<byte>, more: seq<byte>, size: nat, separator: seq<byte>)
    requires size > 0 && LastGroup(|text|, size) + |more| <= size
    ensures Groups(text + more, size, separator) == Groups(text, size, separator) + more
    ensures LastGroup(|text| + |more|, size) == LastGroup(|text|, size) + |more|
  {
    if |text| > size {
      TakeAndDrop(text, more, size);
      GroupExtended(text[size..], more, size, separator);
      AppendAssociates(text[..size] + separator, Groups(text[size..], size, separator), more);
    }
  }

  /** After a full last group a new one starts. */
  lemma {:induction false} GroupStarted(text: seq<byte>, more: seq<byte>, size: nat, separator: seq<byte>)
    requires size > 0 && LastGroup(|text|, size) == size && 0 < |more| <= size
    ensures Groups(text + more, size, separator) == Groups(text, size, separator) + separator + more
    ensures LastGroup(|text| + |more|, size) == |more|
  {
    TakeAndDrop(text, more, size);
    if |text| > size {
      GroupStarted(text[size..], more, size, separator);
      AppendAssociates(text[..size] + separator, Groups(text[size..], size, separator) + separator, more);
      AppendAssociates(text[..size] + separator, Groups(text[size..], size, separator), separator);
    } else {
      assert text[..size] == text && text[size..] == [];
      assert [] + more == more;
    }
  }

  class Grouper {
    const groupSize: nat
    const separator: seq<byte>
    const terminator: seq<byte>
    var counter: nat
    /** The text so far, and what was put out for it. */
    ghost var text: seq<byte>
    ghost var written: seq<byte>

    ghost predicate Valid()
      reads this
    {
      && written == Groups(text, groupSize, separator)
      && (groupSize > 0 ==> counter == LastGroup(|text|, groupSize) <= groupSize)
    }

    constructor (groupSize: nat, separator: seq<byte>, terminator: seq<byte>)
      ensures Valid() && text == [] && written == []
      ensures this.groupSize == groupSize && this.separator == separator && this.terminator == terminator
    {
      this.groupSize, this.separator, this.terminator := groupSize, separator, terminator;
      counter, text, written := 0, [], [];
    }

    /** The next group, or the rest of this one, or of the input. */
    method PutGroup(input: seq<byte>) returns (len: nat, out: seq<byte>)
      requires Valid() && groupSize > 0 && input != []
      modifies this
      ensures Valid() && 0 < len <= |input|
      ensures text == old(text) + input[..len] && written == old(written) + out
    {
      out := [];
      ghost var full := counter == groupSize;
      if counter == groupSize {
        out := separator;
        counter := 0;
      }
      len := Min(|input|, groupSize - counter);
      var piece := input[..len];
      if full {
        GroupStarted(text, piece, groupSize, separator);
        AppendAssociates(written, separator, piece);
      } else {
        GroupExtended(text, piece, groupSize, separator);
        AppendAssociates(written, [], piece);
        AppendNothing(written);
      }
      out := out + piece;
      counter := counter + len;
      text, written := text + piece, written + out;
    }

    /** Any part of a text, and its end. */
    method Put(input: seq<byte>, messageEnd: bool) returns (out: seq<byte>)
      requires Valid()
      modifies this
      ensures Valid()
      ensures !messageEnd ==> text == old(text) + input && written == old(written) + out
      ensures messageEnd ==> text == [] && written == []
      ensures messageEnd ==> old(written) + out == Groups(old(text) + input, groupSize, separator) + terminator
    {
      hide Groups, LastGroup;
      out := [];
      AppendNothing(written);
      AppendNothing(text);
      if groupSize > 0 {
        var i: nat := 0;
        while i < |input|
          invariant i <= |input| && Valid() && text == old(text) + input[..i] && written == old(written) + out
        {
          ghost var before := out;
          var len, piece := PutGroup(input[i..]);
          out := out + piece;
          AppendAssociates(old(written), before, piece);
          AppendSlice(old(text), input, i, len);
          assert input[i..][..len] == input[i..i + len];
          i := i + len;
        }
        assert input[..|input|] == input;
      } else {
        out := input;
        text, written := text + input, written + input;
        Ungrouped(text, separator);
        Ungrouped(old(text), separator);
      }
      if messageEnd {
        AppendAssociates(old(written), out, terminator);
        out := out + terminator;
        counter := 0;
        text, written := [], [];
        NoGroups(groupSize, separator);
      }
    }
  }

  lemma Ungrouped(text: seq<byte>, separator: seq<byte>)
    ensures Groups(text, 0, separator) == text
  {}

  lemma NoGroups(size: nat, separator: seq<byte>)
    ensures Groups([], size, separator) == [] && LastGroup(0, size) == 0
  {}

  /** Separators that are no letters are skipped. */
  lemma {:induction false} ValuesOfGroups(lookup: seq<int>, text: seq<byte>, size: nat, separator: seq<byte>)
    requires |lookup| == 256 && NoLetters(lookup, separator)
    ensures Values(lookup, Groups(text, size, separator)) == Values(lookup, text)
  {
    hide Values, NoLetters;
    if size == 0 || |text| <= size {
    } else {
      var first, rest := text[..size], text[size..];
      ValuesOfGroups(lookup, rest, size, separator);
      NoValues(lookup, separator);
      ValuesOfConcatenation(lookup, first, separator);
      ValuesOfConcatenation(lookup, first + separator, Groups(rest, size, separator));
      AppendNothing(Values(lookup, first));
      ValuesOfConcatenation(lookup, first, rest);
      assert text == first + rest;
    }
  }

  // ---------- All together ----------

  /** Encoding, grouping and decoding with the alphabet's own table gives the message back, for every
      message, letter size, unambiguous alphabet, and padding, separator and terminator outside it. */
  lemma DecodingUndoesGroupedEncoding(
    c: Code, caseInsensitive: bool, lookup: seq<int>, size: nat, separator: seq<byte>, terminator: seq<byte>,
    message: seq<byte>)
    requires c.Valid() && |lookup| == 256 && TableOf(lookup, c.alphabet, Pow2(c.bits), caseInsensitive)
    requires Unambiguous(c.alphabet, Pow2(c.bits), caseInsensitive)
    requires NoLetters(lookup, separator) && NoLetters(lookup, terminator)
    requires c.padding == -1 || NoLetters(lookup, [c.padding])
    ensures Decoding(lookup, c.bits, Groups(Encoding(c, message), size, separator) + terminator) == message
  {
    TableInverts(lookup, c.alphabet, Pow2(c.bits), caseInsensitive);
    hide TableOf, Unambiguous, Encoding, Values, Decoding, Inverts, Groups, Pow2;
    var text := Groups(Encoding(c, message), size, separator);
    ValuesOfGroups(lookup, Encoding(c, message), size, separator);
    NoValues(lookup, terminator);
    ValuesOfConcatenation(lookup, text, terminator);
    AppendNothing(Values(lookup, text));
    DecodeEncoding(c, lookup, message, text + terminator);
  }

  /** An encoder attached to a grouper, fed a message piece by piece. */
  method EncodeText(c: Code, size: nat, separator: seq<byte>, terminator: seq<byte>, pieces: seq<seq<byte>>)
    returns (text: seq<byte>)
    requires c.Valid()
    ensures text == Groups(Encoding(c, Flatten(pieces)), size, separator) + terminator
  {
    hide Encoding, Groups, LastGroup, Accounts;
    var encoder := new Encoder(c);
    var grouper := new Grouper(size, separator, terminator);
    text := [];
    for i := 0 to |pieces|
      invariant encoder.Valid() && fresh(encoder) && fresh(encoder.outBuf) && encoder.code == c
      invariant grouper.Valid() && fresh(grouper) && grouper.groupSize == size
      invariant grouper.separator == separator && grouper.terminator == terminator
      invariant encoder.message == Flatten(pieces[..i])
      invariant grouper.text == encoder.written && grouper.written == text
    {
      FlattenPush(pieces, i);
      var letters := encoder.Put(pieces[i], false);
      var grouped := grouper.Put(letters, false);
      text := text + grouped;
    }
    assert pieces[..|pieces|] == pieces;
    AppendNothing(Flatten(pieces));
    var letters := encoder.Put([], true);
    var grouped := grouper.Put(letters, true);
    text := text + grouped;
  }

  /** A decoder fed a text piece by piece. */
  method DecodeText(lookup: seq<int>, bits: nat, pieces: seq<seq<byte>>) returns (message: seq<byte>)
    requires LookupFor(lookup, bits)
    ensures message == Decoding(lookup, bits, Flatten(pieces))
  {
    hide Decoding, Decoded;
    var decoder := new Decoder(lookup, bits);
    message := [];
    for i := 0 to |pieces|
      invariant decoder.Valid() && fresh(decoder) && fresh(decoder.outBuf)
      invariant decoder.lookup == lookup && decoder.bits == bits
      invariant decoder.text == Flatten(pieces[..i]) && decoder.sent == message
    {
      FlattenPush(pieces, i);
      var bytes := decoder.Put(pieces[i], false);
      message := message + bytes;
    }
    assert pieces[..|pieces|] == pieces;
    AppendNothing(Flatten(pieces));
    var bytes := decoder.Put([], true);
    message := message + bytes;
  }

  // ---------- Base64 ----------

  /** The alphabet of section 4 of RFC 4648. */
  function Base64Letter(i: nat): byte
    requires i < 64
  {
    if i < 26 then 65 + i else if i < 52 then 71 + i else if i < 62 then i - 4 else if i == 62 then 43 else 47
  }

  function Base64(): (c: Code)
    ensures c.Valid()
  {
    Pow2Values();
    Code(seq(64, i requires 0 <= i < 64 => Base64Letter(i)), 6, 61)
  }

  /** Base64, without line breaks or with one after any number of letters and at the end, is read back
      with the table made for it. */
  lemma Base64RoundTrip(message: seq<byte>, lookup: seq<int>, lineBreak: seq<byte>, lineLength: nat)
    requires |lookup| == 256 && TableOf(lookup, Base64().alphabet, 64, false)
    requires lineBreak == [] || lineBreak == [10]
    ensures Decoding(lookup, 6, Groups(Encoding(Base64(), message), lineLength, lineBreak) + lineBreak) == message
  {
    Pow2Values();
    assert forall c: byte, i :: 0 <= i < 64 && StandsFor(c, Base64().alphabet[i], false) ==> c == Base64Letter(i);
    assert lookup[10] == -1 && lookup[61] == -1;
    DecodingUndoesGroupedEncoding(Base64(), false, lookup, lineLength, lineBreak, lineBreak, message);
  }
}
