/** The texts of basecode.cpp and base64.cpp in numbers: how many letters and padding characters there are,
    which lines a text is broken into, and every character of Base64 (section 4 of RFC 4648). */
module BaseTexts {
  import opened ByteStrings
  import opened BitMath
  import opened BitStrings
  import opened BaseCodes
  import opened TextCodecs

  // ---------- Letters of either case ----------

  /** Without regard to case a letter stands for itself and for the same letter of the other case, which is
      32 away; every other character, and every character with regard to case, only for itself. */
  lemma CaseIgnored(c: byte, a: byte)
    ensures StandsFor(c, a, false) <==> c == a
    ensures StandsFor(c, a, true) <==>
      c == a || ('A' as int <= a <= 'Z' as int && c == a + 32) || ('a' as int <= a <= 'z' as int && c == a - 32)
  {}

  // ---------- Padding ----------

  /** `count` letters of `n` bits fill whole bytes. */
  predicate WholeBytes(n: nat, count: nat) {
    n * count % 8 == 0
  }

  lemma TimesIs(n: nat, k: nat)
    requires 1 <= n <= 8
    ensures Times(n, k) == n * k
  {}

  lemma WholeBlock(n: nat, count: nat)
    requires 1 <= n <= 7 && count <= BlockLetters(n)
    ensures WholeBytes(n, count) <==> count == 0 || count == BlockLetters(n)
  {
    TimesIs(n, count);
  }

  lemma BlocksMore(n: nat, count: nat)
    requires 1 <= n <= 7 && count >= BlockLetters(n)
    ensures WholeBytes(n, count - BlockLetters(n)) == WholeBytes(n, count)
  {
    TimesIs(n, count);
    TimesIs(n, count - BlockLetters(n));
  }

  lemma {:induction false} MissingFills(n: nat, count: nat, q: nat)
    requires 1 <= n <= 7
    ensures WholeBytes(n, count + Missing(count, BlockLetters(n)))
    ensures q < Missing(count, BlockLetters(n)) ==> !WholeBytes(n, count + q)
    decreases count
  {
    var l := BlockLetters(n);
    if count <= l {
      hide WholeBytes;
      WholeBlock(n, 0);
      WholeBlock(n, l);
      if count + q <= l { WholeBlock(n, count + q); }
    } else {
      hide WholeBytes, Times;
      MissingFills(n, count - l, q);
      BlocksMore(n, count + Missing(count, l));
      BlocksMore(n, count + q);
    }
  }

  /** A text is the letters of digits that spell the message's bits, with less than a digit of zeros
      added, and then the padding characters, as few as fill whole bytes; without a padding character none. */
  lemma EncodingIs(c: Code, message: seq<byte>) returns (digits: seq<byte>, fill: nat, p: nat)
    requires c.Valid()
    ensures fill < c.bits && Expand(digits, c.bits) == Expand(message, 8) + ZeroBits(fill)
    ensures |Encoding(c, message)| == |digits| + p
    ensures forall i :: 0 <= i < |digits| ==>
      digits[i] < |c.alphabet| && Encoding(c, message)[i] == c.alphabet[digits[i]]
    ensures forall i :: |digits| <= i < |digits| + p ==> Encoding(c, message)[i] == c.padding
    ensures c.padding == -1 ==> p == 0
    ensures c.padding != -1 ==>
      WholeBytes(c.bits, |digits| + p) && forall k :: |digits| <= k < |digits| + p ==> !WholeBytes(c.bits, k)
  {
    hide Expand, Digits, Missing, Times, WholeBytes;
    assert BlockLetters(c.bits) > 0;
    digits := Digits(Expand(message, 8), c.bits);
    fill := DigitsSpell(Expand(message, 8), c.bits);
    DigitsInRange(Expand(message, 8), c.bits);
    BelowHasLetters(c, digits);
    p := if c.padding == -1 then 0 else Missing(|digits|, BlockLetters(c.bits));
    MissingFills(c.bits, |digits|, 0);
    forall k | |digits| <= k < |digits| + p ensures !WholeBytes(c.bits, k) {
      MissingFills(c.bits, |digits|, k - |digits|);
    }
  }

  // ---------- Base64 ----------

  /** Table 1 of RFC 4648, eight characters a row. */
  const ALPHABET: seq<string> :=
    ["ABCDEFGH", "IJKLMNOP", "QRSTUVWX", "YZabcdef", "ghijklmn", "opqrstuv", "wxyz0123", "456789+/"]

  lemma AlphabetRows(j: nat, k: nat)
    requires j < 8 && k < 8
    ensures |ALPHABET| == 8 && |ALPHABET[j]| == 8 && ALPHABET[j][k] as int == Base64Letter(8 * j + k)
  {}

  /** The character with the value `i`. */
  function Letter(i: nat): byte
    requires i < 64
  {
    AlphabetRows(i / 8, i % 8);
    ALPHABET[i / 8][i % 8] as int
  }

  /** Every three bytes are four characters; one or two bytes at the end are two or three, and `=`. */
  function Base64Text(message: seq<byte>): seq<byte> {
    if message == [] then []
    else if |message| == 1 then
      [Letter(message[0] / 4), Letter(message[0] % 4 * 16), '=' as int, '=' as int]
    else if |message| == 2 then
      [Letter(message[0] / 4), Letter(message[0] % 4 * 16 + message[1] / 16), Letter(message[1] % 16 * 4), '=' as int]
    else
      [Letter(message[0] / 4), Letter(message[0] % 4 * 16 + message[1] / 16),
       Letter(message[1] % 16 * 4 + message[2] / 64), Letter(message[2] % 64)] + Base64Text(message[3..])
  }

  /** The bits of a number are those of its upper part and those of its lower part. */
  lemma {:induction false} JoinBits(hi: nat, lo: nat, n: nat, k: nat)
    requires lo < Pow2(k)
    ensures ToBits(hi * Pow2(k) + lo, n + k) == ToBits(hi, n) + ToBits(lo, k)
  {
    if k == 0 {
      AppendNothing(ToBits(hi, n));
    } else {
      var v := hi * Pow2(k) + lo;
      Reassociate(hi, 2, Pow2(k - 1));
      assert v / 2 == hi * Pow2(k - 1) + lo / 2 && v % 2 == lo % 2;
      JoinBits(hi, lo / 2, n, k - 1);
      AppendAssociates(ToBits(hi, n), ToBits(lo / 2, k - 1), [lo % 2 == 1]);
    }
  }

  /** A byte in two parts. */
  lemma Cut2(a: byte)
    ensures ToBits(a, 8) == ToBits(a / 4, 6) + ToBits(a % 4, 2)
    ensures a % 4 * 16 + 15 < 64
  {
    Pow2Values();
    hide *;
    JoinBits(a / 4, a % 4, 6, 2);
  }

  lemma Cut4(b: byte)
    ensures ToBits(b, 8) == ToBits(b / 16, 4) + ToBits(b % 16, 4)
  {
    Pow2Values();
    hide *;
    JoinBits(b / 16, b % 16, 4, 4);
  }

  lemma Cut6(c: byte)
    ensures ToBits(c, 8) == ToBits(c / 64, 2) + ToBits(c % 64, 6)
  {
    Pow2Values();
    hide *;
    JoinBits(c / 64, c % 64, 2, 6);
  }

  lemma Join24(x: nat, y: nat)
    requires x < 4 && y < 16
    ensures ToBits(x * 16 + y, 6) == ToBits(x, 2) + ToBits(y, 4)
  {
    Pow2Values();
    hide *;
    JoinBits(x, y, 2, 4);
  }

  lemma Join42(x: nat, y: nat)
    requires x < 16 && y < 4
    ensures ToBits(x * 4 + y, 6) == ToBits(x, 4) + ToBits(y, 2)
  {
    Pow2Values();
    hide *;
    JoinBits(x, y, 4, 2);
  }

  lemma ZeroIs(k: nat)
    ensures ToBits(0, k) == ZeroBits(k)
  {
    AboveBelow(0, k, 0);
    AppendNothing(ZeroBits(k));
  }

  function Quad(a: byte, b: byte, c: byte): seq<byte> {
    [a / 4, a % 4 * 16 + b / 16, b % 16 * 4 + c / 64, c % 64]
  }

  lemma QuadBits(a: byte, b: byte, c: byte)
    ensures AllBelow(Quad(a, b, c), 6) && Expand(Quad(a, b, c), 6) == Expand([a, b, c], 8)
  {
    Pow2Values();
    hide ToBits, Expand, Pow2;
    Cut2(a);
    Cut4(b);
    Cut6(c);
    Join24(a % 4, b / 16);
    Join42(b % 16, c / 64);
    Expand3(a, b, c, 8);
    Expand4(a / 4, a % 4 * 16 + b / 16, b % 16 * 4 + c / 64, c % 64, 6);
  }

  lemma Expand2(a: byte, b: byte, n: nat)
    ensures Expand([a], n) == ToBits(a, n) && Expand([a, b], n) == ToBits(a, n) + ToBits(b, n)
  {
    hide ToBits;
    ExpandFirst(a, [], n);
    assert [a] + [] == [a];
    ExpandNothing(n);
    AppendNothing(ToBits(a, n));
    ExpandPush([a], b, n);
    assert [a] + [b] == [a, b];
  }

  lemma Expand3(a: byte, b: byte, c: byte, n: nat)
    ensures Expand([a, b, c], n) == ToBits(a, n) + ToBits(b, n) + ToBits(c, n)
  {
    Expand2(a, b, n);
    ExpandPush([a, b], c, n);
    assert [a, b] + [c] == [a, b, c];
  }

  lemma Expand4(a: byte, b: byte, c: byte, d: byte, n: nat)
    ensures Expand([a, b, c, d], n) == ToBits(a, n) + ToBits(b, n) + ToBits(c, n) + ToBits(d, n)
  {
    Expand3(a, b, c, n);
    ExpandPush([a, b, c], d, n);
    assert [a, b, c] + [d] == [a, b, c, d];
  }

  lemma OneBits(a: byte)
    ensures AllBelow([a / 4, a % 4 * 16], 6) && Expand([a / 4, a % 4 * 16], 6) == Expand([a], 8) + ZeroBits(4)
  {
    Pow2Values();
    hide ToBits, Expand, Pow2;
    Cut2(a);
    Join24(a % 4, 0);
    ZeroIs(4);
    Expand2(a, 0, 8);
    Expand2(a / 4, a % 4 * 16, 6);
  }

  lemma TwoBits(a: byte, b: byte)
    ensures var digits: seq<byte> := [a / 4, a % 4 * 16 + b / 16, b % 16 * 4];
            AllBelow(digits, 6) && Expand(digits, 6) == Expand([a, b], 8) + ZeroBits(2)
  {
    Pow2Values();
    hide ToBits, Expand, Pow2;
    Cut2(a);
    Cut4(b);
    Join24(a % 4, b / 16);
    Join42(b % 16, 0);
    ZeroIs(2);
    Expand2(a, b, 8);
    Expand3(a / 4, a % 4 * 16 + b / 16, b % 16 * 4, 6);
  }

  /** A text of Base64 from its digits, and the padding `p`. */
  lemma TextIs(message: seq<byte>, digits: seq<byte>, fill: nat, p: nat)
    requires AllBelow(digits, 6) && fill < 6 && Expand(digits, 6) == Expand(message, 8) + ZeroBits(fill)
    requires p == Missing(|digits|, 4)
    ensures HasLetters(Base64().alphabet, digits)
    ensures Encoding(Base64(), message) == Letters(Base64().alphabet, digits) + Repeated<byte>('=' as int, p)
  {
    hide Expand, Digits, Missing, Letters;
    DigitsUnique(digits, Expand(message, 8), 6, fill);
    BelowHasLetters(Base64(), digits);
  }

  lemma LettersOf(digits: seq<byte>)
    requires AllBelow(digits, 6)
    ensures HasLetters(Base64().alphabet, digits)
    ensures Letters(Base64().alphabet, digits)
         == seq(|digits|, i requires 0 <= i < |digits| => assert digits[i] < 64; Letter(digits[i]))
  {
    Pow2Values();
  }

  lemma DigitsMore(digits: seq<byte>, rest: seq<byte>, bits: Bits, more: Bits, n: nat)
    requires 1 <= n <= 8 && AllBelow(digits, n) && Expand(digits, n) == bits && rest == Digits(more, n)
    ensures Digits(bits + more, n) == digits + rest
  {
    var fill := DigitsSpell(more, n);
    DigitsInRange(more, n);
    hide Digits, Expand;
    ExpandConcatenation(digits, rest, n);
    AppendAssociates(bits, more, ZeroBits(fill));
    DigitsUnique(digits + rest, bits + more, n, fill);
  }

  /** Three bytes more are four characters more. */
  lemma ThreeBytes(a: byte, b: byte, c: byte, rest: seq<byte>)
    ensures AllBelow(Quad(a, b, c), 6) && HasLetters(Base64().alphabet, Quad(a, b, c))
    ensures Encoding(Base64(), [a, b, c] + rest)
         == Letters(Base64().alphabet, Quad(a, b, c)) + Encoding(Base64(), rest)
  {
    assert |Quad(a, b, c)| == 4;
    hide Expand, Digits, Letters, Missing, Quad;
    var digits := Digits(Expand(rest, 8), 6);
    QuadBits(a, b, c);
    ExpandConcatenation([a, b, c], rest, 8);
    DigitsMore(Quad(a, b, c), digits, Expand([a, b, c], 8), Expand(rest, 8), 6);
    DigitsInRange(Expand(rest, 8), 6);
    BelowHasLetters(Base64(), Quad(a, b, c));
    BelowHasLetters(Base64(), digits);
    QuadMore(Quad(a, b, c), digits);
    AppendAssociates(Letters(Base64().alphabet, Quad(a, b, c)), Letters(Base64().alphabet, digits),
      Repeated<byte>('=' as int, Missing(|digits|, 4)));
  }

  lemma QuadMore(quad: seq<byte>, digits: seq<byte>)
    requires |quad| == 4 && HasLetters(Base64().alphabet, quad) && HasLetters(Base64().alphabet, digits)
    ensures HasLetters(Base64().alphabet, quad + digits) && Missing(|quad + digits|, 4) == Missing(|digits|, 4)
    ensures Letters(Base64().alphabet, quad + digits)
         == Letters(Base64().alphabet, quad) + Letters(Base64().alphabet, digits)
  {}

  lemma OneByteText(a: byte)
    ensures Encoding(Base64(), [a]) == Base64Text([a])
  {
    var digits: seq<byte> := [a / 4, a % 4 * 16];
    OneBits(a);
    TwoMissing(digits);
    hide *;
    TextIs([a], digits, 4, 2);
    TwoLetters(a / 4, a % 4 * 16);
    TextOfOne(a);
  }

  lemma TextOfOne(a: byte)
    ensures Base64Text([a]) == [Letter(a / 4), Letter(a % 4 * 16)] + Repeated<byte>('=' as int, 2)
  {
    hide Letter;
  }

  lemma TwoLetters(d: byte, e: byte)
    requires AllBelow([d, e], 6)
    ensures d < 64 && e < 64 && HasLetters(Base64().alphabet, [d, e])
    ensures Letters(Base64().alphabet, [d, e]) == [Letter(d), Letter(e)]
  {
    LettersOf([d, e]);
    Pow2Values();
    hide Letters, Base64, HasLetters, Letter;
    assert [d, e][0] == d && [d, e][1] == e;
  }

  lemma TwoByteText(a: byte, b: byte)
    ensures Encoding(Base64(), [a, b]) == Base64Text([a, b])
  {
    var digits: seq<byte> := [a / 4, a % 4 * 16 + b / 16, b % 16 * 4];
    TwoBits(a, b);
    OneMissing(digits);
    hide *;
    TextIs([a, b], digits, 2, 1);
    ThreeLetters(a / 4, a % 4 * 16 + b / 16, b % 16 * 4);
    TextOfTwo(a, b);
  }

  lemma TextOfTwo(a: byte, b: byte)
    ensures Base64Text([a, b])
         == [Letter(a / 4), Letter(a % 4 * 16 + b / 16), Letter(b % 16 * 4)] + Repeated<byte>('=' as int, 1)
  {
    hide Letter;
  }

  lemma ThreeLetters(d: byte, e: byte, f: byte)
    requires AllBelow([d, e, f], 6)
    ensures d < 64 && e < 64 && f < 64 && HasLetters(Base64().alphabet, [d, e, f])
    ensures Letters(Base64().alphabet, [d, e, f]) == [Letter(d), Letter(e), Letter(f)]
  {
    LettersOf([d, e, f]);
    Pow2Values();
    hide Letters, Base64, HasLetters, Letter;
    assert [d, e, f][0] == d && [d, e, f][1] == e && [d, e, f][2] == f;
  }

  lemma TwoMissing(digits: seq<byte>)
    requires |digits| == 2
    ensures Missing(|digits|, 4) == 2
  {}

  lemma OneMissing(digits: seq<byte>)
    requires |digits| == 3
    ensures Missing(|digits|, 4) == 1
  {}

  lemma QuadLetters(a: byte, b: byte, c: byte)
    requires AllBelow(Quad(a, b, c), 6)
    ensures HasLetters(Base64().alphabet, Quad(a, b, c))
    ensures Letters(Base64().alphabet, Quad(a, b, c))
         == [Letter(a / 4), Letter(a % 4 * 16 + b / 16), Letter(b % 16 * 4 + c / 64), Letter(c % 64)]
  {
    hide Letters, Base64, AllBelow, HasLetters, Letter;
    LettersOf(Quad(a, b, c));
  }

  /** The text of every message in Base64, character by character. */
  lemma {:induction false} EncodesBase64(message: seq<byte>)
    ensures Encoding(Base64(), message) == Base64Text(message)
  {
    hide Encoding, Letters, Base64, AllBelow, HasLetters, Letter, Quad;
    if message == [] {
      NothingText();
    } else if |message| == 1 {
      assert message == [message[0]];
      OneByteText(message[0]);
    } else if |message| == 2 {
      assert message == [message[0], message[1]];
      TwoByteText(message[0], message[1]);
    } else {
      assert message == [message[0], message[1], message[2]] + message[3..];
      ThreeBytes(message[0], message[1], message[2], message[3..]);
      QuadLetters(message[0], message[1], message[2]);
      EncodesBase64(message[3..]);
    }
  }

  lemma NothingText()
    ensures Encoding(Base64(), []) == []
  {
    hide Digits;
    ExpandNothing(8);
    TextIs([], [], 0, 0);
  }

  lemma ThirdsStep(n: nat)
    requires n >= 3
    ensures (n + 2) / 3 == (n - 3 + 2) / 3 + 1
  {}

  lemma {:induction false} TextLength(message: seq<byte>)
    ensures |Base64Text(message)| == 4 * ((|message| + 2) / 3)
  {
    hide Letter;
    if |message| > 2 {
      ThirdsStep(|message|);
      TextLength(message[3..]);
      TextStep(message);
    }
  }

  lemma TextStep(message: seq<byte>)
    requires |message| > 2
    ensures |Base64Text(message)| == 4 + |Base64Text(message[3..])|
  {
    hide Letter;
  }

  /** Four characters for every three bytes begun. */
  lemma Base64Length(message: seq<byte>)
    ensures |Encoding(Base64(), message)| == 4 * ((|message| + 2) / 3)
  {
    EncodesBase64(message);
    TextLength(message);
  }

  /** Two of the vectors of section 10 of RFC 4648, "f" and "fo", and the last letters of the alphabet. */
  lemma Base64Vectors()
    ensures Encoding(Base64(), [0x66]) == ['Z' as int, 'g' as int, '=' as int, '=' as int]
    ensures Encoding(Base64(), [0x66, 0x6F]) == ['Z' as int, 'm' as int, '8' as int, '=' as int]
    ensures Encoding(Base64(), [0xFB, 0xEF, 0xFF]) == ['+' as int, '+' as int, '/' as int, '/' as int]
  {
    hide Encoding, Base64, Letter;
    LetterValues();
    EncodesBase64([0x66]);
    EncodesBase64([0x66, 0x6F]);
    ThreeBytes(0xFB, 0xEF, 0xFF, []);
    QuadLetters(0xFB, 0xEF, 0xFF);
    NothingText();
    assert [0xFB, 0xEF, 0xFF] + [] == [0xFB, 0xEF, 0xFF];
  }

  lemma LetterValues()
    ensures Letter(25) == 'Z' as int && Letter(32) == 'g' as int && Letter(38) == 'm' as int
    ensures Letter(60) == '8' as int && Letter(62) == '+' as int && Letter(63) == '/' as int
  {}

  // ---------- Lines ----------

  /** Lines with `separator` between them. */
  function Joined(lines: seq<seq<byte>>, separator: seq<byte>): seq<byte> {
    if lines == [] then [] else if |lines| == 1 then lines[0]
    else lines[0] + separator + Joined(lines[1..], separator)
  }

  /** Lines of `size` characters, and of at least one in the last line. */
  ghost predicate InLines(lines: seq<seq<byte>>, size: nat) {
    && lines != [] && 1 <= |lines[|lines| - 1]| <= size
    && forall i :: 0 <= i < |lines| - 1 ==> |lines[i]| == size
  }

  /** A grouped text is its lines with separators between them only. */
  lemma {:induction false} GroupsAreLines(text: seq<byte>, size: nat, separator: seq<byte>)
    returns (lines: seq<seq<byte>>)
    requires size > 0 && text != []
    ensures InLines(lines, size) && Joined(lines, []) == text
    ensures Groups(text, size, separator) == Joined(lines, separator)
  {
    if |text| <= size {
      lines := [text];
    } else {
      var rest := GroupsAreLines(text[size..], size, separator);
      lines := [text[..size]] + rest;
      assert lines[1..] == rest && |lines| > 1;
      AppendNothing(text[..size]);
      assert text[..size] + text[size..] == text;
    }
  }
}
