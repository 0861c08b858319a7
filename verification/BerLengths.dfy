/** Byte queues, and the length octets of BER and DER (asn.cpp). */
module BerLengths {
  import opened ByteStrings

  class ByteQueue {
    var contents: seq<byte>

    constructor ()
      ensures contents == []
    {
      contents := [];
    }

    method Put(bytes: seq<byte>)
      modifies this
      ensures contents == old(contents) + bytes
    {
      contents := contents + bytes;
    }

    /** As many bytes as there are, up to `count`, to the end of another queue. */
    method TransferTo(target: ByteQueue, count: nat) returns (n: nat)
      requires target != this
      modifies this, target
      ensures n == Min(count, |old(contents)|)
      ensures contents == old(contents)[n..] && target.contents == old(target.contents) + old(contents)[..n]
    {
      n := Min(count, |contents|);
      target.contents := target.contents + contents[..n];
      contents := contents[n..];
    }
  }

  // ---------- Reading through decoders ----------

  /** A decoder that is open: how much of a definite length is left, or that there is none. */
  datatype Level = Bounded(left: nat) | Unbounded

  /** How much of `n` bytes the open decoders let through. */
  function Limit(levels: seq<Level>, n: nat): (m: nat)
    ensures m <= n
  {
    if levels == [] then n
    else
      var m := Limit(levels[..|levels| - 1], n);
      match levels[|levels| - 1]
      case Bounded(left) => Min(left, m)
      case Unbounded => m
  }

  function Lowered(level: Level, k: nat): Level {
    match level
    case Bounded(left) => Bounded(if left >= k then left - k else 0)
    case Unbounded => Unbounded
  }

  /** Reading reduces what is left at every level. */
  function Reduced(levels: seq<Level>, k: nat): (r: seq<Level>)
    ensures |r| == |levels|
  {
    seq(|levels|, i requires 0 <= i < |levels| => Lowered(levels[i], k))
  }

  lemma {:induction false} LimitReduced(levels: seq<Level>, n: nat, k: nat)
    requires k <= Limit(levels, n)
    ensures Limit(Reduced(levels, k), n - k) == Limit(levels, n) - k
  {
    if levels != [] {
      var init := levels[..|levels| - 1];
      LimitReduced(init, n, k);
      assert Reduced(levels, k)[..|levels| - 1] == Reduced(init, k);
    }
  }

  lemma ReducedTwice(levels: seq<Level>, j: nat, k: nat)
    ensures Reduced(Reduced(levels, j), k) == Reduced(levels, j + k)
  {}

  lemma ReducedPush(levels: seq<Level>, level: Level, k: nat)
    ensures Reduced(levels + [level], k) == Reduced(levels, k) + [Lowered(level, k)]
  {}

  lemma LimitPush(levels: seq<Level>, level: Level, n: nat)
    ensures Limit(levels + [level], n)
         == match level { case Bounded(left) => Min(left, Limit(levels, n)) case Unbounded => Limit(levels, n) }
  {
    assert (levels + [level])[..|levels|] == levels;
  }

  lemma ReducedNothing(levels: seq<Level>)
    ensures Reduced(levels, 0) == levels
  {}

  /** A queue that is read through the decoders open on it, the innermost last. */
  class Source {
    var contents: seq<byte>
    var levels: seq<Level>

    constructor (contents: seq<byte>)
      ensures this.contents == contents && levels == []
    {
      this.contents, levels := contents, [];
    }

    /** What the innermost decoder can read. */
    function Window(): seq<byte>
      reads this
    {
      contents[..Limit(levels, |contents|)]
    }

    /** `k` bytes have been read since the contents and levels were these. */
    ghost predicate Advanced(contents0: seq<byte>, levels0: seq<Level>, k: nat)
      reads this
    {
      k <= Limit(levels0, |contents0|) && contents == contents0[k..] && levels == Reduced(levels0, k)
    }

    /** The next bytes, taken at every level. */
    method Take(k: nat) returns (bytes: seq<byte>)
      requires k <= |Window()|
      modifies this
      ensures bytes == old(Window())[..k] && Window() == old(Window())[k..]
      ensures Advanced(old(contents), old(levels), k)
    {
      LimitReduced(levels, |contents|, k);
      bytes := contents[..k];
      contents := contents[k..];
      levels := Reduced(levels, k);
    }

    method Get() returns (ok: bool, b: byte)
      modifies this
      ensures ok == (old(Window()) != [])
      ensures ok ==> b == old(Window())[0] && Window() == old(Window())[1..]
      ensures ok ==> Advanced(old(contents), old(levels), 1)
      ensures !ok ==> contents == old(contents) && levels == old(levels)
    {
      ok, b := Window() != [], 0;
      if ok {
        var bytes := Take(1);
        b := bytes[0];
      }
    }
  }

  // ---------- Length octets ----------

  /** The number of significant bytes. */
  function BytePrecision(v: nat): nat {
    if v == 0 then 0 else 1 + BytePrecision(v / 0x100)
  }

  /** v >> 8k */
  function ShiftBytes(v: nat, k: nat): nat {
    if k == 0 then v else ShiftBytes(v / 0x100, k - 1)
  }

  /** Lengths are 64-bit words. */
  const LWORD_LIMIT: nat := 0x1_0000_0000_0000_0000
  const TOP_BYTE: nat := 0x100_0000_0000_0000

  lemma PrecisionOfWord(v: nat)
    requires v < LWORD_LIMIT
    ensures BytePrecision(v) <= 8
  {
    PrecisionBelow(v, 8, [LWORD_LIMIT, TOP_BYTE, 0x1_0000_0000_0000, 0x100_0000_0000, 0x1_0000_0000,
                          0x100_0000, 0x1_0000, 0x100, 1]);
  }

  /** `limits` are the powers of 0x100 downwards. */
  lemma {:induction false} PrecisionBelow(v: nat, n: nat, limits: seq<nat>)
    requires |limits| == n + 1 && limits[n] == 1 && v < limits[0]
    requires forall i :: 0 <= i < n ==> limits[i] == 0x100 * limits[i + 1]
    ensures BytePrecision(v) <= n
  {
    if n > 0 {
      assert v / 0x100 < limits[1];
      PrecisionBelow(v / 0x100, n - 1, limits[1..]);
    }
  }

  /** Section 8.1.3 of X.690: the definite form, in one octet or behind the number of octets, of a
      length in a 64-bit word. */
  function LengthOctets(size: nat): (s: seq<byte>)
    ensures 1 <= |s| <= 9 && (size <= 0x7f ==> |s| == 1)
  {
    var length := size % LWORD_LIMIT;
    if length <= 0x7f then [length]
    else
      PrecisionOfWord(length);
      [0x80 + BytePrecision(length)] + BigEndian(length, BytePrecision(length))
  }

  lemma {:induction false} ShiftStep(v: nat, k: nat)
    ensures ShiftBytes(v, k) / 0x100 == ShiftBytes(v, k + 1)
  {
    if k > 0 { ShiftStep(v / 0x100, k - 1); }
  }

  lemma OctetsOfWord(length: nat)
    requires length < LWORD_LIMIT && BytePrecision(length) <= 8
    ensures LengthOctets(length) == if length <= 0x7f then [length] else
              [0x80 + BytePrecision(length)] + BigEndian(length, BytePrecision(length))
  {}

  method DERLengthEncode(bt: ByteQueue, length: nat) returns (i: nat)
    requires length < LWORD_LIMIT
    modifies bt
    ensures bt.contents == old(bt.contents) + LengthOctets(length) && i == |LengthOctets(length)|
  {
    i := 0;
    PrecisionOfWord(length);
    OctetsOfWord(length);
    hide LengthOctets;
    if length <= 0x7f {
      bt.Put([length]);
      i := i + 1;
    } else {
      var n := BytePrecision(length);
      bt.Put([0x80 + n]);
      i := i + 1;
      ghost var before := bt.contents;
      i := PutBigEndian(bt, length, n, i);
      AppendAssociates(old(bt.contents), [0x80 + n], BigEndian(length, n));
    }
  }

  /** The `n` bytes of `length`, most significant first. */
  method PutBigEndian(bt: ByteQueue, length: nat, n: nat, i: nat) returns (i': nat)
    requires BytePrecision(length) <= n
    modifies bt
    ensures bt.contents == old(bt.contents) + BigEndian(length, n) && i' == i + n
  {
    i' := i;
    var j: nat := n;
    ghost var before := bt.contents;
    AppendNothing(before);
    assert ShiftBytes(length, 0) == length;
    hide ShiftBytes;
    while j > 0
      invariant j <= n && i' == i + n - j
      invariant bt.contents == before + BigEndian(ShiftBytes(length, j), n - j)
    {
      ShiftStep(length, j - 1);
      bt.Put([ShiftBytes(length, j - 1) % 0x100]);
      AppendAssociates(before, BigEndian(ShiftBytes(length, j), n - j), [ShiftBytes(length, j - 1) % 0x100]);
      i' := i' + 1;
      j := j - 1;
    }
  }

  // ---------- Reading ----------

  /** What length octets at the front of `s` say, and what is behind them. */
  datatype Length = Definite(length: nat, rest: seq<byte>) | Indefinite(rest: seq<byte>) | Truncated | Overflow

  function ReadLength(s: seq<byte>): (r: Length)
    ensures r.Definite? ==> r.length < LWORD_LIMIT
    ensures r.Definite? || r.Indefinite? ==> |r.rest| < |s|
  {
    if s == [] then Truncated
    else if s[0] < 0x80 then Definite(s[0], s[1..])
    else if s[0] == 0x80 then Indefinite(s[1..])
    else ReadOctets(s[1..], s[0] - 0x80, 0)
  }

  function ReadOctets(s: seq<byte>, count: nat, length: nat): (r: Length)
    requires length < LWORD_LIMIT
    ensures r.Definite? ==> r.length < LWORD_LIMIT && |r.rest| <= |s|
    ensures !r.Indefinite?
    decreases count
  {
    if count == 0 then Definite(length, s)
    else if length >= TOP_BYTE then Overflow
    else if s == [] then Truncated
    else ReadOctets(s[1..], count - 1, length * 0x100 + s[0])
  }

  /** Reads length octets. */
  method BERLengthDecode(bt: Source) returns (r: Length)
    modifies bt
    ensures r == ReadLength(old(bt.Window()))
    ensures r.Definite? || r.Indefinite? ==>
      bt.Window() == r.rest && |r.rest| <= |old(bt.Window())|
      && bt.Advanced(old(bt.contents), old(bt.levels), |old(bt.Window())| - |r.rest|)
  {
    var ok, b := bt.Get();
    if !ok {
      return Truncated;
    }
    if b < 0x80 {
      return Definite(b, bt.Window());
    }
    var lengthBytes: nat := b - 0x80;
    if lengthBytes == 0 {
      return Indefinite(bt.Window());
    }
    var length: nat := 0;
    ghost var s := bt.Window();
    ghost var k: nat := 1;
    while lengthBytes > 0
      invariant length < LWORD_LIMIT && ReadOctets(bt.Window(), lengthBytes, length) == ReadOctets(s, b - 0x80, 0)
      invariant |bt.Window()| == |old(bt.Window())| - k && bt.Advanced(old(bt.contents), old(bt.levels), k)
    {
      hide Limit, Reduced;
      if length >= TOP_BYTE {
        return Overflow;
      }
      ReducedTwice(old(bt.levels), k, 1);
      var more, c := bt.Get();
      if !more {
        return Truncated;
      }
      length := length * 0x100 + c;
      lengthBytes := lengthBytes - 1;
      k := k + 1;
    }
    r := Definite(length, bt.Window());
  }

  /** The octets of a word are read back as that word. */
  lemma {:induction false} ReadBigEndian(v: nat, n: nat, count: nat, more: seq<byte>)
    requires v < LWORD_LIMIT && BytePrecision(v) <= n
    ensures ReadOctets(BigEndian(v, n) + more, n + count, 0) == ReadOctets(more, count, v)
  {
    if n == 0 {
      assert [] + more == more;
    } else {
      var last: byte := v % 0x100;
      ReadBigEndian(v / 0x100, n - 1, count + 1, [last] + more);
      AppendAssociates(BigEndian(v / 0x100, n - 1), [last], more);
      assert ([last] + more)[1..] == more;
    }
  }

  lemma LengthRoundTrip(length: nat, more: seq<byte>)
    requires length < LWORD_LIMIT
    ensures ReadLength(LengthOctets(length) + more) == Definite(length, more)
  {
    PrecisionOfWord(length);
    OctetsOfWord(length);
    hide LengthOctets;
    var s := LengthOctets(length) + more;
    if length <= 0x7f {
      assert s[1..] == more;
    } else {
      var n := BytePrecision(length);
      assert s[1..] == BigEndian(length, n) + more;
      ReadBigEndian(length, n, 0, more);
    }
  }
}
