/** Adler-32 (adler32.cpp): two sums whose reduction is deferred, in 32-bit words. */
module Adler32 {
  import opened ByteStrings

  const BASE: int := 65521

  /** unsigned long, and the fields' unsigned short. Arithmetic on them must not leave their range. */
  newtype word32 = x: int | 0 <= x < 0x1_0000_0000
  newtype word16 = x: int | 0 <= x < 0x1_0000

  /** Section 2.2 of RFC 1950, reduced after every byte. */
  datatype Sums = Sums(s1: nat, s2: nat)

  ghost function Checksum(data: seq<byte>): (s: Sums)
    ensures s.s1 < BASE && s.s2 < BASE
  {
    if data == [] then Sums(1, 0)
    else
      var before := Checksum(data[..|data| - 1]);
      var s1 := (before.s1 + data[|data| - 1]) % BASE;
      Sums(s1, (before.s2 + s1) % BASE)
  }

  /** Two numbers that differ by a multiple of the base. */
  ghost predicate Congruent(a: int, b: int) {
    a % BASE == b % BASE
  }

  /** The sums of a message so far, not wholly reduced. */
  ghost predicate Represents(s1: int, s2: int, data: seq<byte>) {
    Congruent(s1, Checksum(data).s1) && Congruent(s2, Checksum(data).s2)
  }

  lemma AddByte(s1: int, s2: int, data: seq<byte>, b: byte)
    requires Represents(s1, s2, data)
    ensures Represents(s1 + b, s2 + (s1 + b), data + [b])
  {
    var before := Checksum(data);
    assert (data + [b])[..|data|] == data;
    CongruentSum(s1, before.s1, b, b);
    CongruentSum(s2, before.s2, s1 + b, (before.s1 + b) % BASE);
  }

  lemma CongruentSum(a: int, a': int, b: int, b': int)
    requires Congruent(a, a') && Congruent(b, b')
    ensures Congruent(a + b, a' + b')
  {}

  /** The most that eight bytes add to s2, when s1 is reduced before them. */
  const STEP: int := 8 * (BASE - 1) + 36 * 255

  /** The largest s2 can be with `length` bytes to go since its last reduction: at most 0x8000 bytes have
      been added to it since. */
  ghost predicate Bounded(s1: int, s2: int, length: nat) {
    && 0 <= s1 < BASE && length % 8 == 0 && 0 <= s2
    && (length % 0x8000 == 0 ==> s2 < BASE)
    && s2 < BASE + STEP * ((0x8000 - length % 0x8000) / 8)
  }

  class Adler32 {
    var s1: word16
    var s2: word16
    ghost var message: seq<byte>

    ghost predicate Valid()
      reads this
    {
      s1 as int == Checksum(message).s1 && s2 as int == Checksum(message).s2
    }

    constructor ()
      ensures Valid() && message == []
    {
      s1, s2, message := 1, 0, [];
    }

    method Reset()
      modifies this
      ensures Valid() && message == []
    {
      s1, s2, message := 1, 0, [];
    }

    /** Any part of the message: the bytes beyond a multiple of eight first, then eight at a time. */
    method Update(input: seq<byte>)
      requires Valid()
      modifies this
      ensures Valid() && message == old(message) + input
    {
      hide Represents, Bounded, Checksum;
      var t1: word32, t2: word32, length: nat;
      t1, t2, length := AddFew(s1, s2, input, message);
      while length > 0
        invariant length <= |input| && Bounded(t1 as int, t2 as int, length) && message == old(message)
        invariant Represents(t1 as int, t2 as int, message + input[..|input| - length])
      {
        t1, t2, length := UpdateEight(t1, t2, length, input, message);
      }
      assert input[..|input|] == input;
      ReducedAtEnd(t1 as int, t2 as int);
      Settled(t1 as int, t2 as int, message + input);
      message := message + input;
      s1, s2 := t1 as word16, t2 as word16;
    }

    /** The checksum, most significant byte first, as many bytes of it as are asked for. */
    method TruncatedFinal(size: nat) returns (r: Truncated<byte>)
      requires Valid()
      modifies this
      ensures Valid()
      ensures size > 4 ==> r == InvalidSize && message == old(message)
      ensures size <= 4 ==> r == Digest(ChecksumBytes(old(message))[..size]) && message == []
    {
      if size > 4 {
        return InvalidSize;
      }
      ghost var full := ChecksumBytes(message);
      assert full == [s2 as int / 256, s2 as int % 256, s1 as int / 256, s1 as int % 256];
      var hash: seq<byte> := [0, 0, 0, 0];
      if size == 4 {
        hash := hash[3 := s1 as int % 256];
      }
      if size >= 3 {
        hash := hash[2 := s1 as int / 256];
      }
      if size >= 2 {
        hash := hash[1 := s2 as int % 256];
      }
      if size >= 1 {
        hash := hash[0 := s2 as int / 256];
      }
      assert hash[..size] == full[..size];
      r := Digest(hash[..size]);
      hide ChecksumBytes, Checksum;
      Reset();
    }
  }

  /** s2 and s1, most significant byte first. */
  ghost function ChecksumBytes(data: seq<byte>): (b: seq<byte>)
    ensures |b| == 4
  {
    var s := Checksum(data);
    [s.s2 / 256, s.s2 % 256, s.s1 / 256, s.s1 % 256]
  }

  /** Eight bytes and the reductions that are due after them. */
  method UpdateEight(s1: word32, s2: word32, length: nat, input: seq<byte>, ghost message: seq<byte>)
    returns (t1: word32, t2: word32, length': nat)
    requires 0 < length <= |input| && Bounded(s1 as int, s2 as int, length)
    requires Represents(s1 as int, s2 as int, message + input[..|input| - length])
    ensures length' == length - 8 && Bounded(t1 as int, t2 as int, length')
    ensures Represents(t1 as int, t2 as int, message + input[..|input| - length'])
  {
    StillBounded(s1 as int, s2 as int, length, 0, 0);
    var i := |input| - length;
    t1, t2 := AddEight(s1, s2, input[i..i + 8], length, message + input[..i]);
    AppendSlice(message, input, i, 8);
    length' := length - 8;
    ghost var data := message + input[..i + 8];
    ghost var u2 := t2;
    hide Represents, Bounded, Checksum;
    Reduced(t1 as int, t2 as int, data);
    if t1 >= 65521 {
      t1 := t1 - 65521;
    }
    if length' % 0x8000 == 0 {
      Reduced(t1 as int, t2 as int, data);
      t2 := t2 % 65521;
      BoundedAnew(t1 as int, t2 as int, length');
    } else {
      StillBounded(s1 as int, s2 as int, length, t1 as int, t2 as int);
    }
  }

  /** Bytes until a multiple of eight is left; then both sums are reduced. */
  method AddFew(s1: word16, s2: word16, input: seq<byte>, ghost message: seq<byte>)
    returns (t1: word32, t2: word32, length: nat)
    requires s1 as int == Checksum(message).s1 && s2 as int == Checksum(message).s2
    ensures length <= |input| && Bounded(t1 as int, t2 as int, length)
    ensures Represents(t1 as int, t2 as int, message + input[..|input| - length])
  {
    t1, t2, length := s1 as word32, s2 as word32, |input|;
    AppendNothing(message);
    assert input[..0] == [];
    NothingAdded(message);
    assert t1 as int < BASE && t2 as int < BASE;
    hide Represents, Checksum, Bounded;
    if length % 8 != 0 {
      t1, t2, length := AddUntilAligned(t1, t2, input, message);
      t1, t2 := ReduceBoth(t1, t2, message + input[..|input| - length]);
    }
    BoundedAnew(t1 as int, t2 as int, length);
  }

  method AddUntilAligned(s1: word32, s2: word32, input: seq<byte>, ghost message: seq<byte>)
    returns (t1: word32, t2: word32, length: nat)
    requires s1 as int < BASE && s2 as int < BASE && Represents(s1 as int, s2 as int, message)
    ensures length <= |input| && length % 8 == 0 && t1 as int < 2 * BASE
    ensures Represents(t1 as int, t2 as int, message + input[..|input| - length])
  {
    hide Represents;
    t1, t2, length := s1, s2, |input|;
    AppendNothing(message);
    assert input[..0] == [];
    ghost var few := |input| % 8;
    while length % 8 != 0
      invariant length <= |input| && |input| - length == few - length % 8
      invariant t1 as int < BASE + 255 * (|input| - length)
      invariant t2 as int < BASE + 67400 * (|input| - length)
      invariant Represents(t1 as int, t2 as int, message + input[..|input| - length])
    {
      ghost var i := |input| - length;
      AppendOne(message, input, i);
      t1, t2 := AddOne(t1, t2, input[|input| - length], message + input[..i]);
      length := length - 1;
    }
  }

  method ReduceBoth(s1: word32, s2: word32, ghost data: seq<byte>) returns (t1: word32, t2: word32)
    requires s1 as int < 2 * BASE && Represents(s1 as int, s2 as int, data)
    ensures t1 as int < BASE && t2 as int < BASE && Represents(t1 as int, t2 as int, data)
  {
    hide Represents;
    t1, t2 := s1, s2;
    Reduced(t1 as int, t2 as int, data);
    if t1 >= 65521 {
      t1 := t1 - 65521;
    }
    Reduced(t1 as int, t2 as int, data);
    t2 := t2 % 65521;
  }

  lemma NothingAdded(message: seq<byte>)
    ensures Represents(Checksum(message).s1, Checksum(message).s2, message)
  {}

  /** Eight bytes, without a reduction between them: neither sum leaves its word. */
  method AddEight(s1: word32, s2: word32, b: seq<byte>, length: nat, ghost data: seq<byte>)
    returns (t1: word32, t2: word32)
    requires |b| == 8 && length > 0 && Bounded(s1 as int, s2 as int, length)
    requires Represents(s1 as int, s2 as int, data)
    ensures t1 as int < BASE + 8 * 255 && t2 as int <= s2 as int + STEP
    ensures Represents(t1 as int, t2 as int, data + b)
  {
    RoomForEight(s1 as int, s2 as int, length);
    assert s1 as int < BASE;
    hide Represents, Bounded;
    t1, t2 := AddFour(s1, s2, b[..4], data);
    t1, t2 := AddFour(t1, t2, b[4..], data + b[..4]);
    assert data + b == data + b[..4] + b[4..];
  }

  method AddFour(s1: word32, s2: word32, b: seq<byte>, ghost data: seq<byte>) returns (t1: word32, t2: word32)
    requires |b| == 4 && s1 as int < BASE + 4 * 255 && s2 as int + 4 * s1 as int + 2550 < 0x1_0000_0000
    requires Represents(s1 as int, s2 as int, data)
    ensures t1 as int <= s1 as int + 4 * 255 && t2 as int <= s2 as int + 4 * s1 as int + 2550
    ensures Represents(t1 as int, t2 as int, data + b)
  {
    hide Represents;
    t1, t2 := AddOne(s1, s2, b[0], data);
    t1, t2 := AddOne(t1, t2, b[1], data + [b[0]]);
    t1, t2 := AddOne(t1, t2, b[2], data + [b[0]] + [b[1]]);
    t1, t2 := AddOne(t1, t2, b[3], data + [b[0]] + [b[1]] + [b[2]]);
    assert data + b == data + [b[0]] + [b[1]] + [b[2]] + [b[3]];
  }

  method AddOne(s1: word32, s2: word32, b: byte, ghost data: seq<byte>) returns (t1: word32, t2: word32)
    requires s1 as int + b + s2 as int < 0x1_0000_0000 && Represents(s1 as int, s2 as int, data)
    ensures t1 as int == s1 as int + b && t2 as int == s2 as int + t1 as int
    ensures Represents(t1 as int, t2 as int, data + [b])
  {
    AddByte(s1 as int, s2 as int, data, b);
    t1 := s1 + b as word32;
    t2 := s2 + t1;
  }

  lemma RoomForEight(s1: int, s2: int, length: nat)
    requires Bounded(s1, s2, length) && length > 0
    ensures s2 + STEP < BASE + STEP * 4097 < 0x1_0000_0000
  {
    assert (0x8000 - length % 0x8000) / 8 <= 4096;
  }

  /** After a reduction of both sums, and after eight bytes more. */
  lemma BoundedAnew(s1: int, s2: int, length: nat)
    requires 0 <= s1 < BASE && 0 <= s2 < BASE && length % 8 == 0
    ensures Bounded(s1, s2, length)
  {
    assert (0x8000 - length % 0x8000) / 8 >= 0;
  }

  lemma ReducedAtEnd(s1: int, s2: int)
    requires Bounded(s1, s2, 0)
    ensures 0 <= s1 < BASE && 0 <= s2 < BASE
  {}

  lemma StillBounded(s1: int, s2: int, length: nat, t1: int, t2: int)
    requires Bounded(s1, s2, length) && length > 0 && 0 <= t1 < BASE && 0 <= t2 <= s2 + STEP
    ensures length >= 8 && (length - 8) % 8 == 0
    ensures (length - 8) % 0x8000 != 0 ==> Bounded(t1, t2, length - 8)
  {
    var r := length % 0x8000;
    var k := (0x8000 - r) / 8;
    if r == 0 {
      assert (length - 8) % 0x8000 == 0x8000 - 8;
    } else {
      assert r >= 8 && (length - 8) % 0x8000 == r - 8;
      assert (0x8000 - (r - 8)) / 8 == k + 1;
    }
  }

  /** A reduction, by subtraction or by division, does not change what the sums represent. */
  lemma Reduced(s1: int, s2: int, data: seq<byte>)
    requires Represents(s1, s2, data)
    ensures Represents(s1 - BASE, s2, data) && Represents(s1, s2 % BASE, data)
  {
    hide Checksum;
    hide Congruent;
    LessBase(s1);
    RemainderAgain(s2);
    SameRemainder(s1 - BASE, s1, Checksum(data).s1);
    SameRemainder(s2 % BASE, s2, Checksum(data).s2);
  }

  lemma SameRemainder(a: int, b: int, c: int)
    requires Congruent(a, b) && Congruent(b, c)
    ensures Congruent(a, c)
  {}

  lemma LessBase(a: int)
    ensures Congruent(a - BASE, a)
  {}

  lemma RemainderAgain(a: int)
    ensures Congruent(a % BASE, a)
  {}

  lemma Settled(s1: int, s2: int, data: seq<byte>)
    requires Represents(s1, s2, data) && 0 <= s1 < BASE && 0 <= s2 < BASE
    ensures s1 == Checksum(data).s1 && s2 == Checksum(data).s2
  {
    hide Congruent, Checksum;
    CongruentReduced(s1, Checksum(data).s1);
    CongruentReduced(s2, Checksum(data).s2);
  }

  lemma CongruentReduced(a: nat, b: nat)
    requires Congruent(a, b) && a < BASE && b < BASE
    ensures a == b
  {}

  // ---------- The sums without a recursion ----------

  /** The sum of the bytes. */
  ghost function Total(data: seq<byte>): nat {
    if data == [] then 0 else data[0] + Total(data[1..])
  }

  /** The sum of the bytes, each as often as there are bytes from it on. */
  ghost function Weighted(data: seq<byte>): nat {
    if data == [] then 0 else |data| * data[0] + Weighted(data[1..])
  }

  lemma {:induction false} TotalPush(data: seq<byte>, b: byte)
    ensures Total(data + [b]) == Total(data) + b
  {
    if data == [] {
      assert [b][1..] == [];
    } else {
      assert (data + [b])[1..] == data[1..] + [b];
      TotalPush(data[1..], b);
    }
  }

  lemma {:induction false} WeightedPush(data: seq<byte>, b: byte)
    ensures Weighted(data + [b]) == Weighted(data) + Total(data) + b
  {
    if data == [] {
      assert [b][1..] == [];
    } else {
      assert (data + [b])[1..] == data[1..] + [b];
      WeightedPush(data[1..], b);
      TimesOneMore(|data|, data[0]);
    }
  }

  lemma TimesOneMore(n: nat, b: nat)
    ensures (n + 1) * b == n * b + b
  {}

  lemma {:induction false} SumsRepresent(data: seq<byte>)
    ensures Represents(1 + Total(data), |data| + Weighted(data), data)
  {
    if data != [] {
      var before, b := data[..|data| - 1], data[|data| - 1];
      assert data == before + [b];
      SumsRepresent(before);
      AddByte(1 + Total(before), |before| + Weighted(before), before, b);
      TotalPush(before, b);
      WeightedPush(before, b);
      hide Total, Weighted, Represents;
    }
  }

  /** Section 2.2 of RFC 1950 in one go: s1 is 1 and all bytes, s2 the sum of all values of s1. */
  lemma ChecksumSums(data: seq<byte>)
    ensures Checksum(data) == Sums((1 + Total(data)) % 65521, (|data| + Weighted(data)) % 65521)
  {
    SumsRepresent(data);
    hide Total, Weighted, Checksum;
  }

  /** Nothing has the checksum 00 00 00 01, and "a" 00 62 00 62. */
  lemma ChecksumVectors()
    ensures ChecksumBytes([]) == [0, 0, 0, 1] && ChecksumBytes(['a' as int]) == [0, 0x62, 0, 0x62]
  {
    assert [97][..0] == [];
  }
}
