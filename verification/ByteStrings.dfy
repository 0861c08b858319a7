/** Bytes, and the few things about sequences of them that several components share. */
module ByteStrings {
  type byte = b: int | 0 <= b < 256

  function Min(a: nat, b: nat): nat {
    if a <= b then a else b
  }

  /** The pieces of an input, one after the other. */
  function Flatten<T>(pieces: seq<seq<T>>): seq<T> {
    if pieces == [] then [] else Flatten(pieces[..|pieces| - 1]) + pieces[|pieces| - 1]
  }

  lemma FlattenNothing<T>(pieces: seq<seq<T>>)
    ensures pieces[..0] == [] && Flatten(pieces[..0]) == []
  {}

  lemma FlattenPush<T>(pieces: seq<seq<T>>, i: nat)
    requires i < |pieces|
    ensures Flatten(pieces[..i + 1]) == Flatten(pieces[..i]) + pieces[i]
  {
    assert pieces[..i + 1][..i] == pieces[..i];
  }

  /** What is added at the end does not disturb the front. */
  lemma TakeAndDrop<T>(s: seq<T>, t: seq<T>, n: nat)
    requires n <= |s|
    ensures (s + t)[..n] == s[..n] && (s + t)[n..] == s[n..] + t
  {}

  lemma AppendNothing<T>(s: seq<T>)
    ensures s + [] == s
  {}

  lemma AppendAssociates<T>(s: seq<T>, t: seq<T>, u: seq<T>)
    ensures s + (t + u) == (s + t) + u
  {}

  lemma AppendSlice<T>(s: seq<T>, t: seq<T>, i: nat, n: nat)
    requires i + n <= |t|
    ensures s + t[..i + n] == (s + t[..i]) + t[i..i + n]
  {}

  lemma AppendOne<T>(s: seq<T>, t: seq<T>, i: nat)
    requires i < |t|
    ensures s + t[..i + 1] == (s + t[..i]) + [t[i]]
  {}

  lemma {:induction false} FlattenPrefix<T>(pieces: seq<seq<T>>, i: nat)
    requires i <= |pieces|
    ensures |Flatten(pieces[..i])| <= |Flatten(pieces)|
  {
    if i < |pieces| {
      FlattenPrefix(pieces[..|pieces| - 1], i);
      assert pieces[..|pieces| - 1][..i] == pieces[..i];
    } else {
      assert pieces[..i] == pieces;
    }
  }

  function Repeated<T>(x: T, n: nat): (s: seq<T>)
    ensures |s| == n && forall i :: 0 <= i < n ==> s[i] == x
  {
    seq(n, _ => x)
  }

  /** The lowest `n` bytes of `v`, most significant first. */
  function BigEndian(v: nat, n: nat): (s: seq<byte>)
    ensures |s| == n
  {
    if n == 0 then [] else BigEndian(v / 0x100, n - 1) + [v % 0x100]
  }

  /** A digest cut to the size asked for, or the error for too large a size. */
  datatype Truncated<T> = Digest(value: seq<T>) | InvalidSize
}
