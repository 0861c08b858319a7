/** Block chaining: the register that a block cipher and exclusive or fold a byte stream into, block by
    block (cryptlib.cpp, AdvancedProcessBlocks as the message authenticators call it). */
module BlockChaining {
  import opened ByteStrings

  type Octets = seq<bv8>

  /** The forward direction of a block cipher under its key. */
  datatype BlockCipher = BlockCipher(size: nat, encrypt: Octets -> Octets) {
    ghost predicate Valid() {
      size >= 1 && forall x :: |x| == size ==> |encrypt(x)| == size
    }

    function Encrypt(block: Octets): (r: Octets)
      requires Valid() && |block| == size
      ensures |r| == size
    {
      encrypt(block)
    }
  }

  function Zeros(n: nat): (z: Octets)
    ensures |z| == n && forall i :: 0 <= i < n ==> z[i] == 0
  {
    Repeated(0, n)
  }

  function Xor(a: Octets, b: Octets): (x: Octets)
    requires |a| == |b|
    ensures |x| == |a| && forall i :: 0 <= i < |a| ==> x[i] == a[i] ^ b[i]
  {
    seq(|a|, i requires 0 <= i < |a| => a[i] ^ b[i])
  }

  /** The state after the whole blocks of `data`: X' = E(X xor block), one block after the other. */
  ghost function Chain(c: BlockCipher, state: Octets, data: Octets): (r: Octets)
    requires c.Valid() && |state| == c.size
    ensures |r| == c.size
    decreases |data|
  {
    if |data| < c.size then state
    else Chain(c, c.Encrypt(Xor(state, data[..c.size])), data[c.size..])
  }

  /** What is left of `length` bytes after the whole blocks. */
  function LeftOver(length: nat, size: nat): (r: nat)
    requires size >= 1
    ensures r < size && r <= length
  {
    if length < size then length else LeftOver(length - size, size)
  }

  /** A stream so far: the state after all blocks that more than `keep` bytes follow or begin, and the
      bytes not yet chained. With keep == size - 1 a full block is chained at once, with keep == size
      it waits until there is more. */
  ghost function Absorbed(c: BlockCipher, keep: nat, state: Octets, data: Octets): (r: (Octets, Octets))
    requires c.Valid() && |state| == c.size && keep + 1 >= c.size
    ensures |r.0| == c.size && |r.1| <= keep && |r.1| <= |data|
    decreases |data|
  {
    if |data| <= keep then (state, data)
    else Absorbed(c, keep, c.Encrypt(Xor(state, data[..c.size])), data[c.size..])
  }

  /** A stream can be absorbed in pieces. */
  lemma {:induction false} AbsorbMore(c: BlockCipher, keep: nat, state: Octets, data: Octets, more: Octets)
    requires c.Valid() && |state| == c.size && keep + 1 >= c.size
    ensures var (state', tail) := Absorbed(c, keep, state, data);
            Absorbed(c, keep, state, data + more) == Absorbed(c, keep, state', tail + more)
    decreases |data|
  {
    if |data| > keep {
      TakeAndDrop(data, more, c.size);
      AbsorbMore(c, keep, c.Encrypt(Xor(state, data[..c.size])), data[c.size..], more);
    }
  }

  /** Chaining the whole blocks at the front, while enough is left to keep. */
  lemma {:induction false} AbsorbBlocks(c: BlockCipher, keep: nat, state: Octets, data: Octets, blocks: nat)
    requires c.Valid() && |state| == c.size && keep + 1 >= c.size && blocks <= |data|
    requires LeftOver(blocks, c.size) == 0 && (blocks > 0 ==> |data| - blocks + c.size > keep)
    ensures Absorbed(c, keep, state, data) == Absorbed(c, keep, Chain(c, state, data[..blocks]), data[blocks..])
    decreases blocks
  {
    if blocks == 0 {
      assert data[0..] == data;
    } else {
      var n := c.size;
      var state' := c.Encrypt(Xor(state, data[..n]));
      AbsorbBlocks(c, keep, state', data[n..], blocks - n);
      assert data[..blocks][..n] == data[..n];
      assert data[..blocks][n..] == data[n..][..blocks - n];
      assert data[n..][blocks - n..] == data[blocks..];
    }
  }

  lemma {:induction false} ChainConcatenation(c: BlockCipher, state: Octets, a: Octets, b: Octets)
    requires c.Valid() && |state| == c.size && LeftOver(|a|, c.size) == 0
    ensures Chain(c, state, a + b) == Chain(c, Chain(c, state, a), b)
    decreases |a|
  {
    if a == [] {
      assert [] + b == b;
    } else {
      TakeAndDrop(a, b, c.size);
      ChainConcatenation(c, c.Encrypt(Xor(state, a[..c.size])), a[c.size..], b);
    }
  }

  /** Zeros up to a whole number of blocks. */
  ghost function Padded(data: Octets, size: nat): Octets
    requires size >= 1
  {
    var left := LeftOver(|data|, size);
    if left == 0 then data else data + Zeros(size - left)
  }

  lemma {:induction false} LeftOverPadded(length: nat, size: nat)
    requires size >= 1 && LeftOver(length, size) > 0
    ensures LeftOver(length + size - LeftOver(length, size), size) == 0
  {
    if length >= size { LeftOverPadded(length - size, size); }
  }

  lemma PaddedLength(data: Octets, size: nat)
    requires size >= 1
    ensures LeftOver(|Padded(data, size)|, size) == 0
  {
    if LeftOver(|data|, size) > 0 { LeftOverPadded(|data|, size); }
  }

  /** The end of a stream whose last block is filled up with zeros. */
  ghost function Closed(c: BlockCipher, r: (Octets, Octets)): (s: Octets)
    requires c.Valid() && |r.0| == c.size && |r.1| < c.size
    ensures |s| == c.size
  {
    if r.1 == [] then r.0 else c.Encrypt(Xor(r.0, r.1 + Zeros(c.size - |r.1|)))
  }

  /** It is the chain of the padded stream. */
  lemma {:induction false} ClosedIsChain(c: BlockCipher, state: Octets, data: Octets)
    requires c.Valid() && |state| == c.size
    ensures Closed(c, Absorbed(c, c.size - 1, state, data)) == Chain(c, state, Padded(data, c.size))
    decreases |data|
  {
    var n := c.size;
    if |data| < n {
      if data != [] {
        var block := data + Zeros(n - |data|);
        assert block[..n] == block && block[n..] == [];
      }
    } else {
      ClosedIsChain(c, c.Encrypt(Xor(state, data[..n])), data[n..]);
      assert Padded(data, n)[..n] == data[..n];
      assert Padded(data, n)[n..] == Padded(data[n..], n);
    }
  }

  /** What a[at..] ^= data does. */
  ghost predicate XoredInto(a: Octets, a': Octets, at: nat, data: Octets) {
    && |a'| == |a| && at + |data| <= |a|
    && (forall k :: 0 <= k < |a| ==> a'[k] == if at <= k < at + |data| then a[k] ^ data[k - at] else a[k])
  }

  lemma XoredSlices(a: Octets, a': Octets, at: nat, data: Octets)
    requires XoredInto(a, a', at, data)
    ensures a'[at..at + |data|] == Xor(a[at..at + |data|], data)
    ensures a'[..at] == a[..at] && a'[at + |data|..] == a[at + |data|..]
  {}

  method XorInto(a: array<bv8>, at: nat, data: Octets)
    requires at + |data| <= a.Length
    modifies a
    ensures XoredInto(old(a[..]), a[..], at, data)
  {
    for i := 0 to |data|
      invariant forall k :: at <= k < at + i ==> a[k] == old(a[k]) ^ data[k - at]
      invariant forall k :: 0 <= k < a.Length && !(at <= k < at + i) ==> a[k] == old(a[k])
    {
      a[at + i] := a[at + i] ^ data[i];
    }
  }

  /** The register's block through the cipher. */
  method ProcessBlock(c: BlockCipher, a: array<bv8>, at: nat)
    requires c.Valid() && at + c.size <= a.Length
    modifies a
    ensures a[at..at + c.size] == c.Encrypt(old(a[at..at + c.size]))
    ensures a[..at] == old(a[..at]) && a[at + c.size..] == old(a[at + c.size..])
  {
    var out := c.Encrypt(a[at..at + c.size]);
    forall i | 0 <= i < c.size {
      a[at + i] := out[i];
    }
  }

  method XorBlock(a: array<bv8>, at: nat, data: Octets)
    requires at + |data| <= a.Length
    modifies a
    ensures a[at..at + |data|] == Xor(old(a[at..at + |data|]), data)
    ensures a[..at] == old(a[..at]) && a[at + |data|..] == old(a[at + |data|..])
  {
    ghost var was := a[..];
    XorInto(a, at, data);
    XoredSlices(was, a[..], at, data);
    hide Xor, XoredInto;
    assert a[at..at + |data|] == a[..][at..at + |data|] && a[..at] == a[..][..at];
    assert old(a[at..at + |data|]) == was[at..at + |data|] && old(a[..at]) == was[..at];
    assert a[at + |data|..] == a[..][at + |data|..] && old(a[at + |data|..]) == was[at + |data|..];
  }

  /** One block exclusive-or-ed in, and the register through the cipher. */
  method ProcessXored(c: BlockCipher, a: array<bv8>, at: nat, block: Octets)
    requires c.Valid() && |block| == c.size && at + c.size <= a.Length
    modifies a
    ensures a[at..at + c.size] == c.Encrypt(Xor(old(a[at..at + c.size]), block))
    ensures a[..at] == old(a[..at]) && a[at + c.size..] == old(a[at + c.size..])
  {
    hide *;
    XorBlock(a, at, block);
    ProcessBlock(c, a, at);
  }

  /** AdvancedProcessBlocks with the register as input and output, not advancing in it, and the data
      exclusive-or-ed in before each block. Returns the number of bytes left over. */
  method AdvancedProcessBlocks(c: BlockCipher, a: array<bv8>, at: nat, data: Octets, length: nat)
    returns (left: nat)
    requires c.Valid() && at + c.size <= a.Length && length <= |data|
    modifies a
    ensures left == LeftOver(length, c.size)
    ensures a[at..at + c.size] == Chain(c, old(a[at..at + c.size]), data[..length - left])
    ensures a[..at] == old(a[..at]) && a[at + c.size..] == old(a[at + c.size..])
    ensures LeftOver(length - left, c.size) == 0
  {
    left := length;
    ChainStarts(c, a[at..at + c.size], data);
    hide *;
    LeftOverStep(left, c.size);
    while left >= c.size
      invariant left <= length && LeftOver(length - left, c.size) == 0
      invariant LeftOver(left, c.size) == LeftOver(length, c.size)
      invariant a[at..at + c.size] == Chain(c, old(a[at..at + c.size]), data[..length - left])
      invariant a[..at] == old(a[..at]) && a[at + c.size..] == old(a[at + c.size..])
    {
      var done: nat := length - left;
      ProcessXored(c, a, at, data[done..done + c.size]);
      ChainBlock(c, old(a[at..at + c.size]), data, done);
      left := left - c.size;
      LeftOverStep(left, c.size);
    }
  }

  lemma ChainStarts(c: BlockCipher, state: Octets, data: Octets)
    requires c.Valid() && |state| == c.size
    ensures c.size >= 1 && Chain(c, state, data[..0]) == state && LeftOver(0, c.size) == 0
  {}

  lemma LeftOverStep(length: nat, size: nat)
    requires size >= 1
    ensures LeftOver(length, size) == if length < size then length else LeftOver(length - size, size)
  {}

  /** One block more. */
  lemma ChainBlock(c: BlockCipher, state: Octets, data: Octets, done: nat)
    requires c.Valid() && |state| == c.size && done + c.size <= |data| && LeftOver(done, c.size) == 0
    ensures LeftOver(done + c.size, c.size) == 0
    ensures Chain(c, state, data[..done + c.size])
         == c.Encrypt(Xor(Chain(c, state, data[..done]), data[done..done + c.size]))
  {
    var block := data[done..done + c.size];
    ChainConcatenation(c, state, data[..done], block);
    assert data[..done + c.size] == data[..done] + block;
    assert block[..c.size] == block && block[c.size..] == [];
    LeftOverSum(done, c.size);
  }

  lemma {:induction false} LeftOverSum(length: nat, size: nat)
    requires size >= 1
    ensures LeftOver(length + size, size) == LeftOver(length, size)
  {}

  lemma OneBlock(c: BlockCipher, state: Octets, block: Octets)
    requires c.Valid() && |state| == |block| == c.size
    ensures Chain(c, state, block) == c.Encrypt(Xor(state, block)) && LeftOver(c.size, c.size) == 0
  {
    assert block[..c.size] == block && block[c.size..] == [];
  }

  lemma XorAssociates(a: Octets, b: Octets, d: Octets)
    requires |a| == |b| == |d|
    ensures Xor(Xor(a, b), d) == Xor(a, Xor(b, d))
  {}

  /** The first `n` octets of `a` are the state with `tail` folded in. */
  ghost predicate Folded(a: Octets, n: nat, state: Octets, tail: Octets) {
    && n <= |a| && |state| == n && |tail| <= n
    && (forall k :: 0 <= k < n ==> a[k] == if k < |tail| then state[k] ^ tail[k] else state[k])
  }

  /** A register without anything folded in. */
  lemma FoldNothing(a: Octets, n: nat, state: Octets)
    requires n <= |a| && |state| == n
    ensures Folded(a, n, state, []) <==> a[..n] == state
  {
    assert forall k :: 0 <= k < n ==> a[..n][k] == a[k];
  }

  lemma FoldBlock(a: Octets, n: nat, state: Octets, tail: Octets)
    requires Folded(a, n, state, tail)
    ensures a[..n] == Xor(state, tail + Zeros(n - |tail|))
    ensures |tail| == n ==> a[..n] == Xor(state, tail)
  {
    var t := tail + Zeros(n - |tail|);
    forall k | 0 <= k < n ensures a[k] == state[k] ^ t[k] {
      XorZero(state[k]);
    }
  }

  lemma XorZero(b: bv8)
    ensures b ^ 0 == b
  {}

  /** Folding in the next octets. */
  lemma FoldMore(a: Octets, a': Octets, n: nat, state: Octets, tail: Octets, x: Octets)
    requires Folded(a, n, state, tail) && |tail| + |x| <= n && XoredInto(a, a', |tail|, x)
    ensures Folded(a', n, state, tail + x) && a'[n..] == a[n..]
  {
    var t := tail + x;
    forall k | 0 <= k < n ensures a'[k] == if k < |t| then state[k] ^ t[k] else state[k] {
    }
  }

  lemma FoldOne(a: Octets, a': Octets, n: nat, state: Octets, tail: Octets, b: bv8)
    requires Folded(a, n, state, tail) && |tail| < n && a' == a[|tail| := a[|tail|] ^ b]
    ensures Folded(a', n, state, tail + [b]) && a'[n..] == a[n..]
  {
    assert XoredInto(a, a', |tail|, [b]);
    FoldMore(a, a', n, state, tail, [b]);
  }
}
