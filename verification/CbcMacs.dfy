/** CBC-MAC (cbcmac.cpp): the chain of the message, its last block filled up with zeros. */
module CbcMacs {
  import opened ByteStrings
  import opened BlockChaining

  ghost function Mac(c: BlockCipher, message: Octets): (r: Octets)
    requires c.Valid()
    ensures |r| == c.size
  {
    Chain(c, Zeros(c.size), Padded(message, c.size))
  }

  class CbcMac {
    const cipher: BlockCipher
    const reg: array<bv8>
    var counter: nat
    /** The message so far, the chaining value, and the octets folded into the register since. */
    ghost var message: Octets
    ghost var state: Octets
    ghost var tail: Octets

    ghost predicate Keyed()
      reads this, reg
    {
      && cipher.Valid() && reg.Length == cipher.size
      && Folded(reg[..], cipher.size, state, tail) && counter == |tail| < cipher.size
    }

    ghost predicate Valid()
      reads this, reg
    {
      Keyed() && Absorbed(cipher, cipher.size - 1, Zeros(cipher.size), message) == (state, tail)
    }

    constructor (cipher: BlockCipher)
      requires cipher.Valid()
      ensures Valid() && fresh(reg) && this.cipher == cipher && message == []
    {
      this.cipher := cipher;
      reg := new bv8[cipher.size](_ => 0);
      counter := 0;
      message, state, tail := [], Zeros(cipher.size), [];
      new;
      assert reg[..][..cipher.size] == Zeros(cipher.size);
      FoldNothing(reg[..], cipher.size, state);
    }

    /** The block in the register through the cipher. */
    method ProcessBuf()
      requires cipher.Valid() && reg.Length == cipher.size
      modifies this`counter, reg
      ensures reg[..] == cipher.Encrypt(old(reg[..])) && counter == 0
    {
      assert reg[..] == reg[0..cipher.size];
      ProcessBlock(cipher, reg, 0);
      assert reg[..] == reg[0..cipher.size];
      counter := 0;
    }

    /** One octet, which may complete a block. */
    method PutOctet(b: bv8)
      requires Keyed()
      modifies this`counter, this`state, this`tail, reg
      ensures Keyed() && counter == if old(counter) + 1 == cipher.size then 0 else old(counter) + 1
      ensures forall more {:trigger tail + more} ::
        Absorbed(cipher, cipher.size - 1, state, tail + more)
          == Absorbed(cipher, cipher.size - 1, old(state), old(tail) + ([b] + more))
    {
      ghost var was := reg[..];
      ghost var full := tail + [b];
      reg[counter] := reg[counter] ^ b;
      FoldOne(was, reg[..], cipher.size, state, tail, b);
      counter := counter + 1;
      hide Xor, Folded;
      if counter == cipher.size {
        FullBlock(reg[..], cipher, state, full);
        ProcessBuf();
        state, tail := cipher.Encrypt(Xor(state, full)), [];
        FoldNothing(reg[..], cipher.size, state);
        assert reg[..][..cipher.size] == reg[..];
      } else {
        tail := full;
      }
      forall more {:trigger tail + more}
        ensures Absorbed(cipher, cipher.size - 1, state, tail + more)
             == Absorbed(cipher, cipher.size - 1, old(state), old(tail) + ([b] + more))
      {
        assert old(tail) + ([b] + more) == full + more;
        if counter == 0 {
          assert (full + more)[..cipher.size] == full && (full + more)[cipher.size..] == [] + more;
        }
      }
    }

    /** Octets one at a time: until a block is complete, or all of them. */
    method PutOctets(input: Octets, untilFull: bool) returns (left: nat)
      requires Keyed() && (!untilFull ==> counter + |input| < cipher.size)
      modifies this`counter, this`state, this`tail, reg
      ensures Keyed() && left <= |input|
      ensures if untilFull then counter == 0 || left == 0 else left == 0
      ensures Absorbed(cipher, cipher.size - 1, state, tail + input[|input| - left..])
           == Absorbed(cipher, cipher.size - 1, old(state), old(tail) + input)
    {
      left := |input|;
      assert input[0..] == input;
      while (!untilFull || counter > 0) && left > 0
        invariant Keyed() && left <= |input|
        invariant !untilFull ==> counter + left < cipher.size
        invariant Absorbed(cipher, cipher.size - 1, state, tail + input[|input| - left..])
               == Absorbed(cipher, cipher.size - 1, old(state), old(tail) + input)
      {
        hide Absorbed, Folded, Xor;
        ghost var more := input[|input| - left + 1..];
        assert input[|input| - left..] == [input[|input| - left]] + more;
        PutOctet(input[|input| - left]);
        left := left - 1;
      }
    }

    /** Any part of the message. */
    method Update(input: Octets)
      requires Valid()
      modifies this`counter, this`message, this`state, this`tail, reg
      ensures Valid() && message == old(message) + input
    {
      hide Absorbed, Folded, Xor, Chain;
      var keep := cipher.size - 1;
      AbsorbMore(cipher, keep, Zeros(cipher.size), message, input);
      message := message + input;
      var left := PutOctets(input, true);
      if left >= cipher.size {
        var rest := input[|input| - left..];
        var last := TakeBlocks(rest);
        assert rest[|rest| - last..] == input[|input| - last..];
        left := last;
      }
      assert left > 0 ==> counter == 0;
      var none := PutOctets(input[|input| - left..], false);
      Nothing(cipher, reg[..], state, tail, input[|input| - left..]);
    }

    /** All whole blocks, when none has been begun. */
    method TakeBlocks(input: Octets) returns (left: nat)
      requires Keyed() && counter == 0
      modifies this`state, reg
      ensures Keyed() && left < cipher.size && left <= |input|
      ensures Absorbed(cipher, cipher.size - 1, state, tail + input[|input| - left..])
           == Absorbed(cipher, cipher.size - 1, old(state), tail + input)
    {
      hide Xor, Chain, Absorbed;
      FoldNothing(reg[..], cipher.size, state);
      assert reg[0..cipher.size] == reg[..][..cipher.size];
      left := AdvancedProcessBlocks(cipher, reg, 0, input, |input|);
      assert tail + input == input && tail + input[|input| - left..] == input[|input| - left..];
      AbsorbBlocks(cipher, cipher.size - 1, state, input, |input| - left);
      state := Chain(cipher, state, input[..|input| - left]);
      assert reg[0..cipher.size] == reg[..][..cipher.size];
      FoldNothing(reg[..], cipher.size, state);
    }

    /** The MAC's first octets, and a fresh start; longer than a block it cannot be. */
    method TruncatedFinal(size: nat) returns (r: Truncated<bv8>)
      requires Valid()
      modifies this`counter, this`message, this`state, this`tail, reg
      ensures Valid()
      ensures size <= cipher.size ==> r == Digest(Mac(cipher, old(message))[..size]) && message == []
      ensures size > cipher.size ==> r == InvalidSize && message == old(message)
    {
      if size > cipher.size {
        return InvalidSize;
      }
      ClosedIsChain(cipher, Zeros(cipher.size), message);
      assert reg[..][..cipher.size] == reg[..];
      FoldBlock(reg[..], cipher.size, state, tail);
      if counter > 0 {
        ProcessBuf();
      } else {
        FoldNothing(reg[..], cipher.size, state);
      }
      assert reg[..] == Mac(cipher, message);
      assert reg[..size] == reg[..][..size];
      r := Digest(reg[..size]);
      forall i | 0 <= i < cipher.size {
        reg[i] := 0;
      }
      message, state, tail := [], Zeros(cipher.size), [];
      assert reg[..][..cipher.size] == Zeros(cipher.size);
      FoldNothing(reg[..], cipher.size, state);
    }
  }

  lemma FullBlock(a: Octets, c: BlockCipher, state: Octets, block: Octets)
    requires |a| == c.size == |block| && Folded(a, c.size, state, block)
    ensures |state| == c.size && a == Xor(state, block)
  {
    FoldBlock(a, c.size, state, block);
    assert a[..c.size] == a;
  }

  /** Less than a block is not chained. */
  lemma Nothing(c: BlockCipher, a: Octets, state: Octets, tail: Octets, input: Octets)
    requires c.Valid() && Folded(a, c.size, state, tail) && |tail| < c.size
    ensures tail + input[|input|..] == tail
    ensures Absorbed(c, c.size - 1, state, tail) == (state, tail)
  {}
}
