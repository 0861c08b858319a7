/** The filter that cuts a message into a first block, middle blocks and a last block, however the
    message arrives (filters.cpp, FilterWithBufferedInput). The virtual calls a derived filter would
    receive are returned as a list. */
module BufferedFilters {
  import opened ByteStrings
  import opened BlockQueues

  datatype Call = First(data: seq<byte>) | Next(data: seq<byte>) | Last(data: seq<byte>) | MessageEnd

  /** The bytes of the middle calls, in order. */
  ghost function Bytes(calls: seq<Call>): seq<byte> {
    if calls == [] then []
    else
      var c := calls[|calls| - 1];
      Bytes(calls[..|calls| - 1]) + if c.Next? then c.data else []
  }

  lemma {:induction false} BytesOfConcatenation(s: seq<Call>, t: seq<Call>)
    ensures Bytes(s + t) == Bytes(s) + Bytes(t)
  {
    if t == [] {
      assert s + t == s;
    } else {
      var t' := t[..|t| - 1];
      assert (s + t)[..|s + t| - 1] == s + t';
      BytesOfConcatenation(s, t');
      var d := if t[|t| - 1].Next? then t[|t| - 1].data else [];
      assert Bytes(s) + (Bytes(t') + d) == (Bytes(s) + Bytes(t')) + d;
    }
  }

  lemma BytesOfOne(data: seq<byte>)
    ensures Bytes([Next(data)]) == data
  {
    assert [Next(data)][..0] == [];
    assert Bytes([]) + data == data;
  }

  ghost predicate IsMultiple(n: nat, blockSize: nat) {
    exists k: nat {:trigger Capacity(blockSize, k)} :: n == Capacity(blockSize, k)
  }

  lemma MultipleSum(n: nat, m: nat, blockSize: nat)
    requires IsMultiple(n, blockSize) && IsMultiple(m, blockSize)
    ensures IsMultiple(n + m, blockSize)
  {
    var k: nat :| n == Capacity(blockSize, k);
    var j: nat :| m == Capacity(blockSize, j);
    assert blockSize * (k + j) == blockSize * k + blockSize * j;
    assert n + m == Capacity(blockSize, k + j);
  }

  lemma MultipleUnits(blockSize: nat)
    ensures IsMultiple(0, blockSize) && IsMultiple(blockSize, blockSize)
  {
    assert Capacity(blockSize, 0) == 0 && Capacity(blockSize, 1) == blockSize;
  }

  /** Two different multiples are at least a block apart. */
  lemma MultipleGap(n: nat, m: nat, blockSize: nat)
    requires IsMultiple(n, blockSize) && IsMultiple(m, blockSize) && n < m
    ensures n + blockSize <= m
  {
    var k: nat :| n == Capacity(blockSize, k);
    var j: nat :| m == Capacity(blockSize, j);
    BlockFits(k, j, blockSize);
    assert k * blockSize == blockSize * k;
  }

  /** Middle calls carry non-empty whole numbers of blocks. */
  ghost predicate AllNext(calls: seq<Call>, blockSize: nat) {
    forall i :: 0 <= i < |calls| ==>
      calls[i].Next? && calls[i].data != [] && IsMultiple(|calls[i].data|, blockSize)
  }

  lemma {:induction false} BytesAreBlocks(calls: seq<Call>, blockSize: nat)
    requires AllNext(calls, blockSize)
    ensures IsMultiple(|Bytes(calls)|, blockSize)
    ensures Bytes(calls) == [] <==> calls == []
  {
    MultipleUnits(blockSize);
    if calls != [] {
      BytesAreBlocks(calls[..|calls| - 1], blockSize);
      MultipleSum(|Bytes(calls[..|calls| - 1])|, |calls[|calls| - 1].data|, blockSize);
    }
  }

  /** After the first block: `given` bytes have gone out in blocks and `kept` are still held. As much
      as possible has gone out, keeping back the last bytes. */
  ghost predicate Split(blockSize: nat, lastSize: nat, given: nat, kept: nat) {
    IsMultiple(given, blockSize) && kept < blockSize + lastSize && (given > 0 ==> kept >= lastSize)
  }

  /** There is only one such split. */
  lemma SplitIsUnique(blockSize: nat, lastSize: nat, given: nat, kept: nat, given': nat, kept': nat)
    requires Split(blockSize, lastSize, given, kept) && Split(blockSize, lastSize, given', kept')
    requires given + kept == given' + kept'
    ensures given == given' && kept == kept'
  {
    if given < given' {
      MultipleGap(given, given', blockSize);
      assert false;
    } else if given' < given {
      MultipleGap(given', given, blockSize);
      assert false;
    }
  }

  /** A message cut in one go. */
  datatype Parts = Short(last: seq<byte>) | Long(first: seq<byte>, middle: seq<byte>, last: seq<byte>)

  /** The number of middle bytes when `n` bytes follow the first block. */
  function MiddleLength(blockSize: nat, lastSize: nat, n: nat): (m: nat)
    requires blockSize >= 1
    ensures m <= n && Split(blockSize, lastSize, m, n - m)
  {
    MultipleUnits(blockSize);
    if n < blockSize + lastSize then 0
    else
      RoundedDown(n - lastSize, blockSize);
      n - lastSize - (n - lastSize) % blockSize
  }

  lemma RoundedDown(n: nat, blockSize: nat)
    requires blockSize >= 1
    ensures n % blockSize <= n && IsMultiple(n - n % blockSize, blockSize)
  {
    var q := n / blockSize;
    assert n - n % blockSize == blockSize * q;
    assert q >= 0 && blockSize * q >= 0;
    assert n - n % blockSize == Capacity(blockSize, q);
  }

  function OneShot(firstSize: nat, blockSize: nat, lastSize: nat, message: seq<byte>): Parts
    requires blockSize >= 1
  {
    if |message| < firstSize then Short(message)
    else
      var rest := message[firstSize..];
      var m := MiddleLength(blockSize, lastSize, |rest|);
      Long(message[..firstSize], rest[..m], rest[m..])
  }

  /** What the header promises of the last call's length. */
  lemma LastLength(firstSize: nat, blockSize: nat, lastSize: nat, message: seq<byte>)
    requires blockSize >= 1
    ensures var total, length := |message|, |OneShot(firstSize, blockSize, lastSize, message).last|;
            if total < firstSize then length == total
            else if total <= firstSize + lastSize then length == total - firstSize
            else lastSize <= length < lastSize + blockSize
  {}

  /** The middle calls of a message's calls, once the first block has been handed over. */
  ghost predicate Partway(
    firstSize: nat, blockSize: nat, lastSize: nat, calls: seq<Call>, message: seq<byte>, kept: seq<byte>)
  {
    if calls == [] then kept == message && (|message| < firstSize || message == [])
    else
      && firstSize <= |message|
      && calls[0] == First(message[..firstSize]) && AllNext(calls[1..], blockSize)
      && message[firstSize..] == Bytes(calls[1..]) + kept
      && Split(blockSize, lastSize, |Bytes(calls[1..])|, |kept|)
  }

  /** All calls of a message that has ended. */
  ghost predicate Complete(firstSize: nat, blockSize: nat, lastSize: nat, calls: seq<Call>, message: seq<byte>) {
    && |calls| >= 2
    && calls[|calls| - 1] == MessageEnd && calls[|calls| - 2].Last?
    && var before, last := calls[..|calls| - 2], calls[|calls| - 2].data;
       && Partway(firstSize, blockSize, lastSize, before, message, last)
       && (before == [] ==> |message| < firstSize)
  }

  ghost function PartsOf(calls: seq<Call>): Parts
    requires |calls| >= 2 && calls[|calls| - 2].Last? && (|calls| > 2 ==> calls[0].First?)
  {
    var last := calls[|calls| - 2].data;
    if |calls| == 2 then Short(last) else Long(calls[0].data, Bytes(calls[1..|calls| - 2]), last)
  }

  /** However a message was cut up on the way in, its parts are those of the one-shot cut. */
  lemma ChunkingIsIrrelevant(firstSize: nat, blockSize: nat, lastSize: nat, calls: seq<Call>, message: seq<byte>)
    requires blockSize >= 1 && Complete(firstSize, blockSize, lastSize, calls, message)
    ensures |calls| > 2 ==> calls[0].First?
    ensures PartsOf(calls) == OneShot(firstSize, blockSize, lastSize, message)
  {
    var before, last := calls[..|calls| - 2], calls[|calls| - 2].data;
    if before != [] {
      var rest, middle := message[firstSize..], Bytes(before[1..]);
      assert before[1..] == calls[1..|calls| - 2];
      var m := MiddleLength(blockSize, lastSize, |rest|);
      SplitIsUnique(blockSize, lastSize, |middle|, |last|, m, |rest| - m);
      assert middle == rest[..m] && last == rest[m..];
    }
  }

  /** The number of blocks the queue is given once the first block is out. */
  function QueueBlocks(blockSize: nat, lastSize: nat): nat
    requires blockSize >= 1
  {
    QuotientNonNegative(2 * blockSize + lastSize - 2, blockSize);
    (2 * blockSize + lastSize - 2) / blockSize
  }

  lemma QuotientNonNegative(n: nat, d: nat)
    requires d >= 1
    ensures n / d >= 0
  {}

  /** They hold whatever is ever kept back, and a block that is being filled up. */
  lemma QueueIsLargeEnough(blockSize: nat, lastSize: nat)
    requires blockSize >= 1
    ensures Capacity(blockSize, QueueBlocks(blockSize, lastSize)) >= blockSize + lastSize - 1
    ensures blockSize > 1 ==> Capacity(blockSize, QueueBlocks(blockSize, lastSize)) >= blockSize
  {
    var n := 2 * blockSize + lastSize - 2;
    var q := n / blockSize;
    assert n == blockSize * q + n % blockSize;
    assert q >= 1 ==> blockSize * q >= blockSize * 1;
    assert q <= 0 ==> blockSize * q <= 0;
  }

  /** An unbroken piece of the drained input goes out as one call. */
  lemma Emitted(calls: seq<Call>, data: seq<byte>, kept: seq<byte>, whole: seq<byte>, blockSize: nat)
    requires Emission(calls, data + kept, whole, blockSize)
    requires data != [] && IsMultiple(|data|, blockSize)
    ensures Emission(calls + [Next(data)], kept, whole, blockSize)
  {
    BytesOfConcatenation(calls, [Next(data)]);
    BytesOfOne(data);
    assert Bytes(calls) + (data + kept) == (Bytes(calls) + data) + kept;
  }

  /** The front of what is queued goes out. */
  lemma FrontEmitted(calls: seq<Call>, queued: seq<byte>, n: nat, input: seq<byte>, whole: seq<byte>, blockSize: nat)
    requires Emission(calls, queued + input, whole, blockSize)
    requires 0 < n <= |queued| && IsMultiple(n, blockSize)
    ensures Emission(calls + [Next(queued[..n])], queued[n..] + input, whole, blockSize)
  {
    assert queued + input == queued[..n] + (queued[n..] + input);
    Emitted(calls, queued[..n], queued[n..] + input, whole, blockSize);
  }

  /** A drain takes the calls of a message further. */
  lemma PartwayMore(
    firstSize: nat, blockSize: nat, lastSize: nat, handed: seq<Call>, message: seq<byte>, kept: seq<byte>,
    input: seq<byte>, calls: seq<Call>, kept': seq<byte>)
    requires handed != [] && Partway(firstSize, blockSize, lastSize, handed, message, kept)
    requires Emission(calls, kept', kept + input, blockSize)
    requires |kept'| < blockSize + lastSize && (calls != [] ==> |kept'| >= lastSize)
    ensures Partway(firstSize, blockSize, lastSize, handed + calls, message + input, kept')
  {
    var middle := handed[1..];
    TakeAndDrop(handed, calls, 1);
    TakeAndDrop(message, input, firstSize);
    BytesOfConcatenation(middle, calls);
    BytesAreBlocks(middle + calls, blockSize);
    BytesAreBlocks(calls, blockSize);
    hide Bytes, IsMultiple, Capacity;
    AppendAssociates(Bytes(middle), kept, input);
    AppendAssociates(Bytes(middle), Bytes(calls), kept');
  }

  /** The end of a message completes its calls; with no first block expected it is announced late. */
  lemma EndsComplete(
    firstSize: nat, blockSize: nat, lastSize: nat, handed: seq<Call>, message: seq<byte>, kept: seq<byte>,
    calls: seq<Call>)
    requires blockSize >= 1 && Partway(firstSize, blockSize, lastSize, handed, message, kept)
    requires calls == if handed == [] && firstSize == 0 then [First([])] else []
    ensures Complete(firstSize, blockSize, lastSize, handed + calls + [Last(kept), MessageEnd], message)
  {
    var all := handed + calls + [Last(kept), MessageEnd];
    assert all[..|all| - 2] == handed + calls;
    if calls != [] {
      assert (handed + calls)[1..] == [] && message == [];
      assert Bytes([]) + kept == [];
      MultipleUnits(blockSize);
    } else {
      assert handed + calls == handed;
    }
  }

  class FilterWithBufferedInput {
    var firstSize: nat
    const blockSize: nat
    const lastSize: nat
    var firstInputDone: bool
    const queue: BlockQueue
    /** The message so far, and the calls made for it. */
    ghost var message: seq<byte>
    ghost var handed: seq<Call>

    ghost predicate Valid()
      reads this, queue, queue.buffer
    {
      && blockSize >= 1 && queue.Valid()
      && (if firstInputDone
          then queue.blockSize == blockSize && queue.maxBlocks == QueueBlocks(blockSize, lastSize)
            && queue.Aligned() && handed != []
          else queue.blockSize == 1 && queue.maxBlocks == firstSize && queue.begin == 0 && handed == [])
      && Partway(firstSize, blockSize, lastSize, handed, message, queue.Contents())
    }

    constructor (firstSize: nat, blockSize: nat, lastSize: nat)
      requires blockSize >= 1
      ensures Valid() && fresh(queue) && fresh(queue.buffer)
      ensures this.firstSize == firstSize && this.blockSize == blockSize && this.lastSize == lastSize
      ensures message == [] && handed == []
    {
      this.firstSize := firstSize;
      this.blockSize := blockSize;
      this.lastSize := lastSize;
      firstInputDone := false;
      queue := new BlockQueue(1, firstSize);
      message, handed := [], [];
    }

    /** Sizes that are not possible are refused. */
    static method Create(firstSize: int, blockSize: int, lastSize: int) returns (f: FilterWithBufferedInput?)
      ensures f == null <==> firstSize < 0 || blockSize < 1 || lastSize < 0
      ensures f != null ==>
        fresh(f) && f.Valid() && f.message == [] && f.firstSize == firstSize && f.blockSize == blockSize
        && f.lastSize == lastSize
    {
      if firstSize < 0 || blockSize < 1 || lastSize < 0 {
        return null;
      }
      f := new FilterWithBufferedInput(firstSize, blockSize, lastSize);
    }

    /** The part for blocks of one byte: everything beyond the last bytes goes out, from the queue in
        at most two pieces and then straight from the input. */
    method DrainBytes(input: seq<byte>) returns (calls: seq<Call>, rest: seq<byte>)
      requires queue.Valid() && queue.Aligned() && queue.blockSize == blockSize == 1
      modifies queue`begin, queue`size, queue`row
      ensures queue.Valid() && queue.Aligned()
      ensures Drained(calls, old(queue.Contents()) + input, queue.Contents() + rest)
    {
      ghost var whole := queue.Contents() + input;
      NothingEmitted(whole, 1);
      hide Emission, Ring, Fits, Capacity, IsMultiple;
      rest := input;
      calls := [];
      var newLength := queue.size + |input|;
      while newLength > lastSize && queue.size > 0
        invariant queue.Valid() && queue.Aligned() && newLength == queue.size + |input|
        invariant Emission(calls, queue.Contents() + input, whole, 1)
        invariant calls != [] ==> newLength >= lastSize
        decreases newLength
      {
        ghost var before := queue.Contents();
        var len, data := queue.GetContigousBlocks(newLength - lastSize);
        EveryMultipleOfOne(len);
        FrontEmitted(calls, before, len, input, whole, 1);
        calls := calls + [Next(data)];
        newLength := newLength - len;
      }
      if newLength > lastSize {
        var len := newLength - lastSize;
        assert queue.Contents() + input == input[..len] + (queue.Contents() + input[len..]);
        EveryMultipleOfOne(len);
        Emitted(calls, input[..len], queue.Contents() + input[len..], whole, 1);
        calls := calls + [Next(input[..len])];
        rest := input[len..];
      }
    }

    /** What a drain achieves: all blocks that can go out have gone, in order. */
    ghost predicate Drained(calls: seq<Call>, whole: seq<byte>, kept: seq<byte>) {
      && Emission(calls, kept, whole, blockSize)
      && |kept| < blockSize + lastSize && (calls != [] ==> |kept| >= lastSize)
    }

    /** The part for longer blocks: whole blocks from the queue, then one completed from the input,
        then as many as there are straight from the input. */
    method DrainBlocks(input: seq<byte>) returns (calls: seq<Call>, rest: seq<byte>)
      requires queue.Valid() && queue.Aligned() && queue.blockSize == blockSize > 1
      requires queue.buffer.Length >= blockSize
      modifies queue`begin, queue`size, queue`row, queue.buffer
      ensures queue.Valid() && queue.Aligned()
      ensures Drained(calls, old(queue.Contents()) + input, queue.Contents() + rest)
    {
      ghost var whole := queue.Contents() + input;
      hide Emission, Ring, Fits, Capacity, IsMultiple;
      calls := DrainQueue(input);
      rest := input;
      if queue.size + |rest| >= blockSize + lastSize && queue.size > 0 {
        var data;
        data, rest := CompleteBlock(input);
        Emitted(calls, data, queue.Contents() + rest, whole, blockSize);
        calls := calls + [Next(data)];
      }
      var newLength := queue.size + |rest|;
      if newLength >= blockSize + lastSize {
        RoundedDown(newLength - lastSize, blockSize);
        LeavesLess(newLength - lastSize, blockSize);
        var len := newLength - lastSize - (newLength - lastSize) % blockSize;
        assert queue.Contents() + rest == rest[..len] + (queue.Contents() + rest[len..]);
        Emitted(calls, rest[..len], queue.Contents() + rest[len..], whole, blockSize);
        calls := calls + [Next(rest[..len])];
        rest := rest[len..];
      }
    }

    method DrainQueue(input: seq<byte>) returns (calls: seq<Call>)
      requires queue.Valid() && queue.Aligned() && queue.blockSize == blockSize > 1
      modifies queue`begin, queue`size, queue`row
      ensures queue.Valid() && queue.Aligned()
      ensures Emission(calls, queue.Contents() + input, old(queue.Contents()) + input, blockSize)
      ensures calls != [] ==> queue.size + |input| >= lastSize
      ensures queue.size + |input| < blockSize + lastSize || queue.size < blockSize
    {
      ghost var whole := queue.Contents() + input;
      NothingEmitted(whole, blockSize);
      MultipleUnits(blockSize);
      hide Emission, Ring, Fits, Capacity, IsMultiple;
      calls := [];
      var newLength := queue.size + |input|;
      while newLength >= blockSize + lastSize && queue.size >= blockSize
        invariant queue.Valid() && queue.Aligned() && newLength == queue.size + |input|
        invariant Emission(calls, queue.Contents() + input, whole, blockSize)
        invariant calls != [] ==> newLength >= lastSize
        decreases newLength
      {
        FrontEmitted(calls, queue.Contents(), blockSize, input, whole, blockSize);
        var data := queue.GetBlock();
        calls := calls + [Next(data)];
        newLength := newLength - blockSize;
      }
    }

    /** A block begun in the queue is filled up from the input and taken out. */
    method CompleteBlock(input: seq<byte>) returns (data: seq<byte>, rest: seq<byte>)
      requires queue.Valid() && queue.Aligned() && queue.blockSize == blockSize > 1
      requires queue.buffer.Length >= blockSize
      requires 0 < queue.size < blockSize <= queue.size + |input|
      modifies queue`begin, queue`size, queue`row, queue.buffer
      ensures queue.Valid() && queue.Aligned() && queue.size == 0
      ensures |data| == blockSize && IsMultiple(blockSize, blockSize)
      ensures old(queue.Contents()) + input == data + (queue.Contents() + rest)
    {
      MultipleUnits(blockSize);
      hide Ring, Fits, Capacity, IsMultiple;
      var len := blockSize - queue.size;
      ghost var before := queue.Contents();
      queue.Put(input[..len]);
      data := queue.GetBlock();
      rest := input[len..];
      assert queue.Contents() == [] && data == before + input[..len];
      assert input == input[..len] + rest;
    }

    /** Put2: bytes of a message, and whether it ends with them. */
    method Put(input: seq<byte>, messageEnd: bool) returns (calls: seq<Call>)
      requires Valid()
      modifies this, queue, queue.buffer
      ensures Valid() && firstSize == old(firstSize)
      ensures queue.buffer == old(queue.buffer) || fresh(queue.buffer)
      ensures !messageEnd ==> message == old(message) + input && handed == old(handed) + calls
      ensures messageEnd ==> message == [] && handed == [] && |calls| >= 2
      ensures messageEnd ==> Complete(firstSize, blockSize, lastSize, old(handed) + calls, old(message) + input)
    {
      hide Partway, Complete, Capacity, Ring, Fits, QueueBlocks;
      AppendNothing(handed);
      AppendNothing(message);
      calls := [];
      if |input| != 0 {
        calls := PutBytes(input);
      }
      if messageEnd {
        var last := EndMessage();
        AppendAssociates(old(handed), calls, last);
        calls := calls + last;
      }
    }

    method PutBytes(input: seq<byte>) returns (calls: seq<Call>)
      requires Valid() && |input| > 0
      modifies this, queue, queue.buffer
      ensures Valid() && firstSize == old(firstSize)
      ensures queue.buffer == old(queue.buffer) || fresh(queue.buffer)
      ensures message == old(message) + input && handed == old(handed) + calls
    {
      hide Bytes, Ring, QueueBlocks;
      AppendNothing(handed);
      calls := [];
      var rest := input;
      if !firstInputDone && queue.size + |input| >= firstSize {
        var len := firstSize - queue.size;
        var first := TakeFirst(input[..len]);
        AppendAssociates(old(message), input[..len], input[len..]);
        assert input[..len] + input[len..] == input;
        calls := [first];
        rest := input[len..];
      }
      if firstInputDone {
        var more := PutMiddle(rest);
        AppendAssociates(old(handed), calls, more);
        calls := calls + more;
      } else {
        message := message + input;
        queue.Put(input);
      }
    }

    /** The input completes the first block; the queue is made over for the rest of the message. */
    method TakeFirst(input: seq<byte>) returns (call: Call)
      requires Valid() && !firstInputDone && queue.size + |input| == firstSize
      modifies this, queue, queue.buffer
      ensures Valid() && firstInputDone && firstSize == old(firstSize)
      ensures fresh(queue.buffer)
      ensures message == old(message) + input && handed == old(handed) + [call]
    {
      queue.Put(input);
      var n, data := queue.GetContigousBlocks(firstSize);
      firstSize := n;
      call := First(data);
      queue.ResetQueue(blockSize, QueueBlocks(blockSize, lastSize));
      firstInputDone := true;
      message := message + input;
      handed := [call];
      assert message[..firstSize] == message && message[firstSize..] == [];
      assert Bytes(handed[1..]) == [];
      MultipleUnits(blockSize);
    }

    method Drain(input: seq<byte>) returns (calls: seq<Call>, rest: seq<byte>)
      requires queue.Valid() && queue.Aligned() && queue.blockSize == blockSize >= 1
      requires blockSize > 1 ==> queue.buffer.Length >= blockSize
      modifies queue`begin, queue`size, queue`row, queue.buffer
      ensures queue.Valid() && queue.Aligned()
      ensures Drained(calls, old(queue.Contents()) + input, queue.Contents() + rest)
    {
      hide Emission, Capacity, Ring, Fits;
      if blockSize == 1 {
        calls, rest := DrainBytes(input);
      } else {
        calls, rest := DrainBlocks(input);
      }
    }

    /** What the header and the queue allow goes out, and the rest is kept. */
    method PutMiddle(input: seq<byte>) returns (calls: seq<Call>)
      requires Valid() && firstInputDone
      modifies this`message, this`handed, queue`begin, queue`size, queue`row, queue.buffer
      ensures Valid() && queue.buffer == old(queue.buffer)
      ensures message == old(message) + input && handed == old(handed) + calls
    {
      hide Partway, Emission, Capacity, Ring, Fits, QueueBlocks;
      ghost var kept := queue.Contents();
      QueueIsLargeEnough(blockSize, lastSize);
      var rest;
      calls, rest := Drain(input);
      queue.Put(rest);
      PartwayMore(firstSize, blockSize, lastSize, handed, message, kept, input, calls, queue.Contents());
      message := message + input;
      handed := handed + calls;
    }

    /** The end of a message: whatever is queued is the last block, and the filter starts over. */
    method EndMessage() returns (calls: seq<Call>)
      requires Valid()
      modifies this, queue
      ensures Valid() && firstSize == old(firstSize) && fresh(queue.buffer)
      ensures message == [] && handed == [] && |calls| >= 2
      ensures Complete(firstSize, blockSize, lastSize, old(handed) + calls, old(message))
    {
      calls := [];
      if !firstInputDone && firstSize == 0 {
        calls := [First([])];
      }
      ghost var before := handed + calls;
      var temp := queue.GetAll();
      EndsComplete(firstSize, blockSize, lastSize, handed, message, temp, calls);
      assert before + [Last(temp), MessageEnd] == handed + (calls + [Last(temp), MessageEnd]);
      calls := calls + [Last(temp), MessageEnd];
      firstInputDone := false;
      queue.ResetQueue(1, firstSize);
      message, handed := [], [];
    }
  }

  /** The calls so far carry whole blocks, and with what is kept they make up the whole. */
  ghost predicate Emission(calls: seq<Call>, kept: seq<byte>, whole: seq<byte>, blockSize: nat) {
    AllNext(calls, blockSize) && Bytes(calls) + kept == whole
  }

  lemma NothingEmitted(whole: seq<byte>, blockSize: nat)
    ensures Emission([], whole, whole, blockSize)
  {
    assert Bytes([]) + whole == whole;
  }

  lemma EveryMultipleOfOne(n: nat)
    ensures IsMultiple(n, 1)
  {
    assert n == Capacity(1, n);
  }

  lemma LeavesLess(n: nat, blockSize: nat)
    requires blockSize >= 1
    ensures n >= blockSize ==> 0 < n - n % blockSize
    ensures 0 <= n % blockSize < blockSize
  {
    assert n >= blockSize ==> n / blockSize >= 1 && blockSize * (n / blockSize) >= blockSize;
  }
}
