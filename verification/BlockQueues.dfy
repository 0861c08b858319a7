/** The ring buffer of filters.cpp, FilterWithBufferedInput::BlockQueue. Pointers into the buffer are
    indices; where the original hands out a pointer, the bytes it points to are returned. */
module BlockQueues {
  import opened ByteStrings

  function Capacity(blockSize: nat, maxBlocks: nat): nat {
    blockSize * maxBlocks
  }

  /** `begin` is inside a buffer of length `n`, which holds `size` bytes. */
  predicate Fits(n: nat, begin: nat, size: nat) {
    size <= n && (begin < n || begin == n == 0)
  }

  /** The bytes in a ring from `begin` on, around the end. */
  ghost function Ring(s: seq<byte>, begin: nat, size: nat): (r: seq<byte>)
    requires Fits(|s|, begin, size)
    ensures |r| == size
  {
    if begin + size <= |s| then s[begin..begin + size] else s[begin..] + s[..begin + size - |s|]
  }

  /** Index into a buffer of `n` bytes of the i-th byte after `begin`, around the end. */
  function Slot(n: nat, begin: nat, i: nat): nat {
    if begin + i < n then begin + i else if begin + i < 2 * n then begin + i - n else 0
  }

  lemma RingAt(s: seq<byte>, begin: nat, size: nat, i: nat)
    requires Fits(|s|, begin, size) && i < size
    ensures Slot(|s|, begin, i) < |s| && Ring(s, begin, size)[i] == s[Slot(|s|, begin, i)]
  {}

  /** Where the ring begins when `n` bytes that do not reach around the end are taken off; an empty ring
      may also begin at the start. */
  predicate Past(length: nat, begin: nat, size: nat, n: nat, begin': nat) {
    begin' == (if begin + n == length then 0 else begin + n) || (n == size && begin' == 0)
  }

  lemma RingTake(s: seq<byte>, begin: nat, size: nat, n: nat, begin': nat)
    requires Fits(|s|, begin, size) && n <= size && begin + n <= |s| && Past(|s|, begin, size, n, begin')
    ensures s[begin..begin + n] == Ring(s, begin, size)[..n]
    ensures Fits(|s|, begin', size - n) && Ring(s, begin', size - n) == Ring(s, begin, size)[n..]
  {
    if n == size {
      assert Ring(s, begin, size)[n..] == [];
    } else if begin + n < |s| {
      DropRing(s, begin, size, n);
    }
  }

  lemma DropRing(s: seq<byte>, begin: nat, size: nat, n: nat)
    requires Fits(|s|, begin, size) && n <= size && begin + n < |s|
    ensures Ring(s, begin + n, size - n) == Ring(s, begin, size)[n..]
  {
    if begin + size > |s| {
      TakeAndDrop(s[begin..], s[..begin + size - |s|], n);
      assert s[begin..][n..] == s[begin + n..];
    }
  }

  lemma RingFromStart(s: seq<byte>, size: nat)
    requires Fits(|s|, 0, size)
    ensures Ring(s, 0, size) == s[0..size]
  {}

  /** What writing `input` after the last byte does to the buffer. */
  ghost predicate Written(s: seq<byte>, s': seq<byte>, begin: nat, size: nat, input: seq<byte>)
    requires Fits(|s|, begin, size)
  {
    && |s'| == |s| && size + |input| <= |s|
    && (forall i {:trigger Slot(|s|, begin, i)} :: 0 <= i < size ==>
          s'[Slot(|s|, begin, i)] == s[Slot(|s|, begin, i)])
    && (forall i {:trigger Slot(|s|, begin, i)} :: size <= i < size + |input| ==>
          s'[Slot(|s|, begin, i)] == input[i - size])
  }

  lemma RingPut(s: seq<byte>, s': seq<byte>, begin: nat, size: nat, input: seq<byte>)
    requires Fits(|s|, begin, size) && Written(s, s', begin, size, input)
    ensures Fits(|s'|, begin, size + |input|)
    ensures Ring(s', begin, size + |input|) == Ring(s, begin, size) + input
  {
    StillFits(s, s', begin, size, input);
    hide Ring, Written;
    var r, r' := Ring(s, begin, size), Ring(s', begin, size + |input|);
    forall i | 0 <= i < size + |input| ensures r'[i] == (r + input)[i] {
      RingPutAt(s, s', begin, size, input, i);
    }
  }

  lemma StillFits(s: seq<byte>, s': seq<byte>, begin: nat, size: nat, input: seq<byte>)
    requires Fits(|s|, begin, size) && Written(s, s', begin, size, input)
    ensures Fits(|s'|, begin, size + |input|)
  {}

  lemma RingPutAt(s: seq<byte>, s': seq<byte>, begin: nat, size: nat, input: seq<byte>, i: nat)
    requires Fits(|s|, begin, size) && Written(s, s', begin, size, input) && i < size + |input|
    ensures Fits(|s'|, begin, size + |input|)
    ensures Ring(s', begin, size + |input|)[i] == (Ring(s, begin, size) + input)[i]
  {
    hide Ring, Slot;
    StillFits(s, s', begin, size, input);
    RingAt(s', begin, size + |input|, i);
    if i < size { RingAt(s, begin, size, i); }
  }

  /** Writing `len` bytes at `end` and the others at the start of the buffer is writing around its end. */
  lemma WrittenAround(s: seq<byte>, s': seq<byte>, begin: nat, size: nat, input: seq<byte>, end: nat, len: nat)
    requires Fits(|s|, begin, size) && |s'| == |s| && size + |input| <= |s|
    requires end == (if size < |s| - begin then begin + size else begin + size - |s|)
    requires len == Min(|input|, |s| - end)
    requires forall i :: 0 <= i < len ==> s'[end + i] == input[i]
    requires forall i :: len <= i < |input| ==> s'[i - len] == input[i]
    requires forall k :: 0 <= k < |s| && !(end <= k < end + len) && k >= |input| - len ==> s'[k] == s[k]
    ensures Written(s, s', begin, size, input)
  {
    forall i {:trigger Slot(|s|, begin, i)} | size <= i < size + |input|
      ensures s'[Slot(|s|, begin, i)] == input[i - size]
    {
      var j := i - size;
      assert if j < len then Slot(|s|, begin, i) == end + j else Slot(|s|, begin, i) == j - len;
      assert j < len ==> s'[end + j] == input[j];
    }
  }

  class BlockQueue {
    var buffer: array<byte>
    var blockSize: nat
    var maxBlocks: nat
    var size: nat
    var begin: nat
    /** Which block `begin` is at, while it is only moved by whole blocks. */
    ghost var row: nat

    ghost predicate Valid()
      reads this, buffer
    {
      buffer.Length == Capacity(blockSize, maxBlocks) && Fits(buffer.Length, begin, size)
    }

    /** `begin` is at the start of a block. */
    ghost predicate Aligned()
      reads this
    {
      begin == Capacity(blockSize, row)
    }

    /** The queued bytes, oldest first. */
    ghost function Contents(): (s: seq<byte>)
      requires Valid()
      reads this, buffer
      ensures |s| == size
    {
      Ring(buffer[..], begin, size)
    }

    constructor (blockSize: nat, maxBlocks: nat)
      ensures Valid() && Aligned() && fresh(buffer) && begin == 0 && Contents() == []
      ensures this.blockSize == blockSize && this.maxBlocks == maxBlocks
    {
      buffer := new byte[Capacity(blockSize, maxBlocks)](_ => 0);
      this.blockSize := blockSize;
      this.maxBlocks := maxBlocks;
      size, begin, row := 0, 0, 0;
    }

    method ResetQueue(blockSize: nat, maxBlocks: nat)
      modifies this
      ensures Valid() && Aligned() && fresh(buffer) && begin == 0 && Contents() == []
      ensures this.blockSize == blockSize && this.maxBlocks == maxBlocks
    {
      buffer := new byte[Capacity(blockSize, maxBlocks)](_ => 0);
      this.blockSize := blockSize;
      this.maxBlocks := maxBlocks;
      size, begin, row := 0, 0, 0;
    }

    /** A whole block off the front, if there is one. */
    method GetBlock() returns (block: seq<byte>)
      requires Valid() && Aligned() && blockSize > 0
      modifies this`begin, this`size, this`row
      ensures Valid() && Aligned()
      ensures if old(size) >= blockSize
              then block == old(Contents())[..blockSize] && Contents() == old(Contents())[blockSize..]
              else block == [] && Contents() == old(Contents())
    {
      hide Ring, Capacity;
      if size < blockSize {
        return [];
      }
      BlockFits(row, maxBlocks, blockSize);
      block := buffer[begin..begin + blockSize];
      ghost var was := begin;
      begin, row := begin + blockSize, row + 1;
      if begin == buffer.Length {
        begin, row := 0, 0;
      }
      RingTake(buffer[..], was, size, blockSize, begin);
      size := size - blockSize;
    }

    /** As many bytes as lie in one piece, up to `wanted`. */
    method GetContigousBlocks(wanted: nat) returns (numberOfBytes: nat, bytes: seq<byte>)
      requires Valid()
      modifies this`begin, this`size, this`row
      ensures Valid() && (blockSize == 1 ==> Aligned())
      ensures numberOfBytes == Min(wanted, Min(buffer.Length - old(begin), old(size)))
      ensures bytes == old(Contents())[..numberOfBytes] && Contents() == old(Contents())[numberOfBytes..]
      ensures wanted >= buffer.Length ==> begin == 0
    {
      numberOfBytes := Min(wanted, Min(buffer.Length - begin, size));
      bytes := Advance(numberOfBytes);
    }

    /** Takes bytes that lie in one piece. */
    method Advance(n: nat) returns (bytes: seq<byte>)
      requires Valid() && n <= size && begin + n <= buffer.Length
      modifies this`begin, this`size, this`row
      ensures Valid() && (blockSize == 1 ==> Aligned()) && size == old(size) - n
      ensures bytes == old(Contents())[..n] && Contents() == old(Contents())[n..]
      ensures n == old(size) || old(begin) + n == buffer.Length ==> begin == 0
    {
      hide Ring, Capacity;
      ghost var was, full := begin, size;
      bytes := buffer[begin..begin + n];
      begin := begin + n;
      size := size - n;
      if size == 0 || begin == buffer.Length {
        begin := 0;
      }
      RingTake(buffer[..], was, full, n, begin);
      row := begin;
      BytesAreBlocks(row);
    }

    /** Everything, in at most two pieces. */
    method GetAll() returns (bytes: seq<byte>)
      requires Valid()
      modifies this`begin, this`size, this`row
      ensures Valid() && bytes == old(Contents()) && Contents() == []
    {
      ghost var all := Contents();
      hide Ring, Capacity;
      var n, first := GetContigousBlocks(Capacity(blockSize, maxBlocks));
      RingFromStart(buffer[..], size);
      bytes := first + buffer[begin..begin + size];
      assert all == all[..n] + all[n..];
      size := 0;
    }

    /** Appends, wrapping around the end of the buffer. */
    method Put(input: seq<byte>)
      requires Valid() && size + |input| <= buffer.Length
      modifies this`size, buffer
      ensures Valid() && Contents() == old(Contents()) + input
    {
      hide Ring, Capacity;
      var end := if size < buffer.Length - begin then begin + size else begin + size - buffer.Length;
      var len := Min(|input|, buffer.Length - end);
      ghost var was := buffer[..];
      forall i | 0 <= i < len {
        buffer[end + i] := input[i];
      }
      if len < |input| {
        forall i | len <= i < |input| {
          buffer[i - len] := input[i];
        }
      }
      assert forall k :: 0 <= k < buffer.Length && !(end <= k < end + len) && k >= |input| - len ==>
        buffer[k] == was[k];
      WrittenAround(was, buffer[..], begin, size, input, end, len);
      RingPut(was, buffer[..], begin, size, input);
      size := size + |input|;
    }
  }

  /** A block that begins inside the buffer ends inside it. */
  lemma BlockFits(row: nat, maxBlocks: nat, blockSize: nat)
    ensures Capacity(blockSize, 0) == 0
    ensures Capacity(blockSize, row + 1) == Capacity(blockSize, row) + blockSize
    ensures Capacity(blockSize, row) < Capacity(blockSize, maxBlocks) ==>
              Capacity(blockSize, row + 1) <= Capacity(blockSize, maxBlocks)
  {
    var d := maxBlocks - row;
    assert d * blockSize == blockSize * maxBlocks - row * blockSize;
    assert d <= 0 ==> d * blockSize <= 0;
    assert d >= 1 ==> d * blockSize >= 1 * blockSize;
    assert (row + 1) * blockSize == row * blockSize + blockSize;
  }

  lemma BytesAreBlocks(n: nat)
    ensures Capacity(1, n) == n
  {}
}
