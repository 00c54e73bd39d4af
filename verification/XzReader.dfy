/** Reading a range of the uncompressed stream of an XZ file through the block cache. */
module XzReader {
  import opened Bytes
  import opened XzLru
  import opened XzCache

  /** One block of the index: address and bytes in the uncompressed stream, and whether it decodes. */
  datatype Block = Block(start: nat, data: seq<byte>, decodes: bool) {
    function End(): nat { start + |data| }

    predicate Covers(at: int) { start <= at < start + |data| }
  }

  const READER_ERROR := -1

  /** The blocks lie one after the other from address 0 on. */
  ghost predicate Consecutive(blocks: seq<Block>) {
    && (|blocks| > 0 ==> blocks[0].start == 0)
    && forall i {:trigger blocks[i].End()} :: 0 <= i < |blocks| - 1 ==> blocks[i + 1].start == blocks[i].End()
  }

  /** `stream` is what the blocks decode to: each block is its slice of it, and together they fill it. */
  ghost predicate Partition(blocks: seq<Block>, stream: seq<byte>) {
    && Consecutive(blocks)
    && |stream| == (if blocks == [] then 0 else blocks[|blocks| - 1].End())
    && forall i {:trigger blocks[i].data} :: 0 <= i < |blocks| ==>
         blocks[i].start + |blocks[i].data| <= |stream| &&
         forall k :: 0 <= k < |blocks[i].data| ==> stream[blocks[i].start + k] == blocks[i].data[k]
  }

  lemma {:induction false} StartsMonotone(blocks: seq<Block>, i: nat, j: nat)
    requires Consecutive(blocks) && i < j < |blocks|
    ensures blocks[i].End() <= blocks[j].start
  {
    assert blocks[j - 1].End() == blocks[j].start;
    if i < j - 1 { StartsMonotone(blocks, i, j - 1); }
  }

  /** No byte of the stream belongs to two blocks. */
  lemma CoversUnique(blocks: seq<Block>, i: nat, j: nat, at: nat)
    requires Consecutive(blocks) && i < |blocks| && j < |blocks|
    requires blocks[i].Covers(at) && blocks[j].Covers(at)
    ensures i == j
  {
    if i < j { StartsMonotone(blocks, i, j); }
    if j < i { StartsMonotone(blocks, j, i); }
  }

  /** Every byte of the stream belongs to some block. */
  lemma {:induction false} CoversTotal(blocks: seq<Block>, n: nat, at: nat) returns (i: nat)
    requires Consecutive(blocks) && 0 < n <= |blocks| && at < blocks[n - 1].End()
    ensures i < n && blocks[i].Covers(at)
  {
    i := n - 1;
    if at < blocks[i].start {
      assert blocks[n - 2].End() == blocks[i].start;
      i := CoversTotal(blocks, n - 1, at);
    }
  }

  /** The byte at `at` can be delivered: its block exists and decodes. */
  ghost predicate Readable(blocks: seq<Block>, at: nat) {
    exists i :: 0 <= i < |blocks| && blocks[i].Covers(at) && blocks[i].decodes
  }

  /** Of the `length` bytes from `offset`, exactly the first `n` precede the first unreadable one. */
  ghost predicate ReadableRun(blocks: seq<Block>, offset: nat, length: nat, n: nat) {
    && n <= length
    && (forall at :: offset <= at < offset + n ==> Readable(blocks, at))
    && (n < length ==> !Readable(blocks, offset + n))
  }

  /** Every range has one run, and only one. */
  lemma {:induction false} ReadableRunExists(blocks: seq<Block>, offset: nat, length: nat) returns (n: nat)
    ensures ReadableRun(blocks, offset, length, n)
    ensures forall m: nat :: ReadableRun(blocks, offset, length, m) ==> m == n
    decreases length
  {
    n := 0;
    if length > 0 && Readable(blocks, offset) {
      n := ReadableRunExists(blocks, offset + 1, length - 1);
      n := n + 1;
    }
    forall m: nat | ReadableRun(blocks, offset, length, m) ensures m == n {
      if m < n || n < m { assert false; }
    }
  }

  /** What a read returns after `n` bytes: an error in a later block is added to the bytes delivered. */
  ghost function ReadResult(blocks: seq<Block>, offset: nat, length: nat, n: nat): int {
    if n == length && (length > 0 || Readable(blocks, offset)) then length else n + READER_ERROR
  }

  /** `used` are the blocks that a read of the range asks for, in order. */
  ghost predicate Uses(blocks: seq<Block>, offset: nat, length: nat, used: seq<nat>)
    decreases length
  {
    if !Readable(blocks, offset) then used == []
    else
      && |used| > 0 && used[0] < |blocks| && blocks[used[0]].Covers(offset)
      && var n := Min(blocks[used[0]].End() - offset, length);
         if n == length then |used| == 1 else Uses(blocks, offset + n, length - n, used[1..])
  }

  /** A read inside one block, followed by a read of the rest, is a read of the whole range. */
  lemma RunThroughBlock(blocks: seq<Block>, b: nat, offset: nat, length: nat, n: nat, m: nat)
    requires b < |blocks| && blocks[b].Covers(offset) && blocks[b].decodes
    requires n == Min(blocks[b].End() - offset, length)
    requires n < length ==> ReadableRun(blocks, offset + n, length - n, m)
    requires n == length ==> m == 0
    ensures ReadableRun(blocks, offset, length, n + m)
  {
    assert forall at :: offset <= at < offset + n ==> blocks[b].Covers(at);
  }

  /** What a read of a range delivers, returns and asks for. */
  ghost predicate Answered(blocks: seq<Block>, offset: nat, length: nat, r: int, run: nat, used: seq<nat>) {
    ReadableRun(blocks, offset, length, run) && r == ReadResult(blocks, offset, length, run) && Uses(blocks, offset, length, used)
  }

  lemma NothingAnswered(blocks: seq<Block>, offset: nat, length: nat)
    requires !Readable(blocks, offset)
    ensures Answered(blocks, offset, length, READER_ERROR, 0, [])
  {
  }

  lemma AnsweredInBlock(blocks: seq<Block>, b: nat, offset: nat, length: nat)
    requires b < |blocks| && blocks[b].Covers(offset) && blocks[b].decodes && blocks[b].End() - offset >= length
    ensures Answered(blocks, offset, length, length, length, [b])
  {
    RunThroughBlock(blocks, b, offset, length, length, 0);
    UsesThroughBlock(blocks, b, offset, length, length, []);
    assert [b] + [] == [b];
  }

  lemma AnsweredThroughBlock(blocks: seq<Block>, b: nat, offset: nat, length: nat, n: nat, r: int, m: nat, later: seq<nat>)
    requires b < |blocks| && blocks[b].Covers(offset) && blocks[b].decodes
    requires n == blocks[b].End() - offset < length && Answered(blocks, offset + n, length - n, r, m, later)
    ensures Answered(blocks, offset, length, n + r, n + m, [b] + later)
  {
    RunThroughBlock(blocks, b, offset, length, n, m);
    UsesThroughBlock(blocks, b, offset, length, n, later);
  }

  lemma UsesThroughBlock(blocks: seq<Block>, b: nat, offset: nat, length: nat, n: nat, later: seq<nat>)
    requires b < |blocks| && blocks[b].Covers(offset) && blocks[b].decodes
    requires n == Min(blocks[b].End() - offset, length)
    requires if n == length then later == [] else Uses(blocks, offset + n, length - n, later)
    ensures Uses(blocks, offset, length, [b] + later)
  {
    assert ([b] + later)[1..] == later;
  }

  /** A read returns the length asked for exactly when every byte of the range can be delivered. */
  lemma FullReadIffReadable(blocks: seq<Block>, offset: nat, length: nat, n: nat)
    requires length > 0 && ReadableRun(blocks, offset, length, n)
    ensures ReadResult(blocks, offset, length, n) == length <==>
            forall at :: offset <= at < offset + length ==> Readable(blocks, at)
    ensures ReadResult(blocks, offset, length, n) == READER_ERROR <==> !Readable(blocks, offset)
  {
    if n < length { assert !Readable(blocks, offset + n); }
  }

  /** Inside a stream whose blocks all decode, every read is complete. */
  lemma InRangeReadIsComplete(blocks: seq<Block>, stream: seq<byte>, offset: nat, length: nat, n: nat)
    requires Partition(blocks, stream) && forall i :: 0 <= i < |blocks| ==> blocks[i].decodes
    requires 0 < length && offset + length <= |stream| && ReadableRun(blocks, offset, length, n)
    ensures ReadResult(blocks, offset, length, n) == n == length
  {
    if n < length {
      var i := CoversTotal(blocks, |blocks|, offset + n);
      assert Readable(blocks, offset + n);
    }
  }

  /** A range whose first block decodes and whose second does not: the error passes for a short read. */
  lemma LaterErrorLooksLikeShortRead()
    ensures var blocks := [Block(0, [1, 2, 3], true), Block(3, [4, 5, 6], false)];
            Consecutive(blocks) && ReadableRun(blocks, 0, 6, 3) && ReadResult(blocks, 0, 6, 3) == 2
  {
    var blocks := [Block(0, [1, 2, 3], true), Block(3, [4, 5, 6], false)];
    assert blocks[0].decodes && !blocks[1].decodes;
    assert forall at :: 0 <= at < 3 ==> blocks[0].Covers(at);
  }

  /** `lines` are the decoded blocks with the numbers `cached`, the most recently used of `history`. */
  ghost predicate Mirrors(blocks: seq<Block>, history: seq<nat>, cached: seq<nat>, lines: seq<Line>) {
    && |cached| == |lines|
    && (forall i :: 0 <= i < |cached| ==>
          cached[i] < |blocks| && blocks[cached[i]].decodes &&
          lines[i] == Line(blocks[cached[i]].start, blocks[cached[i]].data))
    && MostRecent(history, cached)
  }

  lemma HitKeepsMirror(blocks: seq<Block>, history: seq<nat>, cached: seq<nat>, lines: seq<Line>, k: nat)
    requires Mirrors(blocks, history, cached, lines) && k < |cached|
    ensures Mirrors(blocks, history + [cached[k]], MoveToFront(cached, k), MoveToFront(lines, k))
  {
    HitKeepsMostRecent(history, cached, k);
  }

  lemma MissKeepsMirror(blocks: seq<Block>, history: seq<nat>, cached: seq<nat>, lines: seq<Line>, b: nat, at: nat)
    requires Mirrors(blocks, history, cached, lines) && b < |blocks| && blocks[b].decodes
    requires blocks[b].Covers(at) && forall i :: 0 <= i < |lines| ==> !lines[i].Covers(at)
    ensures Mirrors(blocks, history + [b], PushFront(cached, b),
                    PushFront(lines, Line(blocks[b].start, blocks[b].data)))
  {
    assert b !in cached;
    MissKeepsMostRecent(history, cached, b);
  }

  /** No two cached blocks overlap, so that at most one entry can match an offset. */
  lemma CachedBlocksDisjoint(blocks: seq<Block>, history: seq<nat>, cached: seq<nat>, lines: seq<Line>, i: nat, j: nat, at: nat)
    requires Consecutive(blocks) && Mirrors(blocks, history, cached, lines) && i < j < |lines|
    ensures !(lines[i].Covers(at) && lines[j].Covers(at))
  {
    if lines[i].Covers(at) && lines[j].Covers(at) {
      CoversUnique(blocks, cached[i], cached[j], at);
      assert false;
    }
  }

  class Reader {
    const blocks: seq<Block>
    const cache: BlockCache

    ghost const stream: seq<byte>
    ghost var history: seq<nat>  // every block asked for so far
    ghost var cached: seq<nat>   // the blocks in the cache, first entry first

    ghost predicate Valid()
      reads this, cache, cache.repr
    {
      Partition(blocks, stream) && cache.Valid() && Mirrors(blocks, history, cached, cache.lines)
    }

    constructor (blocks: seq<Block>, ghost stream: seq<byte>)
      requires Partition(blocks, stream)
      ensures Valid() && fresh(cache) && cache.repr == {} && history == []
      ensures this.blocks == blocks && this.stream == stream
    {
      this.blocks, this.stream := blocks, stream;
      cache := new BlockCache();
      history, cached := [], [];
    }

    /** The cache holds what replaying every access of its life through an LRU list gives. */
    lemma CacheIsReplay()
      requires Valid()
      ensures cached == Replay(history)
    {
      MostRecentUnique(history, cached, Replay(history));
    }

    /** Locates and decodes the block that contains `offset`. */
    method ReadBlock(offset: nat) returns (ok: bool, b: nat)
      requires Partition(blocks, stream)
      ensures ok <==> Readable(blocks, offset)
      ensures ok ==> b < |blocks| && blocks[b].Covers(offset) && blocks[b].decodes
    {
      b := 0;
      while b < |blocks| && !blocks[b].Covers(offset)
        invariant b <= |blocks|
        invariant forall i :: 0 <= i < b ==> !blocks[i].Covers(offset)
      {
        b := b + 1;
      }
      ok := b < |blocks| && blocks[b].decodes;
      if b < |blocks| && Readable(blocks, offset) {
        ghost var i :| 0 <= i < |blocks| && blocks[i].Covers(offset) && blocks[i].decodes;
        CoversUnique(blocks, i, b, offset);
      }
    }

    /** Puts a block that was not in the cache in front of it. */
    method Admit(b: nat, ghost at: nat)
      requires Valid() && b < |blocks| && blocks[b].Covers(at) && blocks[b].decodes
      requires forall i :: 0 <= i < |cache.lines| ==> !cache.lines[i].Covers(at)
      modifies this, cache, cache.repr
      ensures Valid() && fresh(cache.repr - old(cache.repr)) && history == old(history) + [b]
    {
      MissKeepsMirror(blocks, history, cached, cache.lines, b, at);
      cached, history := PushFront(cached, b), history + [b];
      var added := cache.AddNewBlock(blocks[b].data, blocks[b].start, |blocks[b].data|);
    }

    /** One access: the block comes from the cache or from the file, and becomes the newest. */
    method Fetch(offset: nat) returns (ok: bool, data: seq<byte>, start: nat, size: nat, ghost b: nat)
      requires Valid()
      modifies this, cache, cache.repr
      ensures Valid() && fresh(cache.repr - old(cache.repr))
      ensures ok <==> Readable(blocks, offset)
      ensures ok ==> b < |blocks| && blocks[b].Covers(offset) && blocks[b].decodes
      ensures ok ==> start == blocks[b].start && data == blocks[b].data && size == |data|
      ensures ok ==> history == old(history) + [b]
      ensures !ok ==> history == old(history)
    {
      ghost var lines := cache.lines;
      ghost var k;
      b := 0;
      ok, data, start, size, k := cache.GetCacheBlock(offset);
      if ok {
        b := cached[k];
        assert blocks[b].Covers(offset) && blocks[b].decodes;
        HitKeepsMirror(blocks, history, cached, lines, k);
        cached, history := MoveToFront(cached, k), history + [b];
      } else {
        var n;
        ok, n := ReadBlock(offset);
        if ok {
          b, data, start, size := n, blocks[n].data, blocks[n].start, |blocks[n].data|;
          Admit(n, offset);
        }
      }
    }

    /** The part of a read that lies in the block of its first byte. */
    method ReadInBlock(buffer: array<byte>, at: nat, offset: nat, length: nat) returns (ok: bool, n: nat, ghost b: nat)
      requires Valid() && at + length <= buffer.Length
      modifies this, cache, cache.repr, buffer
      ensures Valid() && fresh(cache.repr - old(cache.repr))
      ensures ok <==> Readable(blocks, offset)
      ensures ok ==> b < |blocks| && blocks[b].Covers(offset) && blocks[b].decodes
      ensures ok ==> n == Min(blocks[b].End() - offset, length) && history == old(history) + [b]
      ensures ok ==> Filled(old(buffer[..]), buffer[..], at, stream, offset, n)
      ensures !ok ==> buffer[..] == old(buffer[..]) && history == old(history)
    {
      var block, start, size;
      n := 0;
      ok, block, start, size, b := Fetch(offset);
      if ok {
        n := length;
        if start + size - offset < n {
          n := start + size - offset;
        }
        CopyBytes(block, offset - start, n, buffer, at);
      }
    }

    /** Reads up to `length` bytes from `offset` into `buffer[at..]`, one block per call. */
    method Read(buffer: array<byte>, at: nat, offset: nat, length: nat)
      returns (r: int, ghost run: nat, ghost used: seq<nat>)
      requires Valid() && at + length <= buffer.Length
      modifies this, cache, cache.repr, buffer
      ensures Valid() && fresh(cache.repr - old(cache.repr))
      ensures Answered(blocks, offset, length, r, run, used)
      ensures Filled(old(buffer[..]), buffer[..], at, stream, offset, run)
      ensures history == old(history) + used
      decreases length, 1
    {
      var ok, n, b := ReadInBlock(buffer, at, offset, length);
      if !ok {
        NothingAnswered(blocks, offset, length);
        return READER_ERROR, 0, [];
      }
      if length - n > 0 {
        ghost var middle := buffer[..];
        r, run, used := ReadRest(buffer, at, offset, length, n, b);
        FilledTwice(old(buffer[..]), middle, buffer[..], at, stream, offset, n, run - n);
        return;
      }
      AnsweredInBlock(blocks, b, offset, length);
      return n, n, [b];
    }

    /** The rest of a read, after the `n` bytes that are in block `b`. */
    method ReadRest(buffer: array<byte>, at: nat, offset: nat, length: nat, n: nat, ghost b: nat)
      returns (r: int, ghost run: nat, ghost used: seq<nat>)
      requires Valid() && at + length <= buffer.Length && history != [] && history[|history| - 1] == b
      requires b < |blocks| && blocks[b].Covers(offset) && blocks[b].decodes && n == blocks[b].End() - offset < length
      modifies this, cache, cache.repr, buffer
      ensures Valid() && fresh(cache.repr - old(cache.repr))
      ensures Answered(blocks, offset, length, r, run, used) && run >= n
      ensures Filled(old(buffer[..]), buffer[..], at + n, stream, offset + n, run - n)
      ensures history == old(history)[..|old(history)| - 1] + used
      decreases length, 0
    {
      ghost var m, later, past := 0, [], history;
      var rest;
      rest, m, later := Read(buffer, at + n, offset + n, length - n);
      AnsweredThroughBlock(blocks, b, offset, length, n, rest, m, later);
      assert past + later == past[..|past| - 1] + ([b] + later);
      return n + rest, n + m, [b] + later;
    }
  }
}
