/** The block cache of the XZ reader: a doubly linked list on the heap, kept in recency order. */
module XzCache {
  import opened Bytes
  import opened XzLru

  /** One decoded block: its address in the uncompressed stream and its bytes. */
  datatype Line = Line(offset: nat, data: seq<byte>) {
    predicate Covers(at: int) {
      offset <= at < offset + |data|
    }
  }

  class Entry {
    var offset: nat
    var size: nat
    var data: seq<byte>
    var next: Entry?
    var prev: Entry?

    constructor (data: seq<byte>, offset: nat, size: nat)
      ensures this.data == data && this.offset == offset && this.size == size
    {
      this.data, this.offset, this.size := data, offset, size;
      next, prev := null, null;
    }
  }

  ghost function At(s: seq<Entry>, i: int): Entry? {
    if 0 <= i < |s| then s[i] else null
  }

  /** The nodes of `s` are distinct nodes of `repr`, linked to each other in this order, both ways. */
  ghost predicate Chain(s: seq<Entry>, repr: set<Entry>)
    reads repr
  {
    && (forall i :: 0 <= i < |s| ==> s[i] in repr)
    && (forall i, j :: 0 <= i < j < |s| ==> s[i] != s[j])
    && (forall i {:trigger s[i].next} :: 0 <= i < |s| ==> s[i].next == At(s, i + 1))
    && (forall i {:trigger s[i].prev} :: 0 <= i < |s| ==> s[i].prev == At(s, i - 1))
  }

  /** Node by node, `s` holds the blocks `lines`. */
  ghost predicate Holds(s: seq<Entry>, lines: seq<Line>, repr: set<Entry>)
    reads repr
  {
    && |s| == |lines|
    && (forall i :: 0 <= i < |s| ==> s[i] in repr)
    && (forall i {:trigger s[i].offset} {:trigger s[i].data} {:trigger s[i].size} :: 0 <= i < |s| ==>
          s[i].offset == lines[i].offset && s[i].data == lines[i].data && s[i].size == |lines[i].data|)
  }

  lemma HoldsInFront(s: seq<Entry>, lines: seq<Line>, repr: set<Entry>, k: nat)
    requires k < |s| && Holds(s, lines, repr)
    ensures Holds(MoveToFront(s, k), MoveToFront(lines, k), repr)
  {
  }

  class BlockCache {
    var numBlocks: nat
    var first: Entry?
    var last: Entry?

    // The list read from `first`, as nodes and as the blocks that they hold.
    ghost var order: seq<Entry>
    ghost var lines: seq<Line>
    ghost var repr: set<Entry>

    ghost predicate Linked()
      reads this, repr
    {
      Chain(order, repr) && first == At(order, 0) && last == At(order, |order| - 1)
    }

    ghost predicate Valid()
      reads this, repr
    {
      Linked() && Holds(order, lines, repr) && numBlocks == |order| <= MAX_NUM_BLOCKS_CACHE
    }

    constructor ()
      ensures Valid() && lines == [] && order == [] && repr == {}
    {
      numBlocks, first, last := 0, null, null;
      order, lines, repr := [], [], {};
    }

    /** Takes an entry other than the first out of the list. */
    method Unlink(entry: Entry, ghost k: nat)
      requires Linked() && 0 < k < |order| && order[k] == entry
      modifies this`last, this`order, repr`next, repr`prev
      ensures Linked() && order == old(order)[..k] + old(order)[k + 1..]
    {
      assert entry.prev == order[k - 1] && entry.next == At(order, k + 1);
      if entry.next != null {
        entry.next.prev := entry.prev;
      } else {
        assert entry == last;
        last := entry.prev;
      }
      entry.prev.next := entry.next;
      order := order[..k] + order[k + 1..];
    }

    /** Puts an unlinked entry before the first one. */
    method LinkFirst(entry: Entry)
      requires Linked() && entry !in order
      modifies this`first, this`last, this`order, this`repr, repr`prev, entry`next, entry`prev
      ensures Linked() && order == [entry] + old(order) && repr == old(repr) + {entry}
    {
      entry.prev := null;
      entry.next := first;
      if first != null {
        first.prev := entry;
      }
      first := entry;
      if last == null {
        last := entry;
      }
      order, repr := [entry] + order, repr + {entry};
    }

    /** Moves an entry, wherever it is in the list, to the front. */
    method MoveToCacheHead(entry: Entry, ghost k: nat)
      requires Valid() && k < |order| && order[k] == entry
      modifies this`first, this`last, this`order, this`lines, this`repr, repr`next, repr`prev
      ensures Valid()
      ensures order == MoveToFront(old(order), k) && lines == MoveToFront(old(lines), k)
      ensures repr == old(repr)
    {
      ghost var s, blocks := order, lines;
      if first != entry {
        Unlink(entry, k);
        LinkFirst(entry);
        assert order == MoveToFront(s, k) by { MoveToFrontInSteps(s, k); }
      } else {
        assert k == 0;
        assert order == MoveToFront(s, k);
      }
      lines := MoveToFront(blocks, k);
      assert Holds(order, lines, repr) by { HoldsInFront(s, blocks, repr, k); }
    }

    /** Looks for the block that covers `offset`; a hit makes that block the newest. */
    method GetCacheBlock(offset: nat) returns (hit: bool, data: seq<byte>, start: nat, size: nat, ghost k: nat)
      requires Valid()
      modifies this`first, this`last, this`order, this`lines, this`repr, repr`next, repr`prev
      ensures Valid() && repr == old(repr)
      ensures !hit ==> lines == old(lines) && forall i :: 0 <= i < |lines| ==> !lines[i].Covers(offset)
      ensures hit ==> k < |old(lines)| && old(lines)[k].Covers(offset) && Line(start, data) == old(lines)[k]
      ensures hit ==> size == |data| && forall i :: 0 <= i < k ==> !old(lines)[i].Covers(offset)
      ensures hit ==> lines == MoveToFront(old(lines), k)
    {
      hit, data, start, size, k := false, [], 0, 0, 0;
      var entry := first;
      while entry != null
        invariant k <= |order| && entry == At(order, k)
        invariant forall i :: 0 <= i < k ==> !lines[i].Covers(offset)
        decreases |order| - k
      {
        var entryEnd := entry.offset + entry.size;
        if entry.offset <= offset && offset < entryEnd {
          data, start, size := entry.data, entry.offset, entry.size;
          MoveToCacheHead(entry, k);
          return true, data, start, size, k;
        }
        entry := entry.next;
        k := k + 1;
      }
    }

    /** Puts a new entry in front of a cache that is not full. */
    method AddEntry(block: seq<byte>, offset: nat, size: nat)
      requires Valid() && size == |block| && numBlocks < MAX_NUM_BLOCKS_CACHE
      modifies this, repr
      ensures Valid() && lines == PushFront(old(lines), Line(offset, block)) && fresh(repr - old(repr))
    {
      ghost var before := lines;
      var entry := new Entry(block, offset, size);
      LinkFirst(entry);
      numBlocks := numBlocks + 1;
      lines := PushFront(before, Line(offset, block));
    }

    /** Moves the last entry of a full cache to the front, and gives it another block. */
    method ReuseLast(block: seq<byte>, offset: nat, size: nat)
      requires Valid() && size == |block| && numBlocks == MAX_NUM_BLOCKS_CACHE
      modifies this, repr
      ensures Valid() && lines == PushFront(old(lines), Line(offset, block)) && repr == old(repr)
    {
      ghost var before := lines;
      MoveToCacheHead(last, |order| - 1);
      first.data := block;
      first.offset := offset;
      first.size := size;
      lines := PushFront(before, Line(offset, block));
    }

    /** Inserts a block in front; a full cache reuses the entry of its last block for it. */
    method AddNewBlock(block: seq<byte>, offset: nat, size: nat) returns (added: bool)
      requires Valid() && size == |block|
      modifies this, repr
      ensures Valid() && added
      ensures lines == PushFront(old(lines), Line(offset, block))
      ensures fresh(repr - old(repr))
      ensures |old(order)| == MAX_NUM_BLOCKS_CACHE ==> repr == old(repr)
    {
      if numBlocks < MAX_NUM_BLOCKS_CACHE {
        AddEntry(block, offset, size);
      } else {
        ReuseLast(block, offset, size);
      }
      return true;
    }

    /** Empties the cache, visiting every entry once, in list order. */
    method FreeCacheEntries() returns (ghost freed: seq<Entry>)
      requires Valid()
      modifies this
      ensures Valid() && lines == [] && order == []
      ensures freed == old(order)
    {
      var count := 0;
      var current := first;
      if current != null {
        assert current.prev == null;
        assert last.next == null;
      }
      freed := [];
      while current != null
        invariant count == |freed| <= |order|
        invariant freed == order[..count] && current == At(order, count)
        decreases |order| - count
      {
        var previous := current;
        current := current.next;
        if current != null {
          assert previous == current.prev;
        }
        freed := freed + [previous];
        count := count + 1;
      }
      assert count == numBlocks;
      numBlocks, first, last := 0, null, null;
      order, lines, repr := [], [], {};
    }
  }
}
