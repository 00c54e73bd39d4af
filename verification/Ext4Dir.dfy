/** Directories: entries that tile blocks, a buffer for one block, and listings that can be resumed. */
module Ext4Dir {
  import opened Bytes
  import opened Radix
  import opened Ext4Disk
  import opened Ext4Read

  datatype Dentry = Dentry(inode: nat, recLen: nat, name: seq<byte>)

  const DENTRY_HEADER: nat := 8

  /** The bytes at `at` are those of an entry: inode in 4 bytes, record length in 2, name length in 1, one more, the name. */
  predicate EntryBytes(block: seq<byte>, at: nat, d: Dentry) {
    && at + 8 + |d.name| <= |block| && WordAt(block, at, d.inode)
    && d.recLen < 65536 && block[at + 4] == d.recLen % 256 && block[at + 5] == d.recLen / 256
    && block[at + 6] == |d.name| && forall k :: 0 <= k < |d.name| ==> d.name[k] == block[at + 8 + k]
  }

  /** The entry that a block holds at `at`: inode number, record length, name length, type, name. */
  function Decode(block: seq<byte>, at: nat): Option<Dentry> {
    if at + DENTRY_HEADER <= |block| && at + DENTRY_HEADER + block[at + 6] <= |block| then
      var lo: int, hi: int := block[at + 4], block[at + 5];
      Some(Dentry(ReadU32(block, at).value, lo + 0x100 * hi, Slice(block, at + DENTRY_HEADER, block[at + 6])))
    else None
  }

  /** What is decoded is what the bytes say. */
  lemma DecodeIff(block: seq<byte>, at: nat)
    ensures Decode(block, at).Some? <==> at + 8 <= |block| && at + 8 + block[at + 6] <= |block|
    ensures Decode(block, at).Some? ==> EntryBytes(block, at, Decode(block, at).value)
  {
  }

  /** From `at` on, a block is filled with entries, the last of which ends where the block does. */
  predicate Tiled(block: seq<byte>, at: nat)
    decreases |block| - at
  {
    at == |block| ||
    (at < |block| && Decode(block, at).Some? &&
     DENTRY_HEADER + |Decode(block, at).value.name| <= Decode(block, at).value.recLen <= |block| - at &&
     Tiled(block, at + Decode(block, at).value.recLen))
  }

  // ----- The content of a directory: whole blocks of entries

  type Blocks = seq<seq<byte>>

  ghost predicate AllTiled(blocks: Blocks, bs: nat) {
    bs > 0 && forall l :: 0 <= l < |blocks| ==> |blocks[l]| == bs && Tiled(blocks[l], 0)
  }

  function Size(blocks: Blocks, bs: nat): nat {
    Mul(|blocks|, bs)
  }

  /** An offset where an entry begins, or the end of the directory. */
  ghost predicate OnEntry(blocks: Blocks, bs: nat, offset: nat)
    requires AllTiled(blocks, bs)
  {
    offset == Size(blocks, bs) ||
    (Div(offset, bs) < |blocks| && Tiled(blocks[Div(offset, bs)], Mod(offset, bs)))
  }

  /** The entry at an offset, read from the directory itself. */
  ghost function DentryAt(blocks: Blocks, bs: nat, offset: nat): (d: Dentry)
    requires AllTiled(blocks, bs) && offset < Size(blocks, bs) && OnEntry(blocks, bs, offset)
  {
    Decode(blocks[Div(offset, bs)], Mod(offset, bs)).value
  }

  lemma NextOnEntry(blocks: Blocks, bs: nat, offset: nat)
    requires AllTiled(blocks, bs) && offset < Size(blocks, bs) && OnEntry(blocks, bs, offset)
    ensures var next := offset + DentryAt(blocks, bs, offset).recLen;
            offset < next <= Size(blocks, bs) && OnEntry(blocks, bs, next)
  {
    var l, k, n := Div(offset, bs), Mod(offset, bs), DentryAt(blocks, bs, offset).recLen;
    DivMod(offset, bs);
    MulSum(l, 1, bs);
    MulAtLeast(1, bs);
    if k + n < bs {
      DivOf(l, k + n, bs);
    } else {
      DivOf(l + 1, 0, bs);
    }
    if l + 1 < |blocks| { ProductBelow(l + 1, bs, |blocks|); }
  }

  /** The entries of a directory by offset. */
  type Layout = map<nat, Dentry>

  /** Each entry ends where the next one begins, the last one at the end of the directory. */
  ghost predicate Linked(m: Layout, size: nat) {
    (size > 0 ==> 0 in m) && forall at {:trigger HasNext(m, size, at)} :: at in m ==> HasNext(m, size, at)
  }

  ghost predicate HasNext(m: Layout, size: nat, at: nat)
    requires at in m
  {
    var next := at + m[at].recLen;
    at < next <= size && (next == size || next in m)
  }

  /** `m` has the entries that the blocks hold. */
  ghost predicate IsLayout(m: Layout, blocks: Blocks, bs: nat) {
    && AllTiled(blocks, bs)
    && forall at: nat {:trigger OnEntry(blocks, bs, at)} ::
         (at in m <==> at < Size(blocks, bs) && OnEntry(blocks, bs, at)) &&
         (at < Size(blocks, bs) && OnEntry(blocks, bs, at) ==> m[at] == DentryAt(blocks, bs, at))
  }

  ghost function LayoutOf(blocks: Blocks, bs: nat): (m: Layout)
    requires AllTiled(blocks, bs)
    ensures IsLayout(m, blocks, bs)
  {
    map at: nat | at < Size(blocks, bs) && OnEntry(blocks, bs, at) :: DentryAt(blocks, bs, at)
  }

  /** Following record lengths from the start of a directory never leaves its entries. */
  lemma LayoutLinked(m: Layout, blocks: Blocks, bs: nat)
    requires IsLayout(m, blocks, bs)
    ensures Linked(m, Size(blocks, bs))
  {
    if Size(blocks, bs) > 0 {
      DivOf(0, 0, bs);
      assert OnEntry(blocks, bs, 0);
    }
    forall at | at in m
      ensures 0 < m[at].recLen && at + m[at].recLen <= Size(blocks, bs)
      ensures at + m[at].recLen == Size(blocks, bs) || at + m[at].recLen in m
    {
      assert OnEntry(blocks, bs, at);
      NextOnEntry(blocks, bs, at);
    }
  }

  /** The inode is a directory with this content: its blocks can be looked up, and hold these bytes. */
  ghost predicate DirHolds(fs: FileSystem, dir: Inode, blocks: Blocks) {
    && InodeOk(fs, dir) && BlocksInside(fs, dir)
    && AllTiled(blocks, fs.volume.blockSize) && dir.size == Size(blocks, fs.volume.blockSize) < TWO_64 / 2
    && (forall l: nat {:trigger GoodLookup(fs, dir, l)} :: l == 0 || l < |blocks| ==> GoodLookup(fs, dir, l))
    && (forall l: nat {:trigger BlockOf(fs, dir, l)} :: l < |blocks| ==>
          && BlockOf(fs, dir, l) != 0
          && blocks[l] == Slice(fs.volume.disk, Mul(BlockOf(fs, dir, l), fs.volume.blockSize), fs.volume.blockSize))
  }

  /** The bytes of a file from `at` on. */
  ghost function FileSlice(fs: FileSystem, inode: Inode, at: nat, n: nat): (r: seq<byte>)
    requires InodeOk(fs, inode) && BlocksInside(fs, inode)
    ensures |r| == n && forall k :: 0 <= k < n ==> r[k] == FileByte(fs, inode, at + k)
  {
    seq<byte>(n, k requires 0 <= k < n => FileByte(fs, inode, at + k))
  }

  lemma BlockIsFile(fs: FileSystem, dir: Inode, blocks: Blocks, l: nat, k: nat)
    requires DirHolds(fs, dir, blocks) && l < |blocks| && k < fs.volume.blockSize
    ensures FileByte(fs, dir, Mul(l, fs.volume.blockSize) + k) == blocks[l][k]
  {
    DivOf(l, k, fs.volume.blockSize);
    assert BlockOf(fs, dir, l) != 0;
  }

  lemma EntryMoved(block: seq<byte>, at: nat, bytes: seq<byte>, d: Dentry)
    requires EntryBytes(block, at, d) && |bytes| == 8 + |d.name|
    requires forall k :: 0 <= k < |bytes| ==> bytes[k] == block[at + k]
    ensures EntryBytes(bytes, 0, d)
  {
    assert bytes[0] == block[at] && bytes[1] == block[at + 1] && bytes[2] == block[at + 2] && bytes[3] == block[at + 3];
  }

  lemma EntryInBlock(m: Layout, blocks: Blocks, bs: nat, at: nat)
    requires IsLayout(m, blocks, bs) && at in m
    ensures Div(at, bs) < |blocks| && EntryBytes(blocks[Div(at, bs)], Mod(at, bs), m[at])
  {
    assert OnEntry(blocks, bs, at);
    DivBelow(at, bs, |blocks|);
    DecodeIff(blocks[Div(at, bs)], Mod(at, bs));
  }

  lemma SliceInBlock(fs: FileSystem, dir: Inode, blocks: Blocks, at: nat, l: nat, k0: nat, bytes: seq<byte>)
    requires DirHolds(fs, dir, blocks) && l < |blocks| && k0 + |bytes| <= fs.volume.blockSize
    requires at == Mul(l, fs.volume.blockSize) + k0 && bytes == FileSlice(fs, dir, at, |bytes|)
    ensures forall k :: 0 <= k < |bytes| ==> bytes[k] == blocks[l][k0 + k]
  {
    forall k {:trigger bytes[k]} | 0 <= k < |bytes| ensures bytes[k] == blocks[l][k0 + k] {
      ByteInBlock(fs, dir, blocks, at, l, k0, k);
    }
  }

  lemma ByteInBlock(fs: FileSystem, dir: Inode, blocks: Blocks, at: nat, l: nat, k0: nat, k: nat)
    requires DirHolds(fs, dir, blocks) && l < |blocks| && k0 + k < fs.volume.blockSize && at == Mul(l, fs.volume.blockSize) + k0
    ensures |blocks[l]| == fs.volume.blockSize && FileByte(fs, dir, at + k) == blocks[l][k0 + k]
  {
    BlockIsFile(fs, dir, blocks, l, k0 + k);
  }

  /** The entries of a layout are what the bytes of the directory say. */
  lemma EntryIsBytes(fs: FileSystem, dir: Inode, blocks: Blocks, m: Layout, at: nat)
    requires DirHolds(fs, dir, blocks) && IsLayout(m, blocks, fs.volume.blockSize) && at in m
    ensures EntryBytes(FileSlice(fs, dir, at, 8 + |m[at].name|), 0, m[at])
  {
    var l, k0 := Div(at, fs.volume.blockSize), Mod(at, fs.volume.blockSize);
    DivMod(at, fs.volume.blockSize);
    EntryInBlock(m, blocks, fs.volume.blockSize, at);
    MovedEntry(fs, dir, blocks, at, l, k0, m[at]);
  }

  lemma MovedEntry(fs: FileSystem, dir: Inode, blocks: Blocks, at: nat, l: nat, k0: nat, d: Dentry)
    requires DirHolds(fs, dir, blocks) && l < |blocks| && at == Mul(l, fs.volume.blockSize) + k0 && EntryBytes(blocks[l], k0, d)
    ensures EntryBytes(FileSlice(fs, dir, at, 8 + |d.name|), 0, d)
  {
    var bytes := FileSlice(fs, dir, at, 8 + |d.name|);
    SliceInBlock(fs, dir, blocks, at, l, k0, bytes);
    EntryMoved(blocks[l], k0, bytes, d);
  }

  // ----- The buffer

  /** The block of a directory that is in the buffer, and its number. */
  class DirContext {
    var lblock: nat
    const buf: array<byte>

    ghost predicate Valid(blocks: Blocks)
      reads this, buf
    {
      lblock < |blocks| ==> buf[..] == blocks[lblock]
    }

    constructor (blockSize: nat)
      ensures fresh(buf) && buf.Length == blockSize
    {
      lblock := 0;
      buf := new byte[blockSize];
    }

    /** Puts block `l` into the buffer. */
    method Update(fs: FileSystem, dir: Inode, l: nat, ghost blocks: Blocks)
      requires DirHolds(fs, dir, blocks) && buf.Length == fs.volume.blockSize && (l == 0 || l < |blocks|)
      modifies this, buf
      ensures Valid(blocks) && lblock == l
    {
      var bs := fs.volume.blockSize;
      if l > 0 { ProductBelow(l, bs, |blocks|); }
      SizeInBlocks(l, bs, |blocks|);
      assert GoodLookup(fs, dir, l);
      var p, len := InodeGetDataPblock(fs, dir, l);
      assert p.value == BlockOf(fs, dir, l);
      var ok := DiskRead(fs.volume.disk, Mul(p.value, bs), bs, buf, 0);
      lblock := l;
    }

    method Reset(fs: FileSystem, dir: Inode, ghost blocks: Blocks)
      requires DirHolds(fs, dir, blocks) && buf.Length == fs.volume.blockSize
      modifies this, buf
      ensures Valid(blocks)
    {
      Update(fs, dir, 0, blocks);
    }

    /** The entry at an offset, through the buffer; there is none at the end of the directory. */
    method DentryGet(fs: FileSystem, dir: Inode, offset: nat, ghost blocks: Blocks, ghost m: Layout)
      returns (r: Option<Dentry>)
      requires DirHolds(fs, dir, blocks) && buf.Length == fs.volume.blockSize && Valid(blocks)
      requires IsLayout(m, blocks, fs.volume.blockSize) && (offset == dir.size || offset in m)
      modifies this, buf
      ensures Valid(blocks)
      ensures r == if offset == dir.size then None else Some(m[offset])
      decreases lblock != Div(offset, fs.volume.blockSize)
    {
      var bs := fs.volume.blockSize;
      var l, k := Div(offset, bs), Mod(offset, bs);
      if dir.size == offset {
        return None;
      }
      assert OnEntry(blocks, bs, offset);
      if l == lblock {
        r := Decode(buf[..], k);
      } else {
        DivBelow(offset, bs, |blocks|);
        Update(fs, dir, l, blocks);
        r := DentryGet(fs, dir, offset, blocks, m);
      }
    }
  }

  lemma SizeInBlocks(l: nat, bs: nat, n: nat)
    requires bs > 0 && (l == 0 || l < n)
    ensures l <= BytesToBlocks(Mul(n, bs), bs)
  {
    DivOf(n, 0, bs);
  }

  // ----- Walking a directory

  /** Following record lengths from one offset comes to the entry at another. */
  ghost predicate Reaches(m: Layout, size: nat, from: nat, at: nat)
    requires Linked(m, size) && (from == size || from in m)
    decreases size - from
  {
    from != size && (at == from || (assert HasNext(m, size, from); Reaches(m, size, from + m[from].recLen, at)))
  }

  lemma {:induction false} ReachesAhead(m: Layout, size: nat, from: nat, at: nat)
    requires Linked(m, size) && (from == size || from in m) && Reaches(m, size, from, at)
    ensures from <= at < size && at in m
    decreases size - from
  {
    assert HasNext(m, size, from);
    if at != from {
      var next := from + m[from].recLen;
      assert Reaches(m, size, next, at);
      ReachesAhead(m, size, next, at);
    }
  }

  // ----- Listing

  /** What a listing gives for an entry: its name, and the offset from which to go on after it. */
  datatype Item = Item(name: seq<byte>, next: nat)

  /** The bytes of a name up to the first zero. */
  function CString(name: seq<byte>): seq<byte> {
    if name == [] || name[0] == 0 then [] else [name[0]] + CString(name[1..])
  }

  /** A listing gives the entries that are in use and have a name. */
  predicate IsLive(d: Dentry) {
    d.inode != 0 && CString(d.name) != []
  }

  /** The items of all live entries from an offset on, in directory order. */
  ghost function Live(m: Layout, size: nat, offset: nat): (items: seq<Item>)
    requires Linked(m, size) && (offset == size || offset in m)
    ensures forall i :: 0 <= i < |items| ==> items[i].next == size || items[i].next in m
    decreases size - offset
  {
    if offset == size then []
    else
      assert HasNext(m, size, offset);
      var next := offset + m[offset].recLen;
      if IsLive(m[offset]) then [Item(CString(m[offset].name), next)] + Live(m, size, next) else Live(m, size, next)
  }

  /** `shown` is the name up to its first zero. */
  predicate NameShown(shown: seq<byte>, name: seq<byte>) {
    && |shown| <= |name| && (forall i :: 0 <= i < |shown| ==> shown[i] == name[i] && shown[i] != 0)
    && (|shown| < |name| ==> name[|shown|] == 0)
  }

  lemma {:induction false} CStringIs(name: seq<byte>)
    ensures NameShown(CString(name), name)
    ensures CString(name) == [] <==> name == [] || name[0] == 0
  {
    if name != [] && name[0] != 0 { CStringIs(name[1..]); }
  }

  /** `ats` are, in ascending order, the offsets from `from` on of the entries that are in use and have a name. */
  ghost predicate Enumerates(m: Layout, size: nat, from: nat, ats: seq<nat>)
    requires Linked(m, size) && (from == size || from in m)
  {
    && (forall i, j :: 0 <= i < j < |ats| ==> ats[i] < ats[j])
    && forall at: nat :: at in ats <==> Reaches(m, size, from, at) && Listed(m, at)
  }

  /** Item by item, a listing gives the names of the entries at these offsets, and where to go on. */
  ghost predicate Shows(m: Layout, ats: seq<nat>, items: seq<Item>) {
    |items| <= |ats| && forall i :: 0 <= i < |items| ==>
      ats[i] in m && items[i].next == ats[i] + m[ats[i]].recLen && NameShown(items[i].name, m[ats[i]].name)
  }

  /** The entry at `at` is listed. */
  ghost predicate Listed(m: Layout, at: nat) {
    at in m && m[at].inode != 0 && m[at].name != [] && m[at].name[0] != 0
  }

  lemma ListedIsLive(m: Layout, at: nat)
    requires at in m
    ensures Listed(m, at) <==> IsLive(m[at])
  {
    CStringIs(m[at].name);
  }

  lemma ReachesNext(m: Layout, size: nat, from: nat, at: nat)
    requires Linked(m, size) && from in m && from != size && HasNext(m, size, from)
    ensures Reaches(m, size, from, at) <==> at == from || Reaches(m, size, from + m[from].recLen, at)
    ensures Reaches(m, size, from + m[from].recLen, at) ==> at > from
  {
    if Reaches(m, size, from + m[from].recLen, at) {
      ReachesAhead(m, size, from + m[from].recLen, at);
    }
  }

  lemma EnumeratesNext(m: Layout, size: nat, from: nat, rest: seq<nat>)
    requires Linked(m, size) && from in m && from != size && HasNext(m, size, from)
    requires Enumerates(m, size, from + m[from].recLen, rest)
    ensures Enumerates(m, size, from, if IsLive(m[from]) then [from] + rest else rest)
  {
    var next, live := from + m[from].recLen, IsLive(m[from]);
    var ats: seq<nat> := if live then [from] + rest else rest;
    ListedIsLive(m, from);
    forall i: nat, j: nat | i < j < |ats| ensures ats[i] < ats[j] {
      if live && i == 0 {
        assert rest[j - 1] in rest;
        ReachesNext(m, size, from, rest[j - 1]);
      }
    }
    forall at: nat ensures at in ats <==> Reaches(m, size, from, at) && Listed(m, at) {
      ReachesNext(m, size, from, at);
      assert at in ats <==> (live && at == from) || at in rest;
    }
  }

  lemma ShowsNext(m: Layout, size: nat, from: nat, rest: seq<nat>)
    requires Linked(m, size) && from in m && from != size && HasNext(m, size, from)
    requires var items := Live(m, size, from + m[from].recLen); |rest| == |items| && Shows(m, rest, items)
    ensures var ats: seq<nat>, items := if IsLive(m[from]) then [from] + rest else rest, Live(m, size, from);
            |ats| == |items| && Shows(m, ats, items)
  {
    CStringIs(m[from].name);
    LiveStep(m, size, from);
    var ats: seq<nat>, items := if IsLive(m[from]) then [from] + rest else rest, Live(m, size, from);
    if IsLive(m[from]) {
      forall i: nat | i < |items|
        ensures ats[i] in m && items[i].next == ats[i] + m[ats[i]].recLen && NameShown(items[i].name, m[ats[i]].name)
      {
        if i > 0 { assert ats[i] == rest[i - 1] && items[i] == Live(m, size, from + m[from].recLen)[i - 1]; }
      }
    }
  }

  /** The items of a directory are those of the entries in use that have a name, in order. */
  lemma {:induction false} LiveOffsets(m: Layout, size: nat, from: nat) returns (ats: seq<nat>)
    requires Linked(m, size) && (from == size || from in m)
    ensures Enumerates(m, size, from, ats) && |ats| == |Live(m, size, from)| && Shows(m, ats, Live(m, size, from))
    decreases size - from
  {
    ats := [];
    if from != size {
      assert HasNext(m, size, from);
      ats := LiveOffsets(m, size, from + m[from].recLen);
      EnumeratesNext(m, size, from, ats);
      ShowsNext(m, size, from, ats);
      ats := if IsLive(m[from]) then [from] + ats else ats;
    }
  }

  lemma LiveStep(m: Layout, size: nat, offset: nat)
    requires Linked(m, size) && offset in m && offset != size
    ensures HasNext(m, size, offset)
    ensures var next := offset + m[offset].recLen;
            Live(m, size, offset) == (if IsLive(m[offset]) then [Item(CString(m[offset].name), next)] else []) + Live(m, size, next)
  {
    assert HasNext(m, size, offset);
  }

  /** Going on from the offset that came with item `k` gives the items after it: none twice, none left out. */
  lemma {:induction false} LiveResumes(m: Layout, size: nat, offset: nat, k: nat)
    requires Linked(m, size) && (offset == size || offset in m) && k < |Live(m, size, offset)|
    ensures Live(m, size, Live(m, size, offset)[k].next) == Live(m, size, offset)[k + 1..]
    decreases size - offset
  {
    assert HasNext(m, size, offset);
    var next := offset + m[offset].recLen;
    if !IsLive(m[offset]) {
      LiveResumes(m, size, next, k);
    } else if k > 0 {
      LiveResumes(m, size, next, k - 1);
    }
  }

  lemma TakeMore(live: seq<Item>, k: nat, n: nat)
    requires k + n <= |live|
    ensures live[..k] + live[k..][..n] == live[..k + n] && live[k..][n..] == live[k + n..]
  {
  }

  /** The scan of one listing, by a caller that takes `room` items and refuses the one after. */
  method ReaddirLoop(fs: FileSystem, dir: Inode, from: nat, room: nat, ghost blocks: Blocks, ghost m: Layout)
    returns (listed: seq<Item>)
    requires DirHolds(fs, dir, blocks) && IsLayout(m, blocks, fs.volume.blockSize)
    requires Linked(m, dir.size) && (from == dir.size || from in m)
    ensures listed == Live(m, dir.size, from)[..Min(room, |Live(m, dir.size, from)|)]
  {
    listed := [];
    var offset := from;
    ghost var live := Live(m, dir.size, from);
    var ctx := new DirContext(fs.volume.blockSize);
    ctx.Reset(fs, dir, blocks);
    while true
      invariant ctx.Valid(blocks) && fresh(ctx) && fresh(ctx.buf)
      invariant (offset == dir.size || offset in m) && |listed| <= room
      invariant live == listed + Live(m, dir.size, offset)
      decreases dir.size - offset
    {
      var dentry := ctx.DentryGet(fs, dir, offset, blocks, m);
      if dentry.None? {
        break;
      }
      LiveStep(m, dir.size, offset);
      offset := offset + dentry.value.recLen;
      if dentry.value.inode == 0 {
        continue;
      }
      var name := CString(dentry.value.name);
      if name != [] {
        if |listed| == room {
          break;
        }
        listed := listed + [Item(name, offset)];
      }
    }
  }

  /** One listing: the first `room` of the entries in use that have a name. */
  method OpReaddir(fs: FileSystem, dir: Inode, from: nat, room: nat, ghost blocks: Blocks, ghost m: Layout)
    returns (listed: seq<Item>, ghost ats: seq<nat>)
    requires DirHolds(fs, dir, blocks) && IsLayout(m, blocks, fs.volume.blockSize)
    requires Linked(m, dir.size) && (from == dir.size || from in m)
    ensures listed == Live(m, dir.size, from)[..Min(room, |Live(m, dir.size, from)|)]
    ensures Enumerates(m, dir.size, from, ats) && |listed| == Min(room, |ats|) && Shows(m, ats, listed)
  {
    listed := ReaddirLoop(fs, dir, from, room, blocks, m);
    ats := LiveOffsets(m, dir.size, from);
    ShowsPrefix(m, ats, Live(m, dir.size, from), listed);
  }

  lemma ShowsPrefix(m: Layout, ats: seq<nat>, live: seq<Item>, items: seq<Item>)
    requires Shows(m, ats, live) && items <= live
    ensures Shows(m, ats, items)
  {
  }

  lemma SumNext(rooms: seq<nat>, i: nat)
    requires i < |rooms|
    ensures Sum(rooms[..i + 1]) == Sum(rooms[..i]) + rooms[i]
  {
    assert rooms[..i + 1][..i] == rooms[..i];
  }

  /** Listings one after the other, each going on from the offset of the last item taken. */
  method ListPieces(fs: FileSystem, dir: Inode, rooms: seq<nat>, ghost blocks: Blocks, ghost m: Layout)
    returns (all: seq<Item>)
    requires DirHolds(fs, dir, blocks) && IsLayout(m, blocks, fs.volume.blockSize) && Linked(m, dir.size)
    ensures var live := Live(m, dir.size, 0); all == live[..Min(Sum(rooms), |live|)]
  {
    all := [];
    var offset := 0;
    ghost var live, room := Live(m, dir.size, 0), 0;
    for i := 0 to |rooms|
      invariant (offset == dir.size || offset in m) && |all| == Min(room, |live|) && all == live[..|all|]
      invariant Live(m, dir.size, offset) == live[|all|..] && room == Sum(rooms[..i])
    {
      SumNext(rooms, i);
      var piece, pieceAts := OpReaddir(fs, dir, offset, rooms[i], blocks, m);
      if piece != [] {
        LiveResumes(m, dir.size, offset, |piece| - 1);
        offset := piece[|piece| - 1].next;
      }
      TakeMore(live, |all|, |piece|);
      all, room := all + piece, room + rooms[i];
    }
    assert rooms[..|rooms|] == rooms;
  }

  /** Listing in pieces gives the live entries of the directory, once and in order. */
  method ListInPieces(fs: FileSystem, dir: Inode, rooms: seq<nat>, ghost blocks: Blocks)
    returns (all: seq<Item>, ghost ats: seq<nat>)
    requires DirHolds(fs, dir, blocks)
    ensures var m := LayoutOf(blocks, fs.volume.blockSize);
            && Linked(m, dir.size) && all == Live(m, dir.size, 0)[..Min(Sum(rooms), |Live(m, dir.size, 0)|)]
            && Enumerates(m, dir.size, 0, ats) && |all| == Min(Sum(rooms), |ats|) && Shows(m, ats, all)
  {
    ghost var m := LayoutOf(blocks, fs.volume.blockSize);
    LayoutLinked(m, blocks, fs.volume.blockSize);
    all := ListPieces(fs, dir, rooms, blocks, m);
    ats := LiveOffsets(m, dir.size, 0);
    ShowsPrefix(m, ats, Live(m, dir.size, 0), all);
  }
}
