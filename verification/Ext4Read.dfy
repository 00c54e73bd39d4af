/** Reading a file: an unaligned head, then runs of blocks and holes, up to the end of the file. */
module Ext4Read {
  import opened Bytes
  import opened Radix
  import opened Ext4Disk
  import opened Ext4BlockMap
  import E = Ext4Extents

  datatype FileSystem = FileSystem(volume: Volume, store: E.NodeStore)

  /** The fields of an inode that reading uses. */
  datatype Inode = Inode(size: nat, isDirectory: bool, usesExtents: bool, block: seq<nat>, root: E.Node)

  const BLOCK_LIMIT: nat := TWO_32 - 1

  ghost predicate InodeOk(fs: FileSystem, inode: Inode) {
    && fs.volume.WellFormed() && |inode.block| == N_BLOCKS
    && inode.size <= BLOCK_LIMIT * fs.volume.blockSize
    && (inode.usesExtents ==> E.TreeOk(fs.store, inode.root, 0, BLOCK_LIMIT))
  }

  // ----- What a file contains

  /** The physical block of logical block `l`; 0 in a hole. */
  ghost function BlockOf(fs: FileSystem, inode: Inode, l: nat): nat
    requires InodeOk(fs, inode)
  {
    if inode.usesExtents then E.Mapped(fs.store, inode.root, l)
    else BlockAt(fs.volume, inode.block, l).GetOr(0)
  }

  ghost predicate BlocksInside(fs: FileSystem, inode: Inode)
    requires InodeOk(fs, inode)
  {
    forall l: nat :: Mul(BlockOf(fs, inode, l), fs.volume.blockSize) + fs.volume.blockSize <= |fs.volume.disk|
  }

  /** The byte of the disk that block `b` holds at `k`. */
  ghost function DiskByte(fs: FileSystem, b: nat, k: nat): byte
    requires fs.volume.WellFormed() && k < fs.volume.blockSize && Mul(b, fs.volume.blockSize) + fs.volume.blockSize <= |fs.volume.disk|
  {
    fs.volume.disk[Mul(b, fs.volume.blockSize) + k]
  }

  /** Byte `at` of the file. */
  ghost function FileByte(fs: FileSystem, inode: Inode, at: nat): byte
    requires InodeOk(fs, inode) && BlocksInside(fs, inode)
  {
    var b := BlockOf(fs, inode, Div(at, fs.volume.blockSize));
    if b == 0 then 0 else DiskByte(fs, b, Mod(at, fs.volume.blockSize))
  }

  // ----- Block lookups

  /** `p` begins a run of `len` blocks of the file at `l`; holes come one at a time. */
  ghost predicate FileRun(fs: FileSystem, inode: Inode, l: nat, p: nat, len: nat)
    requires InodeOk(fs, inode)
  {
    && len > 0 && (p == 0 ==> len == 1) && l + len <= TWO_32
    && forall m: nat :: l <= m < l + len ==> BlockOf(fs, inode, m) == if p == 0 then 0 else p + (m - l)
  }

  /** The lookup of block `l` is one that the program answers rightly. */
  ghost predicate GoodLookup(fs: FileSystem, inode: Inode, l: nat)
    requires InodeOk(fs, inode)
  {
    && l < BLOCK_LIMIT
    && if inode.usesExtents then
         var leaf := E.ChosenLeaf(fs.store, inode.root, l, 0, BLOCK_LIMIT);
         leaf.Some? && !E.InGap(leaf.value, l)
       else
         l < fs.volume.MaxTind() && !InSparsePart(fs.volume, inode.block, l) && Lookup(fs.volume, inode.block, l).Some?
  }

  /** The blocks that it takes to hold some bytes. */
  function BytesToBlocks(bytes: nat, blockSize: nat): (n: nat)
    requires blockSize > 0
    ensures bytes <= Mul(n, blockSize) < bytes + blockSize
  {
    DivMod(bytes, blockSize);
    MulSum(Div(bytes, blockSize), 1, blockSize);
    MulAtLeast(1, blockSize);
    Div(bytes, blockSize) + if Mod(bytes, blockSize) != 0 then 1 else 0
  }

  lemma RunIsFileRun(fs: FileSystem, inode: Inode, l: nat, p: nat, len: nat)
    requires InodeOk(fs, inode) && inode.usesExtents
    ensures FileRun(fs, inode, l, p, len) <==>
            E.TrueRun(fs.store, inode.root, l, p, len) && (p == 0 ==> len == 1) && l + len <= TWO_32
  {
    forall m: nat ensures BlockOf(fs, inode, m) == E.Mapped(fs.store, inode.root, m) {
      if e :| E.HasExtent(fs.store, inode.root, e) && e.Covers(m) {
        E.MappedBy(fs.store, inode.root, 0, BLOCK_LIMIT, e, m);
      }
    }
    if FileRun(fs, inode, l, p, len) {
      forall m | l <= m < l + len ensures E.Mapped(fs.store, inode.root, m) == if p == 0 then 0 else p + (m - l) {
        assert BlockOf(fs, inode, m) == E.Mapped(fs.store, inode.root, m);
      }
    }
  }

  /** Under a missing index block there is a hole. */
  lemma SparseRun(fs: FileSystem, inode: Inode, l: nat, p: nat)
    requires InodeOk(fs, inode) && !inode.usesExtents && l < fs.volume.MaxTind() && l < BLOCK_LIMIT
    requires InSparsePart(fs.volume, inode.block, l)
    ensures FileRun(fs, inode, l, p, 1) <==> p == 0
  {
    PathNumber(fs.volume, l);
    FollowIffMeaning(fs.volume, inode.block[Path(fs.volume, l)[0]], Path(fs.volume, l)[1..]);
    assert BlockOf(fs, inode, l) == 0;
  }

  /** The file has this extent. */
  ghost predicate HasExtent(fs: FileSystem, inode: Inode, e: E.Extent) {
    inode.usesExtents && E.HasExtent(fs.store, inode.root, e)
  }

  /** `len` blocks from `l` on are as far as the extent that covers `l` goes; they are one where there is none. */
  ghost predicate ToItsEnd(fs: FileSystem, inode: Inode, l: nat, len: nat) {
    && (forall e: E.Extent :: HasExtent(fs, inode, e) && e.Covers(l) ==> len == e.block + e.len - l)
    && (len == 1 || exists e: E.Extent :: HasExtent(fs, inode, e) && e.Covers(l))
  }

  /** What the search in the extents gives where it is right. */
  lemma SearchGoesToEnd(fs: FileSystem, inode: Inode, l: nat, p: nat, len: nat)
    requires InodeOk(fs, inode) && inode.usesExtents && GoodLookup(fs, inode, l) && FileRun(fs, inode, l, p, len)
    requires len == E.LeafLookup(E.ChosenLeaf(fs.store, inode.root, l, 0, BLOCK_LIMIT).value.extents, l, 1).1
    ensures ToItsEnd(fs, inode, l, len)
  {
    forall e: E.Extent | HasExtent(fs, inode, e) && e.Covers(l) ensures len == e.block + e.len - l {
      E.SearchToEnd(fs.store, inode.root, 0, BLOCK_LIMIT, l, e);
    }
    if !exists e: E.Extent :: HasExtent(fs, inode, e) && e.Covers(l) {
      assert forall e: E.Extent :: E.HasExtent(fs.store, inode.root, e) ==> HasExtent(fs, inode, e);
      assert E.Mapped(fs.store, inode.root, l) == 0;
      assert BlockOf(fs, inode, l) == 0;
    }
  }

  /** Physical block and run length of a logical block; `None` when an assertion of the program fails. */
  method InodeGetDataPblock(fs: FileSystem, inode: Inode, l: nat) returns (r: Option<nat>, len: nat)
    requires InodeOk(fs, inode)
    ensures !inode.usesExtents && l > BytesToBlocks(inode.size, fs.volume.blockSize) ==> r.None?
    ensures GoodLookup(fs, inode, l) && l <= BytesToBlocks(inode.size, fs.volume.blockSize) ==>
              r.Some? && FileRun(fs, inode, l, r.value, len) && ToItsEnd(fs, inode, l, len)
    ensures inode.usesExtents && l < BLOCK_LIMIT && !GoodLookup(fs, inode, l) ==>
              r.None? || !FileRun(fs, inode, l, r.value, len)
    ensures !inode.usesExtents && l < fs.volume.MaxTind() && l < BLOCK_LIMIT && InSparsePart(fs.volume, inode.block, l) ==>
              r.None? || (FileRun(fs, inode, l, r.value, len) <==> r.value == 0)
  {
    len := 1;
    if inode.usesExtents {
      r, len := E.GetPblock(fs.store, inode.root, l, len, 0, BLOCK_LIMIT);
      if l < BLOCK_LIMIT {
        E.SearchRunIff(fs.store, inode.root, 0, BLOCK_LIMIT, l);
        if r.Some? {
          RunIsFileRun(fs, inode, l, r.value, len);
          if GoodLookup(fs, inode, l) { SearchGoesToEnd(fs, inode, l, r.value, len); }
        }
      }
    } else {
      if l > BytesToBlocks(inode.size, fs.volume.blockSize) {
        return None, len;
      }
      r := Lookup(fs.volume, inode.block, l);
      if r.Some? && l < fs.volume.MaxTind() && l < BLOCK_LIMIT && InSparsePart(fs.volume, inode.block, l) {
        SparseRun(fs, inode, l, r.value);
      }
      if GoodLookup(fs, inode, l) {
        LookupIff(fs.volume, inode.block, l);
      }
    }
  }

  // ----- Reading

  /** The part of a request that lies in the file; the sum has 64 bits. */
  function TruncateSize(inode: Inode, size: nat, offset: nat): (n: nat)
    ensures offset + size < TWO_64 ==> n == Min(size, if offset < inode.size then inode.size - offset else 0)
    ensures offset < inode.size && TWO_64 <= offset + size < TWO_64 + inode.size <= 2 * TWO_64 ==> n == size
  {
    if offset >= inode.size then 0 else if (offset + size) % TWO_64 >= inode.size then inode.size - offset else size
  }

  /** Rounding up to a power of two, with a mask that has 32 bits: the higher bits of `n` are lost. */
  function AlignTo(n: nat, align: nat): int
    requires align > 0
  {
    if n % align != 0 then n % TWO_32 - n % align + align else n
  }

  /** The read starts inside a block and goes on beyond it. */
  predicate HeadCrosses(blockSize: nat, offset: nat, n: nat)
    requires blockSize > 0
  {
    Mod(offset, blockSize) != 0 && n > blockSize - Mod(offset, blockSize)
  }

  /** The bytes up to the first block boundary of an unaligned read. */
  function HeadLength(blockSize: nat, offset: nat, n: nat): (r: nat)
    requires blockSize > 0
    ensures r <= n
  {
    if Mod(offset, blockSize) == 0 then 0 else Min(n, blockSize - Mod(offset, blockSize))
  }

  /** Where on the disk the first byte of an unaligned read is taken from. */
  ghost function HeadAddress(fs: FileSystem, inode: Inode, offset: nat): nat
    requires InodeOk(fs, inode)
  {
    Mul(BlockOf(fs, inode, Div(offset, fs.volume.blockSize)), fs.volume.blockSize) + Mod(offset, fs.volume.blockSize)
  }

  /** Reads up to the first block boundary; a hole is not recognised, and is read from block 0. */
  method FirstRead(fs: FileSystem, inode: Inode, buf: array<byte>, size: nat, offset: nat) returns (r: Option<nat>)
    requires InodeOk(fs, inode) && BlocksInside(fs, inode) && size <= buf.Length
    requires offset + size <= inode.size && offset < TWO_64 / 2
    requires size > 0 && Mod(offset, fs.volume.blockSize) != 0 ==> GoodLookup(fs, inode, Div(offset, fs.volume.blockSize))
    modifies buf
    ensures r.None? <==> HeadCrosses(fs.volume.blockSize, offset, size) && offset >= TWO_32
    ensures r.Some? ==> r.value == HeadLength(fs.volume.blockSize, offset, size)
    ensures r.Some? ==> Filled(old(buf[..]), buf[..], 0, fs.volume.disk, HeadAddress(fs, inode, offset), r.value)
  {
    var bs := fs.volume.blockSize;
    QuotientRemainder(offset, bs);
    if size == 0 || Mod(offset, bs) == 0 {
      return Some(0);
    }
    HeadGeometry(offset, size, bs, inode.size);
    var endLblock, startLblock, startOffset := Div(offset + (size - 1), bs), Div(offset, bs), Mod(offset, bs);
    var p, len := InodeGetDataPblock(fs, inode, startLblock);
    assert p.Some? && p.value == BlockOf(fs, inode, startLblock);
    var ok;
    if startLblock == endLblock {
      ok := DiskRead(fs.volume.disk, Mul(p.value, bs) + startOffset, size, buf, 0);
      r := if ok then Some(size) else None;
    } else {
      var sizeToBlockEnd := (AlignTo(offset, bs) - offset) % TWO_64;
      HeadSize(offset, bs);
      ok := DiskRead(fs.volume.disk, Mul(p.value, bs) + startOffset, sizeToBlockEnd, buf, 0);
      r := if ok then Some(sizeToBlockEnd) else None;
    }
  }

  lemma HeadGeometry(offset: nat, size: nat, bs: nat, limit: nat)
    requires bs > 0 && size > 0 && offset + size <= limit
    ensures Div(offset, bs) == Div(offset + (size - 1), bs) <==> size <= bs - Mod(offset, bs)
    ensures Div(offset, bs) <= BytesToBlocks(limit, bs)
  {
    QuotientRemainder(offset, bs);
    QuotientRemainder(offset + (size - 1), bs);
    QuotientRemainder(limit, bs);
    var q1, q2, q3 := Div(offset, bs), Div(offset + (size - 1), bs), Div(limit, bs);
    if q1 < q2 { ProductBelow(q1, bs, q2); }
    if q2 < q1 { ProductBelow(q2, bs, q1); }
    if q3 < q1 { ProductBelow(q3, bs, q1); }
  }

  /** The 32-bit mask gives the distance to the block boundary below 4 GiB, and no possible size above. */
  lemma HeadSize(offset: nat, bs: nat)
    requires 0 < bs < TWO_32 && Mod(offset, bs) != 0 && offset < TWO_64 / 2
    ensures var size := (AlignTo(offset, bs) - offset) % TWO_64;
            if offset < TWO_32 then size == bs - Mod(offset, bs) else size >= TWO_64 / 2
  {
    QuotientRemainder(offset, bs);
    var q := offset / TWO_32;
    assert AlignTo(offset, bs) - offset == bs - Mod(offset, bs) - q * TWO_32;
  }

  /** The byte that a read from `offset` puts out for address `at`: in the head, a hole is taken for block 0. */
  ghost function OutputByte(fs: FileSystem, inode: Inode, offset: nat, at: nat): byte
    requires InodeOk(fs, inode) && BlocksInside(fs, inode)
  {
    var bs := fs.volume.blockSize;
    if Mod(offset, bs) != 0 && Div(at, bs) == Div(offset, bs) then
      DiskByte(fs, BlockOf(fs, inode, Div(at, bs)), Mod(at, bs))
    else FileByte(fs, inode, at)
  }

  /** `n` output bytes of a read from `offset` are in the buffer, and nothing else has changed there. */
  ghost predicate Output(fs: FileSystem, inode: Inode, offset: nat, n: nat, before: seq<byte>, after: seq<byte>)
    requires InodeOk(fs, inode) && BlocksInside(fs, inode)
  {
    && |after| == |before| && n <= |before|
    && forall j :: 0 <= j < |before| ==> after[j] == if j < n then OutputByte(fs, inode, offset, offset + j) else before[j]
  }

  lemma HeadOutput(fs: FileSystem, inode: Inode, offset: nat, n: nat, before: seq<byte>, after: seq<byte>)
    requires InodeOk(fs, inode) && BlocksInside(fs, inode)
    requires n <= HeadLength(fs.volume.blockSize, offset, n)
    requires Filled(before, after, 0, fs.volume.disk, HeadAddress(fs, inode, offset), n)
    ensures Output(fs, inode, offset, n, before, after)
  {
    var bs := fs.volume.blockSize;
    forall j | 0 <= j < n ensures after[j] == OutputByte(fs, inode, offset, offset + j) {
      QuotientRemainder(offset, bs);
      QuotientOf(Div(offset, bs), Mod(offset, bs) + j, bs);
    }
  }

  /** A mapped run: byte `k` of the run, counted from the start of block `l`, is byte `k` from the start of block `p`. */
  lemma RunByte(fs: FileSystem, inode: Inode, l: nat, p: nat, len: nat, k: nat)
    requires InodeOk(fs, inode) && BlocksInside(fs, inode) && FileRun(fs, inode, l, p, len) && p > 0
    requires k < Mul(len, fs.volume.blockSize)
    ensures Mul(p, fs.volume.blockSize) + k < |fs.volume.disk|
    ensures FileByte(fs, inode, Mul(l, fs.volume.blockSize) + k) == fs.volume.disk[Mul(p, fs.volume.blockSize) + k]
  {
    var bs := fs.volume.blockSize;
    DivBelow(k, bs, len);
    DivAfter(l, k, bs);
    DivAfter(p, k, bs);
    assert BlockOf(fs, inode, l + Div(k, bs)) == p + Div(k, bs);
  }

  /** A hole: all its bytes are zero. */
  lemma HoleByte(fs: FileSystem, inode: Inode, l: nat, k: nat)
    requires InodeOk(fs, inode) && BlocksInside(fs, inode) && FileRun(fs, inode, l, 0, 1) && k < fs.volume.blockSize
    ensures FileByte(fs, inode, Mul(l, fs.volume.blockSize) + k) == 0
  {
    DivOf(l, k, fs.volume.blockSize);
  }

  /** Fills part of a buffer with zeros. */
  method Zero(buf: array<byte>, at: nat, n: nat)
    requires at + n <= buf.Length
    modifies buf
    ensures |buf[..]| == |old(buf[..])|
    ensures forall j :: 0 <= j < |old(buf[..])| ==> buf[..][j] == if at <= j < at + n then 0 else old(buf[..])[j]
  {
    for i := 0 to n
      invariant forall j :: 0 <= j < buf.Length ==> buf[j] == if at <= j < at + i then 0 else old(buf[j])
    {
      buf[at + i] := 0;
    }
  }

  /** Bytes `ret` to `ret + n` of the buffer are those of the file from `at` on, and nothing else has changed. */
  ghost predicate FileBytes(fs: FileSystem, inode: Inode, at: nat, n: nat, before: seq<byte>, after: seq<byte>, ret: nat)
    requires InodeOk(fs, inode) && BlocksInside(fs, inode)
  {
    && |after| == |before| && ret + n <= |before|
    && forall j :: 0 <= j < |before| ==>
         after[j] == if ret <= j < ret + n then FileByte(fs, inode, at + j - ret) else before[j]
  }

  lemma RunByteAt(fs: FileSystem, inode: Inode, l: nat, p: nat, len: nat, k: nat, at: nat, from: nat)
    requires InodeOk(fs, inode) && BlocksInside(fs, inode) && FileRun(fs, inode, l, p, len) && p > 0
    requires k < Mul(len, fs.volume.blockSize) && at == Mul(l, fs.volume.blockSize) + k && from == Mul(p, fs.volume.blockSize) + k
    ensures from < |fs.volume.disk| && FileByte(fs, inode, at) == fs.volume.disk[from]
  {
    RunByte(fs, inode, l, p, len, k);
  }

  lemma RunBytes(fs: FileSystem, inode: Inode, l: nat, p: nat, len: nat, n: nat, before: seq<byte>, after: seq<byte>, ret: nat)
    requires InodeOk(fs, inode) && BlocksInside(fs, inode) && FileRun(fs, inode, l, p, len) && p > 0
    requires n <= Mul(len, fs.volume.blockSize)
    requires Filled(before, after, ret, fs.volume.disk, Mul(p, fs.volume.blockSize), n)
    ensures FileBytes(fs, inode, Mul(l, fs.volume.blockSize), n, before, after, ret)
  {
    var at, from := Mul(l, fs.volume.blockSize), Mul(p, fs.volume.blockSize);
    forall j | ret <= j < ret + n ensures after[j] == FileByte(fs, inode, at + j - ret) {
      RunByteAt(fs, inode, l, p, len, j - ret, at + j - ret, from + j - ret);
    }
  }

  lemma HoleBytes(fs: FileSystem, inode: Inode, l: nat, n: nat, before: seq<byte>, after: seq<byte>, ret: nat)
    requires InodeOk(fs, inode) && BlocksInside(fs, inode) && FileRun(fs, inode, l, 0, 1)
    requires n <= fs.volume.blockSize && |after| == |before| && ret + n <= |before|
    requires forall j :: 0 <= j < |before| ==> after[j] == if ret <= j < ret + n then 0 else before[j]
    ensures FileBytes(fs, inode, Mul(l, fs.volume.blockSize), n, before, after, ret)
  {
    forall j | ret <= j < ret + n ensures after[j] == FileByte(fs, inode, Mul(l, fs.volume.blockSize) + j - ret) {
      HoleByte(fs, inode, l, j - ret);
    }
  }

  /** Reads from the block boundary `lblock` on: as much of a run as is asked for, or of a hole. */
  method ReadRun(fs: FileSystem, inode: Inode, buf: array<byte>, ret: nat, size: nat, lblock: nat)
    returns (r: Option<nat>, extentLen: nat)
    requires InodeOk(fs, inode) && BlocksInside(fs, inode) && GoodLookup(fs, inode, lblock)
    requires lblock <= BytesToBlocks(inode.size, fs.volume.blockSize) && ret < size <= buf.Length
    modifies buf
    ensures extentLen > 0 && lblock + extentLen <= TWO_32 && ToItsEnd(fs, inode, lblock, extentLen)
    ensures var n := Min(size - ret, Mul(extentLen, fs.volume.blockSize));
            n > 0 && r == if n < TWO_32 / 2 then Some(n) else None
    ensures r.Some? ==> FileBytes(fs, inode, Mul(lblock, fs.volume.blockSize), r.value, old(buf[..]), buf[..], ret)
  {
    var bs := fs.volume.blockSize;
    var p;
    p, extentLen := InodeGetDataPblock(fs, inode, lblock);
    MulAtLeast(extentLen, bs);
    if p.value != 0 {
      var ctx := new DiskContext(Mul(p.value, bs), bs, extentLen);
      assert ctx.size == Mul(extentLen, bs);
      ghost var n := Min(size - ret, Mul(extentLen, bs));
      RunByte(fs, inode, lblock, p.value, extentLen, n - 1);
      var ok, bytes := ctx.Read(fs.volume.disk, size - ret, buf, ret);
      r := if ok then Some(bytes) else None;
      if ok {
        RunBytes(fs, inode, lblock, p.value, extentLen, n, old(buf[..]), buf[..], ret);
      }
    } else {
      var bytes := size - ret;
      if bytes > bs {
        bytes := bs;
      }
      Zero(buf, ret, bytes);
      r := Some(bytes);
      HoleBytes(fs, inode, lblock, bytes, old(buf[..]), buf[..], ret);
    }
  }

  lemma OutputExtends(fs: FileSystem, inode: Inode, offset: nat, ret: nat, n: nat, lblock: nat,
                      s0: seq<byte>, s1: seq<byte>, s2: seq<byte>)
    requires InodeOk(fs, inode) && BlocksInside(fs, inode) && Output(fs, inode, offset, ret, s0, s1)
    requires AtBlock(fs.volume.blockSize, offset, ret, lblock)
    requires FileBytes(fs, inode, Mul(lblock, fs.volume.blockSize), n, s1, s2, ret)
    ensures Output(fs, inode, offset, ret + n, s0, s2)
  {
    forall j | 0 <= j < |s0|
      ensures s2[j] == if j < ret + n then OutputByte(fs, inode, offset, offset + j) else s0[j]
    {
      if j < ret {
        assert s2[j] == s1[j];
      } else if j < ret + n {
        DivFrom(offset + j, fs.volume.blockSize, lblock);
        assert s2[j] == FileByte(fs, inode, offset + j);
      }
    }
  }

  /** Where the aligned part of a read begins. */
  lemma AfterHead(bs: nat, offset: nat, n: nat)
    requires bs > 0 && HeadLength(bs, offset, n) < n
    ensures AtBlock(bs, offset, HeadLength(bs, offset, n), Div(offset + HeadLength(bs, offset, n), bs))
  {
    DivMod(offset, bs);
    if Mod(offset, bs) != 0 {
      MulSum(Div(offset, bs), 1, bs);
      MulAtLeast(1, bs);
      DivOf(Div(offset, bs) + 1, 0, bs);
    }
  }

  /** The byte after the first `ret` is the first of block `lblock`, which lies behind an unaligned head. */
  predicate AtBlock(bs: nat, offset: nat, ret: nat, lblock: nat)
    requires bs > 0
  {
    Mul(lblock, bs) == offset + ret && lblock >= Div(offset, bs) && (Mod(offset, bs) == 0 || lblock > Div(offset, bs))
  }

  lemma NextBlock(bs: nat, offset: nat, n: nat, ret: nat, lblock: nat, bytes: nat, len: nat)
    requires bs > 0 && AtBlock(bs, offset, ret, lblock) && ret < n && bytes == Min(n - ret, Mul(len, bs))
    ensures ret + bytes <= n && (ret + bytes < n ==> AtBlock(bs, offset, ret + bytes, lblock + len))
    ensures Mul(lblock + len, bs) >= offset + ret + bytes
  {
    MulSum(lblock, len, bs);
  }

  lemma BlockBelowSize(l: nat, bs: nat, size: nat)
    requires bs > 0 && Mul(l, bs) < size
    ensures l <= BytesToBlocks(size, bs)
  {
    DivFrom(size, bs, l);
  }

  /** All lookups of blocks that a read touches are answered rightly. */
  ghost predicate GoodLookups(fs: FileSystem, inode: Inode, offset: nat, n: nat)
    requires InodeOk(fs, inode)
  {
    forall l: nat :: Div(offset, fs.volume.blockSize) <= l && Mul(l, fs.volume.blockSize) < offset + n ==>
      GoodLookup(fs, inode, l)
  }

  // ----- Reads that are too long for an int

  function Max(a: int, b: int): int {
    if a > b then a else b
  }

  /** The bytes of a range that lie in the blocks of an extent, or less than 0. */
  function Held(bs: nat, e: E.Extent, from: nat, to: nat): int {
    Min(Mul(e.block + e.len, bs), to) - Max(Mul(e.block, bs), from)
  }

  /** Some extent holds 2^31 bytes or more of a range. */
  ghost predicate LongExtent(fs: FileSystem, inode: Inode, from: nat, to: nat) {
    exists e: E.Extent :: HasExtent(fs, inode, e) && Held(fs.volume.blockSize, e, from, to) >= TWO_32 / 2
  }

  lemma ShortRange(fs: FileSystem, inode: Inode, from: nat, to: nat)
    requires to < from + TWO_32 / 2
    ensures !LongExtent(fs, inode, from, to)
  {
  }

  /** The loop has come to block `l` from block `first`, at the start of an extent or of the range; all extents before are short. */
  ghost predicate ShortSoFar(fs: FileSystem, inode: Inode, from: nat, to: nat, first: nat, l: nat) {
    first <= l && forall e: E.Extent :: HasExtent(fs, inode, e) ==> PassedShort(fs.volume.blockSize, e, from, to, first, l)
  }

  predicate PassedShort(bs: nat, e: E.Extent, from: nat, to: nat, first: nat, l: nat) {
    && (e.block < l < e.block + e.len ==> l == first)
    && (Max(e.block, first) < l ==> Held(bs, e, from, to) < TWO_32 / 2)
  }

  /** From the start of an extent, or of the range, the run to its end is what the extent holds of the range. */
  lemma HeldFrom(bs: nat, e: E.Extent, from: nat, to: nat, first: nat, l: nat)
    requires bs > 0 && from == Mul(first, bs) && first <= l && e.Covers(l) && (e.block == l || first == l)
    ensures Held(bs, e, from, to) == Min(Mul(e.block + e.len - l, bs), to - Mul(l, bs))
  {
    MulSum(l, e.block + e.len - l, bs);
    if e.block < l { MulLess(e.block, l, bs); }
    if first < l { MulLess(first, l, bs); }
  }

  lemma MulLess(a: nat, b: nat, d: nat)
    requires a <= b
    ensures Mul(a, d) <= Mul(b, d)
  {
    MulSum(a, b - a, d);
  }

  lemma NextShort(fs: FileSystem, inode: Inode, from: nat, to: nat, first: nat, l: nat, len: nat)
    requires InodeOk(fs, inode) && from == Mul(first, fs.volume.blockSize) && ShortSoFar(fs, inode, from, to, first, l)
    requires len > 0 && ToItsEnd(fs, inode, l, len) && Min(Mul(len, fs.volume.blockSize), to - Mul(l, fs.volume.blockSize)) < TWO_32 / 2
    ensures ShortSoFar(fs, inode, from, to, first, l + len)
  {
    var bs := fs.volume.blockSize;
    forall e: E.Extent | HasExtent(fs, inode, e) ensures PassedShort(bs, e, from, to, first, l + len) {
      assert PassedShort(bs, e, from, to, first, l);
      if e.Covers(l) {
        PassCovering(bs, e, from, to, first, l, len);
      } else {
        NotTouched(fs, inode, l, len, e);
        PassOther(bs, e, from, to, first, l, len);
      }
    }
  }

  lemma PassCovering(bs: nat, e: E.Extent, from: nat, to: nat, first: nat, l: nat, len: nat)
    requires bs > 0 && from == Mul(first, bs) && first <= l && PassedShort(bs, e, from, to, first, l)
    requires e.Covers(l) && len == e.block + e.len - l && Min(Mul(len, bs), to - Mul(l, bs)) < TWO_32 / 2
    ensures PassedShort(bs, e, from, to, first, l + len)
  {
    HeldFrom(bs, e, from, to, first, l);
  }

  lemma PassOther(bs: nat, e: E.Extent, from: nat, to: nat, first: nat, l: nat, len: nat)
    requires bs > 0 && from == Mul(first, bs) && first <= l && PassedShort(bs, e, from, to, first, l)
    requires e.block + e.len <= l || l + len <= e.block
    ensures PassedShort(bs, e, from, to, first, l + len)
  {
    if e.block + e.len <= l { MulLess(e.block + e.len, l, bs); }
  }

  /** An extent that does not cover the first block of a run does not touch the run. */
  lemma NotTouched(fs: FileSystem, inode: Inode, l: nat, len: nat, e: E.Extent)
    requires InodeOk(fs, inode) && ToItsEnd(fs, inode, l, len) && HasExtent(fs, inode, e) && !e.Covers(l) && len > 0
    ensures e.block + e.len <= l || l + len <= e.block
  {
    if l < e.block < l + len {
      var f: E.Extent :| HasExtent(fs, inode, f) && f.Covers(l);
      E.ExtentInRange(fs.store, inode.root, 0, BLOCK_LIMIT, e);
      E.ExtentUnique(fs.store, inode.root, 0, BLOCK_LIMIT, e, f, e.block);
    }
  }

  /** A run that is too long for an int lies in a long extent. */
  lemma LongRun(fs: FileSystem, inode: Inode, from: nat, to: nat, first: nat, l: nat, len: nat)
    requires InodeOk(fs, inode) && from == Mul(first, fs.volume.blockSize) && ShortSoFar(fs, inode, from, to, first, l)
    requires ToItsEnd(fs, inode, l, len) && Min(Mul(len, fs.volume.blockSize), to - Mul(l, fs.volume.blockSize)) >= TWO_32 / 2
    ensures LongExtent(fs, inode, from, to)
  {
    var bs := fs.volume.blockSize;
    if len != 1 {
      var e: E.Extent :| HasExtent(fs, inode, e) && e.Covers(l);
      assert PassedShort(bs, e, from, to, first, l);
      HeldFrom(bs, e, from, to, first, l);
    }
  }

  /** When the range has been read to its end, no extent was long. */
  lemma AllShort(fs: FileSystem, inode: Inode, from: nat, to: nat, first: nat, l: nat)
    requires InodeOk(fs, inode) && ShortSoFar(fs, inode, from, to, first, l)
    requires from == Mul(first, fs.volume.blockSize) && Mul(l, fs.volume.blockSize) >= to && first < l
    ensures !LongExtent(fs, inode, from, to)
  {
    var bs := fs.volume.blockSize;
    forall e: E.Extent | HasExtent(fs, inode, e) ensures Held(bs, e, from, to) < TWO_32 / 2 {
      assert PassedShort(bs, e, from, to, first, l);
      if e.block >= l { MulLess(l, e.block, bs); }
    }
  }

  /** How far the loop of a read has come: the next byte is the first of a block, and all long extents lie ahead. */
  ghost predicate Midway(fs: FileSystem, inode: Inode, offset: nat, size: nat, head: nat, first: nat, ret: nat, lblock: nat)
    requires InodeOk(fs, inode)
  {
    && ret <= size && ShortSoFar(fs, inode, offset + head, offset + size, first, lblock)
    && Mul(first, fs.volume.blockSize) == offset + head && first >= Div(offset, fs.volume.blockSize)
    && if ret < size then AtBlock(fs.volume.blockSize, offset, ret, lblock)
       else first < lblock && Mul(lblock, fs.volume.blockSize) >= offset + size
  }

  lemma MidwayNext(fs: FileSystem, inode: Inode, offset: nat, size: nat, head: nat, first: nat, ret: nat, lblock: nat, len: nat, n: nat)
    requires InodeOk(fs, inode) && Midway(fs, inode, offset, size, head, first, ret, lblock) && ret < size
    requires len > 0 && ToItsEnd(fs, inode, lblock, len) && n == Min(size - ret, Mul(len, fs.volume.blockSize))
    ensures n < TWO_32 / 2 ==> Midway(fs, inode, offset, size, head, first, ret + n, lblock + len)
    ensures n >= TWO_32 / 2 ==> LongExtent(fs, inode, offset + head, offset + size)
  {
    if n < TWO_32 / 2 {
      NextBlock(fs.volume.blockSize, offset, size, ret, lblock, n, len);
      NextShort(fs, inode, offset + head, offset + size, first, lblock, len);
    } else {
      LongRun(fs, inode, offset + head, offset + size, first, lblock, len);
    }
  }

  lemma MidwayStart(fs: FileSystem, inode: Inode, offset: nat, size: nat, head: nat)
    requires InodeOk(fs, inode) && head == HeadLength(fs.volume.blockSize, offset, size) < size
    ensures var first := Div(offset + head, fs.volume.blockSize); Midway(fs, inode, offset, size, head, first, head, first)
  {
    AfterHead(fs.volume.blockSize, offset, size);
  }

  lemma MidwayEnd(fs: FileSystem, inode: Inode, offset: nat, size: nat, head: nat, first: nat, lblock: nat)
    requires InodeOk(fs, inode) && Midway(fs, inode, offset, size, head, first, size, lblock)
    ensures !LongExtent(fs, inode, offset + head, offset + size)
  {
    AllShort(fs, inode, offset + head, offset + size, first, lblock);
  }

  /** One turn: a run, or a hole. */
  method ReadTurn(fs: FileSystem, inode: Inode, buf: array<byte>, size: nat, offset: nat, ret: nat, lblock: nat,
                  ghost head: nat, ghost first: nat, ghost s0: seq<byte>)
    returns (bytes: Option<nat>, extentLen: nat)
    requires InodeOk(fs, inode) && BlocksInside(fs, inode) && size <= buf.Length && offset + size <= inode.size
    requires GoodLookups(fs, inode, offset, size) && ret < size
    requires Midway(fs, inode, offset, size, head, first, ret, lblock) && Output(fs, inode, offset, ret, s0, buf[..])
    modifies buf
    ensures bytes.None? ==> LongExtent(fs, inode, offset + head, offset + size)
    ensures bytes.Some? ==> bytes.value > 0 && Midway(fs, inode, offset, size, head, first, ret + bytes.value, lblock + extentLen)
    ensures bytes.Some? ==> Output(fs, inode, offset, ret + bytes.value, s0, buf[..])
  {
    var bs := fs.volume.blockSize;
    BlockBelowSize(lblock, bs, inode.size);
    ghost var before := buf[..];
    bytes, extentLen := ReadRun(fs, inode, buf, ret, size, lblock);
    MidwayNext(fs, inode, offset, size, head, first, ret, lblock, extentLen, Min(size - ret, Mul(extentLen, bs)));
    if bytes.Some? {
      OutputExtends(fs, inode, offset, ret, bytes.value, lblock, s0, before, buf[..]);
    }
  }

  /** The part of a read that begins at a block boundary: run by run, and hole by hole. */
  method ReadBlocks(fs: FileSystem, inode: Inode, buf: array<byte>, size: nat, offset: nat, head: nat, ghost s0: seq<byte>)
    returns (r: Option<nat>)
    requires InodeOk(fs, inode) && BlocksInside(fs, inode) && head < size <= buf.Length && offset + size <= inode.size
    requires head == HeadLength(fs.volume.blockSize, offset, size) && GoodLookups(fs, inode, offset, size)
    requires Output(fs, inode, offset, head, s0, buf[..])
    modifies buf
    ensures r == if LongExtent(fs, inode, offset + head, offset + size) then None else Some(size)
    ensures r.Some? ==> Output(fs, inode, offset, size, s0, buf[..])
  {
    var ret := head;
    var lblock: nat := Div(offset + ret, fs.volume.blockSize);
    MidwayStart(fs, inode, offset, size, head);
    ghost var first := lblock;
    while size > ret
      invariant Midway(fs, inode, offset, size, head, first, ret, lblock) && Output(fs, inode, offset, ret, s0, buf[..])
      decreases size - ret
    {
      var bytes, extentLen := ReadTurn(fs, inode, buf, size, offset, ret, lblock, head, first, s0);
      if bytes.None? {
        return None;
      }
      ret := ret + bytes.value;
      lblock := lblock + extentLen;
    }
    MidwayEnd(fs, inode, offset, size, head, first, lblock);
    return Some(ret);
  }

  /**
   * Reads the part of the request that lies in the file, and returns its size as an int; `None` when an
   * assertion of the program fails, whatever the buffer then holds.
   */
  method OpRead(fs: FileSystem, inode: Inode, buf: array<byte>, size: nat, offset: nat) returns (r: Option<int>)
    requires InodeOk(fs, inode) && BlocksInside(fs, inode) && size <= buf.Length && size < TWO_64 / 2 && offset < TWO_64 / 2
    requires GoodLookups(fs, inode, offset, TruncateSize(inode, size, offset))
    modifies buf
    ensures r == if ReadFails(fs, inode, offset, TruncateSize(inode, size, offset)) then None
                 else Some(Signed32(TruncateSize(inode, size, offset)))
    ensures r.Some? ==> Output(fs, inode, offset, TruncateSize(inode, size, offset), old(buf[..]), buf[..])
  {
    var n := TruncateSize(inode, size, offset);
    if n == 0 {
      ShortRange(fs, inode, offset, offset);
      return Some(Signed32(0));
    }
    var ret := ReadInFile(fs, inode, buf, n, offset);
    r := if ret.Some? then Some(Signed32(ret.value)) else None;
  }

  /** A read that ends in the file: the head, then the blocks. */
  method ReadInFile(fs: FileSystem, inode: Inode, buf: array<byte>, n: nat, offset: nat) returns (ret: Option<nat>)
    requires InodeOk(fs, inode) && BlocksInside(fs, inode) && 0 < n <= buf.Length && offset + n <= inode.size && offset < TWO_64 / 2
    requires GoodLookups(fs, inode, offset, n)
    modifies buf
    ensures ret == if ReadFails(fs, inode, offset, n) then None else Some(n)
    ensures ret.Some? ==> Output(fs, inode, offset, n, old(buf[..]), buf[..])
  {
    ghost var s0 := buf[..];
    FirstLookup(fs, inode, offset, n);
    ret := FirstRead(fs, inode, buf, n, offset);
    ReadFailsIff(fs, inode, offset, n);
    if ret.None? {
      return;
    }
    HeadOutput(fs, inode, offset, ret.value, s0, buf[..]);
    if ret.value < n {
      ret := ReadBlocks(fs, inode, buf, n, offset, ret.value, s0);
    }
  }

  lemma FirstLookup(fs: FileSystem, inode: Inode, offset: nat, n: nat)
    requires InodeOk(fs, inode) && GoodLookups(fs, inode, offset, n) && n > 0
    ensures GoodLookup(fs, inode, Div(offset, fs.volume.blockSize))
  {
    DivMod(offset, fs.volume.blockSize);
  }

  /** Once the head has been read, what is left to fail are the blocks, if there are any. */
  lemma ReadFailsIff(fs: FileSystem, inode: Inode, offset: nat, n: nat)
    requires fs.volume.WellFormed()
    ensures var head := HeadLength(fs.volume.blockSize, offset, n);
            && (ReadFails(fs, inode, offset, n) <==>
                  (HeadCrosses(fs.volume.blockSize, offset, n) && offset >= TWO_32) || LongExtent(fs, inode, offset + head, offset + n))
            && (head == n ==> !LongExtent(fs, inode, offset + head, offset + n))
  {
    if HeadLength(fs.volume.blockSize, offset, n) == n { ShortRange(fs, inode, offset + n, offset + n); }
  }

  /** The head crosses a block boundary from 4 GiB on, or one extent holds 2^31 bytes or more of what comes after it. */
  ghost predicate ReadFails(fs: FileSystem, inode: Inode, offset: nat, n: nat)
    requires fs.volume.WellFormed()
  {
    || (HeadCrosses(fs.volume.blockSize, offset, n) && offset >= TWO_32)
    || LongExtent(fs, inode, offset + HeadLength(fs.volume.blockSize, offset, n), offset + n)
  }

  /** Reads of less than 2^31 bytes return their size, and fail only for a head that crosses a block boundary from 4 GiB on. */
  lemma ShortReadFailsIff(fs: FileSystem, inode: Inode, offset: nat, n: nat)
    requires fs.volume.WellFormed() && n < TWO_32 / 2
    ensures ReadFails(fs, inode, offset, n) <==> HeadCrosses(fs.volume.blockSize, offset, n) && offset >= TWO_32
    ensures Signed32(n) == n
  {
    ShortRange(fs, inode, offset + HeadLength(fs.volume.blockSize, offset, n), offset + n);
  }

  /**
   * What a read puts out is the file, byte for byte, exactly when its head is not in a hole, or block 0
   * happens to hold zeros where the head is taken from.
   */
  lemma OutputIsFileIff(fs: FileSystem, inode: Inode, offset: nat, n: nat)
    requires InodeOk(fs, inode) && BlocksInside(fs, inode)
    ensures var bs := fs.volume.blockSize;
            (forall at: nat :: offset <= at < offset + n ==> OutputByte(fs, inode, offset, at) == FileByte(fs, inode, at)) <==>
            (Mod(offset, bs) == 0 || n == 0 || BlockOf(fs, inode, Div(offset, bs)) != 0 ||
             forall k: nat :: Mod(offset, bs) <= k < Mod(offset, bs) + HeadLength(bs, offset, n) ==> DiskByte(fs, 0, k) == 0)
  {
    var bs := fs.volume.blockSize;
    var q, r := Div(offset, bs), Mod(offset, bs);
    if r != 0 && n > 0 && BlockOf(fs, inode, q) == 0 {
      DivMod(offset, bs);
      forall at: nat | offset <= at < offset + n
        ensures at < offset + HeadLength(bs, offset, n) ==>
                  OutputByte(fs, inode, offset, at) == DiskByte(fs, 0, at - Mul(q, bs)) && FileByte(fs, inode, at) == 0
        ensures at >= offset + HeadLength(bs, offset, n) ==>
                  OutputByte(fs, inode, offset, at) == FileByte(fs, inode, at)
      {
        if at < offset + HeadLength(bs, offset, n) {
          DivOf(q, at - Mul(q, bs), bs);
        } else {
          MulSum(q, 1, bs);
          MulAtLeast(1, bs);
          DivFrom(at, bs, q + 1);
        }
      }
      if forall at: nat :: offset <= at < offset + n ==> OutputByte(fs, inode, offset, at) == FileByte(fs, inode, at) {
        forall k: nat | r <= k < r + HeadLength(bs, offset, n) ensures DiskByte(fs, 0, k) == 0 {
          assert OutputByte(fs, inode, offset, Mul(q, bs) + k) == FileByte(fs, inode, Mul(q, bs) + k);
        }
      }
    }
  }

  // ----- Reads that go wrong

  /** A disk of one block of ones, and a sparse file of 4 GiB and a little more. */
  const ONES: FileSystem :=
    FileSystem(Volume(seq(1024, i => 1), 1024), b => E.Node(E.EXT4_EXT_MAGIC, 0, [], []))

  const SPARSE: Inode :=
    Inode(TWO_32 + 4096, false, true, seq(N_BLOCKS, i => 0), E.Node(E.EXT4_EXT_MAGIC, 0, [], []))

  lemma SparseIsHole(l: nat)
    ensures InodeOk(ONES, SPARSE) && BlockOf(ONES, SPARSE, l) == 0
    ensures l < BLOCK_LIMIT ==> GoodLookup(ONES, SPARSE, l)
  {
    assert E.TreeOk(ONES.store, SPARSE.root, 0, BLOCK_LIMIT);
    assert SPARSE.root.extents == [];
    assert !exists e :: E.HasExtent(ONES.store, SPARSE.root, e) && e.Covers(l);
  }

  /** A read of one byte that begins inside a hole puts out a byte of block 0. */
  lemma HoleHeadIsMisread()
    ensures InodeOk(ONES, SPARSE) && BlocksInside(ONES, SPARSE) && GoodLookups(ONES, SPARSE, 1, 1)
    ensures OutputByte(ONES, SPARSE, 1, 1) == 1 && FileByte(ONES, SPARSE, 1) == 0
  {
    forall l: nat ensures InodeOk(ONES, SPARSE) && BlockOf(ONES, SPARSE, l) == 0 && (l < BLOCK_LIMIT ==> GoodLookup(ONES, SPARSE, l)) {
      SparseIsHole(l);
    }
    assert Mul(0, 1024) == 0;
    DivOf(0, 1, 1024);
  }

  /** A read in the same file that begins past 4 GiB and crosses a block boundary fails, although its lookups are good. */
  lemma HighHeadFails()
    ensures InodeOk(ONES, SPARSE) && BlocksInside(ONES, SPARSE) && GoodLookups(ONES, SPARSE, TWO_32 + 1, 1024)
    ensures TruncateSize(SPARSE, 1024, TWO_32 + 1) == 1024 && ReadFails(ONES, SPARSE, TWO_32 + 1, 1024)
  {
    forall l: nat ensures InodeOk(ONES, SPARSE) && BlockOf(ONES, SPARSE, l) == 0 && (l < BLOCK_LIMIT ==> GoodLookup(ONES, SPARSE, l)) {
      SparseIsHole(l);
    }
    assert Mul(0, 1024) == 0;
    DivOf(4194304, 1, 1024);
    assert forall l: nat :: Mul(l, 1024) < TWO_32 + 1025 ==> l < BLOCK_LIMIT;
  }

  /** A disk of 32769 blocks of 64 KiB, and a file of one extent that takes all but the first. */
  const LARGE: FileSystem :=
    FileSystem(Volume(seq(TWO_32 / 2 + 65536, i => 0), 65536), b => E.Node(E.EXT4_EXT_MAGIC, 0, [], []))

  const ONE_EXTENT: Inode :=
    Inode(TWO_32 / 2, false, true, seq(N_BLOCKS, i => 0), E.Node(E.EXT4_EXT_MAGIC, 0, [E.Extent(0, 32768, 1)], []))

  lemma OneExtentBlock(l: nat)
    ensures InodeOk(LARGE, ONE_EXTENT) && BlockOf(LARGE, ONE_EXTENT, l) == if l < 32768 then l + 1 else 0
    ensures l < BLOCK_LIMIT ==> GoodLookup(LARGE, ONE_EXTENT, l)
  {
    var e := E.Extent(0, 32768, 1);
    assert E.TreeOk(LARGE.store, ONE_EXTENT.root, 0, BLOCK_LIMIT);
    assert ONE_EXTENT.root.extents == [e] && E.HasExtent(LARGE.store, ONE_EXTENT.root, e);
    assert forall f: E.Extent :: E.HasExtent(LARGE.store, ONE_EXTENT.root, f) ==> f == e;
    if l < 32768 {
      E.MappedBy(LARGE.store, ONE_EXTENT.root, 0, BLOCK_LIMIT, e, l);
    }
  }

  /** Reading all of this file, 2^31 bytes, fails, although its lookups are good. */
  lemma LongReadFails()
    ensures InodeOk(LARGE, ONE_EXTENT) && BlocksInside(LARGE, ONE_EXTENT) && GoodLookups(LARGE, ONE_EXTENT, 0, TWO_32 / 2)
    ensures TruncateSize(ONE_EXTENT, TWO_32 / 2, 0) == TWO_32 / 2 && ReadFails(LARGE, ONE_EXTENT, 0, TWO_32 / 2)
  {
    forall l: nat
      ensures InodeOk(LARGE, ONE_EXTENT) && BlockOf(LARGE, ONE_EXTENT, l) == if l < 32768 then l + 1 else 0
      ensures l < BLOCK_LIMIT ==> GoodLookup(LARGE, ONE_EXTENT, l)
    {
      OneExtentBlock(l);
    }
    assert forall l: nat :: Mul(l, 65536) < TWO_32 / 2 ==> l < BLOCK_LIMIT;
    var e := E.Extent(0, 32768, 1);
    assert HasExtent(LARGE, ONE_EXTENT, e);
    DivOf(0, 0, 65536);
    assert Mul(32768, 65536) == TWO_32 / 2 && Mul(0, 65536) == 0;
    assert Held(65536, e, 0, TWO_32 / 2) == TWO_32 / 2;
  }
}
