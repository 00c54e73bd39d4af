/** Reading the disk: words, ranges, ranges with whole blocks only, and read contexts. */
module Ext4Disk {
  import opened Bytes

  /** A little-endian 32-bit word of the disk, if it is there. */
  function ReadU32(disk: seq<byte>, at: nat): (r: Option<nat>)
    ensures r.Some? <==> at + 4 <= |disk|
    ensures r.Some? ==> r.value < TWO_32 && WordAt(disk, at, r.value)
  {
    if at + 4 <= |disk| then
      var b0: int, b1: int, b2: int, b3: int := disk[at], disk[at + 1], disk[at + 2], disk[at + 3];
      BytesOfWord(b0, b1, b2, b3);
      Some(b0 + 0x100 * b1 + 0x1_0000 * b2 + 0x100_0000 * b3)
    else None
  }

  /** The bytes of the disk at an address are those of a number, the lowest first. */
  predicate WordAt(disk: seq<byte>, at: nat, n: nat) {
    && n < 0x1_0000_0000 && at + 4 <= |disk|
    && disk[at] == n % 256 && disk[at + 1] == n / 256 % 256
    && disk[at + 2] == n / 65536 % 256 && disk[at + 3] == n / 16777216 % 256
  }

  lemma BytesOfWord(b0: byte, b1: byte, b2: byte, b3: byte)
    ensures var n := b0 + 0x100 * b1 + 0x1_0000 * b2 + 0x100_0000 * b3;
            0 <= n < TWO_32 && n % 256 == b0 && n / 256 % 256 == b1 && n / 65536 % 256 == b2 && n / 16777216 % 256 == b3
  {
    var n := b0 + 0x100 * b1 + 0x1_0000 * b2 + 0x100_0000 * b3;
    assert n / 256 == b1 + 0x100 * b2 + 0x1_0000 * b3;
    assert n / 65536 == b2 + 0x100 * b3;
    assert n / 16777216 == b3;
  }

  lemma WordOfBytes(n: nat)
    requires n < TWO_32
    ensures n == n % 256 + 0x100 * (n / 256 % 256) + 0x1_0000 * (n / 65536 % 256) + 0x100_0000 * (n / 16777216 % 256)
  {
    assert n == 256 * (n / 256) + n % 256;
    assert n / 65536 == n / 256 / 256 && n / 256 == 256 * (n / 65536) + n / 256 % 256;
    assert n / 16777216 == n / 65536 / 256 && n / 65536 == 256 * (n / 16777216) + n / 65536 % 256;
    assert n / 16777216 < 256;
  }

  /** Those bytes determine the number. */
  lemma WordUnique(disk: seq<byte>, at: nat, m: nat, n: nat)
    requires WordAt(disk, at, m) && WordAt(disk, at, n)
    ensures m == n
  {
    WordOfBytes(m);
    WordOfBytes(n);
  }

  /** A direct read; it returns the number of bytes as an int, or nothing if they are not all there. */
  method Pread(disk: seq<byte>, at: nat, size: nat, p: array<byte>, to: nat) returns (r: Option<int>)
    requires at + size <= |disk| ==> to + size <= p.Length
    modifies p
    ensures r == if at + size <= |disk| then Some(Signed32(size)) else None
    ensures r.Some? ==> Filled(old(p[..]), p[..], to, disk, at, size)
  {
    if at + size > |disk| {
      return None;
    }
    CopyBytes(disk, at, size, p, to);
    return Some(Signed32(size));
  }

  /** Reads `size` bytes at `at` of the disk; it fails if they are not all there, or their number is no int. */
  method DiskRead(disk: seq<byte>, at: nat, size: nat, p: array<byte>, to: nat) returns (ok: bool)
    requires at + size <= |disk| ==> to + size <= p.Length
    modifies p
    ensures ok <==> at + size <= |disk| && size < TWO_32 / 2
    ensures ok ==> Filled(old(p[..]), p[..], to, disk, at, size)
  {
    Signed32Iff(size);
    var ret := Pread(disk, at, size, p, to);
    ok := ret == Some(size);
  }

  const PREAD_BLOCK_SIZE: nat := 1024

  /** The end of the last whole block that a read of the range touches. */
  function WholeBlockEnd(at: nat, size: nat): nat {
    if size == 0 then (at / PREAD_BLOCK_SIZE + 1) * PREAD_BLOCK_SIZE
    else ((at + size + PREAD_BLOCK_SIZE - 1) / PREAD_BLOCK_SIZE) * PREAD_BLOCK_SIZE
  }

  lemma EndThroughHead(at: nat, size: nat)
    requires at % PREAD_BLOCK_SIZE != 0
    ensures var block, n := at - at % PREAD_BLOCK_SIZE, Min(size, PREAD_BLOCK_SIZE - at % PREAD_BLOCK_SIZE);
            if n == size then WholeBlockEnd(at, size) == block + PREAD_BLOCK_SIZE
            else WholeBlockEnd(at, size) == WholeBlockEnd(at + n, size - n) >= block + PREAD_BLOCK_SIZE
  {
  }

  lemma EndFromBoundary(at: nat, size: nat)
    requires at % PREAD_BLOCK_SIZE == 0
    ensures var middle := (size / PREAD_BLOCK_SIZE) * PREAD_BLOCK_SIZE;
            && middle <= size < middle + PREAD_BLOCK_SIZE
            && WholeBlockEnd(at, size) == if 0 < middle == size then at + size else at + middle + PREAD_BLOCK_SIZE
  {
  }

  /** Reads a whole block, and copies `n` bytes of it from `first` on. */
  method ReadPartOfBlock(disk: seq<byte>, blockAt: nat, first: nat, n: nat, p: array<byte>, to: nat) returns (ok: bool)
    requires first + n <= PREAD_BLOCK_SIZE && to + n <= p.Length
    modifies p
    ensures ok <==> blockAt + PREAD_BLOCK_SIZE <= |disk|
    ensures ok ==> Filled(old(p[..]), p[..], to, disk, blockAt + first, n)
  {
    var block := new byte[PREAD_BLOCK_SIZE];
    var ret := Pread(disk, blockAt, PREAD_BLOCK_SIZE, block, 0);
    ok := ret == Some(PREAD_BLOCK_SIZE);
    if ok {
      CopyBytes(block[..], first, n, p, to);
    }
  }

  /** The bytes of the whole blocks that a range from a block boundary on begins with. */
  function WholeBlocks(size: nat): nat {
    (size / PREAD_BLOCK_SIZE) * PREAD_BLOCK_SIZE
  }

  /** From a block boundary on: the whole blocks of the range, then the start of the block after them. */
  method ReadFromBoundary(disk: seq<byte>, p: array<byte>, to: nat, size: nat, where: nat) returns (ok: bool)
    requires to + size <= p.Length && where % PREAD_BLOCK_SIZE == 0
    modifies p
    ensures ok <==> WholeBlockEnd(where, size) <= |disk| && WholeBlocks(size) < TWO_32 / 2
    ensures ok ==> Filled(old(p[..]), p[..], to, disk, where, size)
  {
    var middle := WholeBlocks(size);
    EndFromBoundary(where, size);
    if middle != 0 {
      Signed32Iff(middle);
      var ret := Pread(disk, where, middle, p, to);
      ok := ret == Some(middle);
      if !ok || middle == size {
        return;
      }
    }
    var left := size - middle;
    ghost var most := p[..];
    ok := ReadPartOfBlock(disk, where + middle, 0, left, p, to + middle);
    if ok {
      FilledTwice(old(p[..]), most, p[..], to, disk, where, middle, left);
    }
  }

  /** The bytes of a request after the first block boundary. */
  function AfterFirst(where: nat, size: nat): nat {
    var first := where % PREAD_BLOCK_SIZE;
    if first == 0 then size else size - Min(size, PREAD_BLOCK_SIZE - first)
  }

  /**
   * Reads a range where the device delivers whole blocks only: the head, the blocks in the middle, the tail.
   * It fails if a block is not there, or the blocks in the middle are too many for an int; it returns the size as an int.
   */
  method PreadWholeBlocks(disk: seq<byte>, p: array<byte>, size: nat, where: nat) returns (r: Option<int>)
    requires size <= p.Length
    modifies p
    ensures r == if WholeBlockEnd(where, size) <= |disk| && WholeBlocks(AfterFirst(where, size)) < TWO_32 / 2
                 then Some(Signed32(size)) else None
    ensures r.Some? ==> Filled(old(p[..]), p[..], 0, disk, where, size)
  {
    var first, n := where % PREAD_BLOCK_SIZE, 0;
    var ok;
    if first != 0 {
      n := Min(size, PREAD_BLOCK_SIZE - first);
      EndThroughHead(where, size);
      ok := ReadPartOfBlock(disk, where - first, first, n, p, 0);
      if !ok {
        return None;
      } else if n == size {
        return Some(Signed32(n));
      }
    }
    ghost var head := p[..];
    ok := ReadFromBoundary(disk, p, n, size - n, where + n);
    if !ok {
      return None;
    }
    FilledTwice(old(p[..]), head, p[..], 0, disk, where, n, size - n);
    return Some(Signed32(size));
  }

  /** On such a device too, a read succeeds below 2^31 bytes if and only if all blocks that it touches are there. */
  method DiskReadWholeBlocks(disk: seq<byte>, at: nat, size: nat, p: array<byte>) returns (ok: bool)
    requires size <= p.Length
    modifies p
    ensures ok <==> WholeBlockEnd(at, size) <= |disk| && size < TWO_32 / 2
    ensures ok ==> Filled(old(p[..]), p[..], 0, disk, at, size)
  {
    Signed32Iff(size);
    var ret := PreadWholeBlocks(disk, p, size, at);
    ok := ret == Some(size);
  }

  /** A run of blocks that is being read from the front. */
  class DiskContext {
    var cur: nat
    var size: nat

    constructor (where: nat, size: nat, len: nat)
      requires size > 0
      ensures cur == where && this.size == size * len
    {
      cur := where;
      this.size := size * len;
    }

    /** Reads the next bytes of the run, at most all that are left. */
    method Read(disk: seq<byte>, size: nat, p: array<byte>, to: nat) returns (ok: bool, ret: nat)
      requires this.size > 0 && to + size <= p.Length
      modifies this, p
      ensures ok <==> old(cur) + Min(size, old(this.size)) <= |disk| && Min(size, old(this.size)) < TWO_32 / 2
      ensures ok ==> ret == Min(size, old(this.size)) && Filled(old(p[..]), p[..], to, disk, old(cur), ret)
      ensures ok ==> cur == old(cur) + ret && this.size == old(this.size) - ret
    {
      ret := if size > this.size then this.size else size;
      ok := DiskRead(disk, cur, ret, p, to);
      if ok {
        this.size := this.size - ret;
        cur := cur + ret;
      }
    }
  }
}
