/** The disk of the file system is the decompressed stream of an image: reads of the one are reads of the other. */
module CompressedDisk {
  import opened Bytes
  import Xz = XzReader
  import opened GzipIndex
  import G = GzipRead

  /** A byte count of 64 bits, or a negative error, as an int. */
  function AsInt(n: int): int
    requires n >= Xz.READER_ERROR
  {
    if n < 0 then n else Signed32(n)
  }

  /** What a read of a stream whose blocks all decode returns: the size exactly inside the stream. */
  lemma XzCountIff(blocks: seq<Xz.Block>, stream: seq<byte>, at: nat, size: nat, r: int, run: nat, used: seq<nat>)
    requires Xz.Partition(blocks, stream) && (forall i :: 0 <= i < |blocks| ==> blocks[i].decodes)
    requires size > 0 && Xz.Answered(blocks, at, size, r, run, used)
    ensures r >= Xz.READER_ERROR && (AsInt(r) == size <==> at + size <= |stream| && size < TWO_32 / 2)
    ensures at + size <= |stream| ==> run == size
  {
    if at + size <= |stream| {
      Xz.InRangeReadIsComplete(blocks, stream, at, size, run);
    } else {
      assert !Xz.Readable(blocks, at + size - 1);
      assert run < size && r == run - 1;
    }
    Signed32Iff(size);
  }

  /** Reading the disk that is the stream of an XZ image: it succeeds on the same ranges as a read of the stream itself, with the same bytes. */
  method DiskReadXz(r: Xz.Reader, at: nat, size: nat, p: array<byte>, to: nat) returns (ok: bool)
    requires r.Valid() && (forall i :: 0 <= i < |r.blocks| ==> r.blocks[i].decodes) && size > 0 && to + size <= p.Length
    modifies r, r.cache, r.cache.repr, p
    ensures r.Valid() && fresh(r.cache.repr - old(r.cache.repr))
    ensures ok <==> at + size <= |r.stream| && size < TWO_32 / 2
    ensures ok ==> Filled(old(p[..]), p[..], to, r.stream, at, size)
  {
    var ret, run, used := r.Read(p, to, at, size);
    XzCountIff(r.blocks, r.stream, at, size, ret, run, used);
    ok := AsInt(ret) == size;
  }

  /**
   * Reading the disk that is the stream of a gzip image.  Inside the stream it succeeds like a read of the
   * stream itself, unless no access point could be made, and with the same bytes if the windows up to the
   * point that it starts from were covered.
   */
  method DiskReadGzip(r: GzipReader, at: nat, size: nat, p: array<byte>) returns (ok: bool, ghost i: nat)
    requires r.Valid() && TrueWhereCovered(r.d, r.list.points) && (r.list.points == [] ==> r.filePos == 0)
    requires 0 < size == p.Length && at + size <= |r.d.raw| && (r.list.points != [] || HeaderFits(r.d))
    modifies r, r.list, r.list.repr, p
    ensures r.Valid() && r.OnlyNewEntries() && TrueWhereCovered(r.d, r.list.points) && r.list.points != []
    ensures ok <==> size < TWO_32 / 2
    ensures ok ==> i < |r.list.points| && (AllCovered(r.list.points, i + 1) ==> Filled(old(p[..]), p[..], 0, r.d.raw, at, size))
  {
    ghost var before := p[..];
    var outcome;
    outcome, i := G.GzipRead(r, p, at, size);
    BuildKeepsTruth(r.d, old(r.list.points), r.list.points);
    Signed32Iff(size);
    ok := outcome.Read? && outcome.length == size;
    if ok {
      G.PutServes(r.d, G.Request(at, size), before, p[..], r.list.points, i);
    }
  }
}
