/** Building the index of a gzip file: on demand, chunk by chunk, and resumed from its last access point. */
module GzipIndex {
  import opened Bytes
  import opened DeflateStream
  import opened GzipWindow
  import opened GzipList

  const CHUNK: nat := 16384

  /** What a call of the decoder in block mode, with input and room, has done. */
  ghost predicate Moved(s: Decoder, t: Decoder, ret: ZReturn) {
    && s.fed <= t.fed && s.raw <= t.raw && (ret == Z_OK || ret == Z_STREAM_END)
    && (t.done <==> ret == Z_STREAM_END)
    && (ret == Z_OK ==> t.fed > s.fed || t.raw > s.raw)
    && (if s.done then t == s else s.block <= t.block <= s.block + 1 && (t.boundary <==> t.block > s.block))
  }

  lemma StepMoves(d: Deflate, s: Decoder, availIn: nat, availOut: nat, t: Decoder, ret: ZReturn)
    requires d.WellFormed() && availIn > 0 && availOut > 0 && Step(d, s, availIn, availOut, true, t, ret)
    ensures Moved(s, t, ret)
  {
  }

  /** The points after a call are those before it, and more. */
  ghost predicate Longer(before: seq<Point>, after: seq<Point>) {
    |before| <= |after| && forall i :: 0 <= i < |before| ==> after[i] == before[i]
  }

  /** Points added by one build to those there were: each knows where the build started, and whether it saw the true stream. */
  ghost predicate Built(before: seq<Point>, after: seq<Point>, trusted: bool, start: nat) {
    Longer(before, after) &&
    forall i :: |before| <= i < |after| ==> after[i].origin.trusted == trusted && after[i].origin.start == start
  }

  /** Points added by one build during one chunk. */
  ghost predicate Grown(before: seq<Point>, after: seq<Point>, trusted: bool, start: nat, earlier: seq<nat>) {
    Built(before, after, trusted, start) && forall i :: |before| <= i < |after| ==> after[i].origin.earlier == earlier
  }

  lemma BuiltGrows(first: seq<Point>, before: seq<Point>, after: seq<Point>, trusted: bool, start: nat, earlier: seq<nat>)
    requires Built(first, before, trusted, start) && Grown(before, after, trusted, start, earlier)
    ensures Built(first, after, trusted, start)
  {
  }

  /** No point after the first `n` was needless for `maxAddress`, but for a last one at `stopped`, where the build stopped. */
  ghost predicate Needed(points: seq<Point>, n: nat, maxAddress: nat, stopped: int) {
    forall i :: n <= i < |points| ==> points[i].raw + SPAN <= maxAddress || (i == |points| - 1 && points[i].raw == stopped)
  }

  lemma NeededGrows(n: nat, before: seq<Point>, after: seq<Point>, maxAddress: nat, stopped: int)
    requires Needed(before, n, maxAddress, -1) && Longer(before, after) && Needed(after, |before|, maxAddress, stopped)
    ensures Needed(after, n, maxAddress, stopped)
  {
  }

  /** Whether a build that starts after `before` sees the true stream: it resumes from its last point, if any. */
  ghost predicate SeesTruth(d: Deflate, before: seq<Point>)
    requires d.WellFormed()
  {
    before == [] || WindowHolds(before[|before| - 1].context, d.raw, before[|before| - 1].raw)
  }

  /** Where a build that starts after `before` starts. */
  function BuildStart(before: seq<Point>): nat {
    if before == [] then 0 else before[|before| - 1].raw
  }

  /** The first `n` points were made over covered windows. */
  predicate AllCovered(points: seq<Point>, n: nat) {
    n <= |points| && forall i :: 0 <= i < n ==> Covered(points[i].origin.start, points[i].origin.earlier, points[i].origin.produced)
  }

  /** A point has its true window if it and all before it were made over covered ones. */
  ghost predicate TrueWhereCovered(d: Deflate, points: seq<Point>) {
    forall i: nat :: i < |points| ==> TrueIfCovered(d, points, i)
  }

  ghost predicate TrueIfCovered(d: Deflate, points: seq<Point>, i: nat)
    requires i < |points|
  {
    AllCovered(points, i + 1) ==> WindowHolds(points[i].context, d.raw, points[i].raw)
  }

  /** Every build keeps this: it sees the true stream if the point that it resumes from is true. */
  lemma BuildKeepsTruth(d: Deflate, before: seq<Point>, after: seq<Point>)
    requires d.WellFormed() && Index(d, after) && Built(before, after, SeesTruth(d, before), BuildStart(before))
    requires TrueWhereCovered(d, before)
    ensures TrueWhereCovered(d, after)
  {
    forall i: nat | i < |after| && AllCovered(after, i + 1) ensures WindowHolds(after[i].context, d.raw, after[i].raw) {
      if i < |before| {
        assert TrueIfCovered(d, before, i) && AllCovered(before, i + 1);
      } else {
        assert before != [] ==> TrueIfCovered(d, before, |before| - 1) && AllCovered(before, |before|);
        assert PointOk(d, after, i);
        CoveredPointIsExact(d, after[i]);
      }
    }
  }

  /** The decoder is at or past the last access point, and has missed none since; before the first one, it is in the header. */
  ghost predicate PastLast(d: Deflate, points: seq<Point>, s: Decoder) {
    if points == [] then s.block == -1
    else points[|points| - 1].block <= s.block && NoneMissed(d, points[|points| - 1], s.block + 1)
  }

  /** No block that begins before `reached` needs an access point after the last one. */
  ghost predicate CompleteTo(d: Deflate, points: seq<Point>, reached: int) {
    points != [] ==>
      var last := points[|points| - 1];
      forall b: nat {:trigger Unwanted(d, last, b)} :: last.block < b < d.Blocks() && d.cuts[b].raw < reached ==> Unwanted(d, last, b)
  }

  /** After the last point, no block that has been reached begins at address 0, nor more than SPAN after it. */
  lemma CompleteAfterLast(d: Deflate, points: seq<Point>, reached: int, b: nat)
    requires CompleteTo(d, points, reached) && points != []
    requires points[|points| - 1].block < b < d.Blocks() && d.cuts[b].raw < reached
    ensures d.cuts[b].raw != 0 && d.cuts[b].raw - points[|points| - 1].raw <= 1048576
  {
    assert Unwanted(d, points[|points| - 1], b);
  }

  lemma LastIsComplete(d: Deflate, points: seq<Point>)
    requires d.WellFormed() && Index(d, points) && points != []
    ensures CompleteTo(d, points, points[|points| - 1].raw)
  {
    var last := points[|points| - 1];
    assert PointOk(d, points, |points| - 1);
    forall b: nat | last.block < b < d.Blocks() ensures d.cuts[b].raw >= last.raw {
      assert d.Ascend(last.block, b);
    }
  }

  /** What the decoder has put out begins in blocks that it has come to. */
  lemma PastLastIsComplete(d: Deflate, points: seq<Point>, s: Decoder)
    requires d.WellFormed() && Placed(d, s) && PastLast(d, points, s)
    ensures CompleteTo(d, points, s.raw)
  {
    if points != [] {
      var last := points[|points| - 1];
      forall b: nat | last.block < b < d.Blocks() && d.cuts[b].raw < s.raw ensures Unwanted(d, last, b) {
        assert s.block + 1 < b ==> d.Ascend(s.block + 1, b);
      }
    }
  }

  /** Before the first access point nothing has been put out; at a boundary, the last one lies behind. */
  lemma MovedPastLast(d: Deflate, points: seq<Point>, s: Decoder, t: Decoder, ret: ZReturn)
    requires d.WellFormed() && Placed(d, t) && PastLast(d, points, s) && Moved(s, t, ret)
    ensures points == [] ==> t.raw == 0 && (t.block == -1 || (t.block == 0 && t.boundary && !t.last && !t.done))
    ensures points != [] ==> points[|points| - 1].block <= t.block
    ensures points != [] && t.boundary && !t.done ==> points[|points| - 1].block < t.block
    ensures points != [] ==> NoneMissed(d, points[|points| - 1], t.block)
    ensures points != [] && (!t.boundary || t.last || s.done) ==> PastLast(d, points, t)
  {
  }

  /** The header of the file ends within its first chunk. */
  predicate HeaderFits(d: Deflate)
    requires d.WellFormed()
  {
    d.cuts[0].ByteAddress() <= CHUNK
  }

  class GzipReader {
    const d: Deflate
    const list: AccessPointList
    var filePos: nat

    ghost predicate Valid()
      reads list, list.repr
    {
      d.WellFormed() && list.Valid() && Index(d, list.points)
    }

    /** Every entry of the list was there before, or is newly allocated. */
    twostate predicate OnlyNewEntries()
      reads list
    {
      forall e :: e in list.repr ==> e in old(list.repr) || fresh(e)
    }

    constructor (d: Deflate)
      requires d.WellFormed()
      ensures Valid() && fresh(list) && list.points == [] && list.repr == {} && filePos == 0 && this.d == d
    {
      this.d := d;
      list := new AccessPointList();
      filePos := 0;
    }

    /** Reads up to `n` bytes of the file. */
    method Fread(n: nat) returns (bytes: seq<byte>)
      requires filePos <= |d.file|
      modifies this`filePos
      ensures filePos == old(filePos) + |bytes| <= |d.file|
      ensures |bytes| == Min(n, |d.file| - old(filePos))
      ensures FromFile(d, old(filePos), bytes)
    {
      var m := Min(n, |d.file| - filePos);
      bytes := d.file[filePos..filePos + m];
      filePos := filePos + m;
    }

    /** The counters are exact, and the window holds what the decoder put out. */
    ghost predicate Decoding(z: ZStream, window: array<byte>, rawCounter: int, compressedCounter: int,
                             start: nat, earlier: seq<nat>, p: nat)
      reads z, window
      requires d.WellFormed()
    {
      && z.Valid(d) && window.Length == WINDOW_SIZE
      && rawCounter == z.s.raw == start + Sum(earlier) + p && compressedCounter == z.s.fed
      && (z.trusted ==> RingHolds(d.raw, window[..], start, earlier, p))
    }

    /** Where the next output byte goes: the ring position, or nowhere when the ring is full. */
    ghost predicate Positioned(z: ZStream, p: nat)
      reads z
    {
      if z.availOut == 0 then p % WINDOW_SIZE == 0
      else z.nextOut + z.availOut == WINDOW_SIZE && z.nextOut == p % WINDOW_SIZE
    }

    /** Adds an access point at the block boundary where the decoder stands. */
    method AddAccessPoint(z: ZStream, rawCounter: nat, compressedCounter: nat, window: array<byte>,
                          ghost start: nat, ghost earlier: seq<nat>, ghost produced: nat)
      requires Valid() && Decoding(z, window, rawCounter, compressedCounter, start, earlier, produced)
      requires z.s.boundary && !z.s.last && !z.s.done && RoomLeft(z.availOut, produced)
      requires if list.points == [] then rawCounter == 0 && z.s.block == 0
               else var last := list.points[|list.points| - 1];
                    last.block < z.s.block && (rawCounter == 0 || rawCounter - last.raw > SPAN) && NoneMissed(d, last, z.s.block)
      modifies list, list.repr
      ensures Valid() && OnlyNewEntries() && list.last != null && list.last.raw == rawCounter
      ensures |list.points| == |old(list.points)| + 1 && list.points[|old(list.points)|].raw == rawCounter
      ensures Grown(old(list.points), list.points, z.trusted, start, earlier) && PastLast(d, list.points, z.s)
    {
      ghost var origin := Origin(z.trusted, start, earlier, produced);
      var entry := new Entry(rawCounter, compressedCounter, z.s.bits, z.availOut, window[..], z.s.block, origin);
      UnrolledExplains(d, window[..], z.availOut, entry.Data());
      IndexExtends(d, list.points, entry.Data());
      list.Append(entry);
      assert list.last.Data() == list.points[|list.points| - 1];
    }

    /** One call of the decoder into the ring. */
    method InflateRing(z: ZStream, window: array<byte>, ghost start: nat, ghost earlier: seq<nat>, ghost p: nat)
      returns (ret: ZReturn)
      requires d.WellFormed() && Decoding(z, window, z.s.raw, z.s.fed, start, earlier, p) && Positioned(z, p)
      requires z.nextIn != [] && z.availOut > 0
      modifies z`nextIn, z`nextOut, z`availOut, z`s, window
      ensures Moved(old(z.s), z.s, ret) && |z.nextIn| == |old(z.nextIn)| - (z.s.fed - old(z.s).fed)
      ensures z.availOut == old(z.availOut) - (z.s.raw - old(z.s).raw)
      ensures var q := p + z.s.raw - old(z.s).raw;
              Decoding(z, window, z.s.raw, z.s.fed, start, earlier, q) && Positioned(z, q)
    {
      ghost var before := window[..];
      ret := z.Inflate(d, true, window);
      StepMoves(d, old(z.s), |old(z.nextIn)|, old(z.availOut), z.s, ret);
      ghost var n := z.s.raw - old(z.s).raw;
      PlaceInRing(p, n);
      if z.trusted {
        RingAdvance(d.raw, before, window[..], start, earlier, p, n);
      }
    }

    /** One turn of the accounting: the counters go forward to the end of what is available, and back by what is left. */
    method IndexStep(z: ZStream, window: array<byte>, raw0: nat, compressed0: nat,
                     ghost start: nat, ghost earlier: seq<nat>, ghost p0: nat)
      returns (ret: ZReturn, rawCounter: int, compressedCounter: int, ghost p: nat)
      requires d.WellFormed() && Decoding(z, window, raw0, compressed0, start, earlier, p0) && Positioned(z, p0)
      requires z.nextIn != []
      modifies z`nextIn, z`nextOut, z`availOut, z`s, window
      ensures Decoding(z, window, rawCounter, compressedCounter, start, earlier, p) && Positioned(z, p)
      ensures Moved(old(z.s), z.s, ret)
      ensures |z.nextIn| == |old(z.nextIn)| - (z.s.fed - old(z.s).fed)
    {
      if z.availOut == 0 {
        z.availOut := WINDOW_SIZE;
        z.nextOut := 0;
      }
      rawCounter, compressedCounter := raw0, compressed0;
      compressedCounter := compressedCounter + |z.nextIn|;
      rawCounter := rawCounter + z.availOut;

      ret := InflateRing(z, window, start, earlier, p0);

      compressedCounter := compressedCounter - |z.nextIn|;
      rawCounter := rawCounter - z.availOut;
      p := p0 + z.s.raw - old(z.s).raw;
    }

    /** Whether an access point belongs where the decoder has stopped. */
    predicate WantsPoint(s: Decoder, rawCounter: int)
      reads list, list.last
      requires list.last == null ==> rawCounter == 0
    {
      s.boundary && !s.last && (rawCounter == 0 || rawCounter - list.last.raw > SPAN)
    }

    /** After a call of the decoder: an access point, if one belongs where it stopped. */
    method ConsiderPoint(maxAddress: nat, z: ZStream, window: array<byte>, rawCounter: nat, compressedCounter: nat,
                         ghost start: nat, ghost earlier: seq<nat>, ghost p: nat, ghost s: Decoder)
      returns (stop: bool)
      requires Valid() && Decoding(z, window, rawCounter, compressedCounter, start, earlier, p) && Positioned(z, p)
      requires PastLast(d, list.points, s) && Moved(s, z.s, Z_OK)
      modifies list, list.repr
      ensures Valid() && OnlyNewEntries() && PastLast(d, list.points, z.s)
      ensures Grown(old(list.points), list.points, z.trusted, start, earlier)
      ensures list.points != old(list.points) <==> old(WantsPoint(z.s, rawCounter))
      ensures stop <==> list.points != old(list.points) && maxAddress < rawCounter + SPAN
      ensures Needed(list.points, |old(list.points)|, maxAddress, if stop then rawCounter else -1)
    {
      stop := false;
      MovedPastLast(d, list.points, s, z.s, Z_OK);
      assert list.last != null ==> list.last.Data() == list.points[|list.points| - 1];
      if WantsPoint(z.s, rawCounter) {
        AddAccessPoint(z, rawCounter, compressedCounter, window, start, earlier, p);
        stop := maxAddress < list.last.raw + SPAN;
      }
    }

    /** One turn inside a chunk: a call of the decoder, and an access point if one belongs where it stopped. */
    method IndexTurn(maxAddress: nat, z: ZStream, window: array<byte>, raw0: nat, compressed0: nat,
                     ghost start: nat, ghost earlier: seq<nat>, ghost p0: nat)
      returns (stop: bool, rawCounter: int, compressedCounter: int, ghost p: nat)
      requires Valid() && Decoding(z, window, raw0, compressed0, start, earlier, p0) && Positioned(z, p0)
      requires PastLast(d, list.points, z.s) && z.nextIn != []
      modifies list, list.repr, z`nextIn, z`nextOut, z`availOut, z`s, window
      ensures Valid() && OnlyNewEntries()
      ensures Decoding(z, window, rawCounter, compressedCounter, start, earlier, p) && Positioned(z, p)
      ensures PastLast(d, list.points, z.s) && Grown(old(list.points), list.points, z.trusted, start, earlier)
      ensures |z.nextIn| == |old(z.nextIn)| - (z.s.fed - old(z.s).fed)
      ensures stop ==> z.s.done || (list.points != [] && maxAddress < rawCounter + SPAN)
      ensures Needed(list.points, |old(list.points)|, maxAddress, if stop then rawCounter else -1)
      ensures !stop ==> z.s.fed + z.s.raw > old(z.s).fed + old(z.s).raw
      ensures old(z.s).done ==> z.s == old(z.s)
    {
      var ret;
      ret, rawCounter, compressedCounter, p := IndexStep(z, window, raw0, compressed0, start, earlier, p0);
      stop := true;
      MovedPastLast(d, list.points, old(z.s), z.s, ret);
      if ret != Z_STREAM_END {
        stop := ConsiderPoint(maxAddress, z, window, rawCounter, compressedCounter, start, earlier, p, old(z.s));
      }
    }

    /** All input read so far has been decoded, or the stream has ended. */
    ghost predicate AtChunkEnd(z: ZStream)
      reads this`filePos, z
    {
      filePos <= |d.file| && (z.s.done || (z.nextIn == [] && filePos == z.s.fed))
    }

    /** Indexes the input of one chunk, or the part of it up to where `maxAddress` is covered. */
    method IndexInput(maxAddress: nat, z: ZStream, window: array<byte>, raw0: nat, compressed0: nat,
                      ghost start: nat, ghost earlier: seq<nat>)
      returns (rawCounter: int, compressedCounter: int, ghost p: nat)
      requires Valid() && Decoding(z, window, raw0, compressed0, start, earlier, 0) && Positioned(z, 0)
      requires PastLast(d, list.points, z.s) && z.nextIn != []
      requires filePos <= |d.file| && (!z.s.done ==> filePos == z.s.fed + |z.nextIn|)
      modifies list, list.repr, z`nextIn, z`nextOut, z`availOut, z`s, window
      ensures Valid() && OnlyNewEntries()
      ensures Decoding(z, window, rawCounter, compressedCounter, start, earlier, p)
      ensures PastLast(d, list.points, z.s) && Grown(old(list.points), list.points, z.trusted, start, earlier)
      ensures Needed(list.points, |old(list.points)|, maxAddress, rawCounter)
      ensures AtChunkEnd(z) || (list.points != [] && maxAddress < rawCounter + SPAN)
      ensures !old(z.s).done ==> z.s.fed <= filePos
      ensures old(z.s).done ==> z.s == old(z.s)
    {
      rawCounter, compressedCounter, p := raw0, compressed0, 0;
      var stop := false;
      while !stop && |z.nextIn| != 0
        invariant Valid() && OnlyNewEntries()
        invariant Decoding(z, window, rawCounter, compressedCounter, start, earlier, p) && Positioned(z, p)
        invariant PastLast(d, list.points, z.s) && Grown(old(list.points), list.points, z.trusted, start, earlier)
        invariant !old(z.s).done ==> filePos == z.s.fed + |z.nextIn|
        invariant stop ==> z.s.done || (list.points != [] && maxAddress < rawCounter + SPAN)
        invariant Needed(list.points, |old(list.points)|, maxAddress, if stop then rawCounter else -1)
        invariant old(z.s).done ==> z.s == old(z.s)
        decreases !stop, |d.file| - z.s.fed + |d.raw| - z.s.raw
      {
        ghost var points := list.points;
        stop, rawCounter, compressedCounter, p := IndexTurn(maxAddress, z, window, rawCounter, compressedCounter, start, earlier, p);
        NeededGrows(|old(list.points)|, points, list.points, maxAddress, if stop then rawCounter else -1);
      }
    }

    /** Reads and indexes one chunk of the file. */
    method IndexNextChunk(maxAddress: nat, z: ZStream, window: array<byte>, raw0: nat, compressed0: nat,
                          ghost start: nat, ghost earlier: seq<nat>)
      returns (ret: ZReturn, rawCounter: int, compressedCounter: int, ghost p: nat)
      requires Valid() && Decoding(z, window, raw0, compressed0, start, earlier, 0) && AtChunkEnd(z)
      requires PastLast(d, list.points, z.s)
      modifies this, list, list.repr, z`nextIn, z`nextOut, z`availOut, z`s, window
      ensures Valid() && OnlyNewEntries()
      ensures Decoding(z, window, rawCounter, compressedCounter, start, earlier, p)
      ensures PastLast(d, list.points, z.s) && Grown(old(list.points), list.points, z.trusted, start, earlier)
      ensures ret == (if old(filePos) == |d.file| then Z_DATA_ERROR else Z_OK)
      ensures filePos == old(filePos) + Min(CHUNK, |d.file| - old(filePos))
      ensures Needed(list.points, |old(list.points)|, maxAddress, rawCounter)
      ensures AtChunkEnd(z) || (list.points != [] && maxAddress < rawCounter + SPAN)
      ensures !old(z.s).done ==> z.s.fed <= filePos
      ensures old(z.s).done ==> z.s == old(z.s)
    {
      var bytes := Fread(CHUNK);
      if |bytes| == 0 {
        return Z_DATA_ERROR, raw0, compressed0, 0;
      }
      z.nextIn := bytes;
      z.availOut := 0;
      rawCounter, compressedCounter, p := IndexInput(maxAddress, z, window, raw0, compressed0, start, earlier);
      ret := Z_OK;
    }

    /** Positions the file at an access point, and makes a decoder that goes on from there. */
    method ResumeAt(entry: Entry, ghost i: nat) returns (z: ZStream)
      requires Valid() && i < |list.points| && entry.Data() == list.points[i]
      modifies this`filePos
      ensures fresh(z) && z.Valid(d) && !z.s.done && z.nextIn == [] && z.availOut == 0
      ensures filePos == z.s.fed == entry.compressed && z.s.raw == entry.raw && z.s.block == list.points[i].block
      ensures z.trusted <==> WindowHolds(list.points[i].context, d.raw, list.points[i].raw)
    {
      assert PointOk(d, list.points, i);
      d.BlockFits(entry.block);
      var address := entry.compressed;
      filePos := if entry.bits != 0 then address - 1 else address;
      var primed := 0;
      if entry.bits != 0 {
        var nextChar := d.file[filePos];
        filePos := filePos + 1;
        primed := HighBits(nextChar, entry.bits);
        HighBitsAre(nextChar, entry.bits);
      }
      z := new ZStream.InflateInitAt(d, address, entry.bits, primed, entry.context, entry.block);
    }

    /** A decoder for the whole file, or for what follows the last access point, with the file in position. */
    method StartDecoder() returns (z: ZStream, rawCounter: nat, compressedCounter: nat)
      requires Valid() && (list.points == [] ==> filePos == 0)
      modifies this`filePos
      ensures fresh(z) && z.Valid(d) && !z.s.done && z.nextIn == [] && filePos == z.s.fed <= |d.file|
      ensures rawCounter == z.s.raw && compressedCounter == z.s.fed && PastLast(d, list.points, z.s)
      ensures rawCounter == if list.points == [] then 0 else list.points[|list.points| - 1].raw
      ensures list.points == [] ==> filePos == 0
      ensures z.trusted <==> SeesTruth(d, list.points)
    {
      rawCounter, compressedCounter := 0, 0;
      if list.length > 0 {
        var entry := list.last;
        assert entry.Data() == list.points[|list.points| - 1];
        rawCounter := entry.raw;
        compressedCounter := entry.compressed;
        z := ResumeAt(entry, |list.points| - 1);
      } else {
        z := new ZStream.InflateInit(d);
      }
    }

    /** Whether the first chunk of a file brings the first access point. */
    lemma FirstPoint(points: seq<Point>, s: Decoder, position: nat)
      requires d.WellFormed() && Placed(d, s) && PastLast(d, points, s)
      requires points == [] ==> s.fed == position >= Min(CHUNK, |d.file|)
      ensures points == [] ==> s.raw == 0 && !HeaderFits(d)
      ensures !HeaderFits(d) && s.fed <= CHUNK ==> points == [] && s.raw == 0
    {
      if s.block > 0 {
        assert d.Ascend(0, s.block);
      }
    }

    /** One turn of a build: a chunk, after which the next one starts. */
    method BuildTurn(maxAddress: nat, z: ZStream, window: array<byte>, raw0: nat, compressed0: nat,
                     ghost points: seq<Point>, ghost start: nat, ghost earlier: seq<nat>)
      returns (ret: ZReturn, rawCounter: int, compressedCounter: int, ghost chunks: seq<nat>)
      requires Valid() && Decoding(z, window, raw0, compressed0, start, earlier, 0) && AtChunkEnd(z)
      requires PastLast(d, list.points, z.s) && Built(points, list.points, z.trusted, start)
      requires Needed(list.points, |points|, maxAddress, -1)
      modifies this, list, list.repr, z`nextIn, z`nextOut, z`availOut, z`s, window
      ensures Valid() && OnlyNewEntries() && chunks != []
      ensures Decoding(z, window, rawCounter, compressedCounter, start, chunks, 0)
      ensures PastLast(d, list.points, z.s) && Built(points, list.points, z.trusted, start)
      ensures Needed(list.points, |points|, maxAddress, rawCounter)
      ensures ret == (if old(filePos) == |d.file| then Z_DATA_ERROR else Z_OK)
      ensures filePos == old(filePos) + Min(CHUNK, |d.file| - old(filePos))
      ensures AtChunkEnd(z) || (list.points != [] && maxAddress < rawCounter + SPAN)
      ensures !old(z.s).done ==> z.s.fed <= filePos
      ensures old(z.s).done ==> z.s == old(z.s) && rawCounter == raw0
      ensures list.points == [] ==> rawCounter == 0 && !HeaderFits(d)
      ensures !HeaderFits(d) && z.s.fed <= CHUNK ==> list.points == [] && rawCounter == 0
    {
      ghost var p, before := 0, list.points;
      ret, rawCounter, compressedCounter, p := IndexNextChunk(maxAddress, z, window, raw0, compressed0, start, earlier);
      BuiltGrows(points, before, list.points, z.trusted, start, earlier);
      NeededGrows(|points|, before, list.points, maxAddress, rawCounter);
      if z.trusted {
        RingNextChunk(d.raw, window[..], start, earlier, p);
      }
      chunks := earlier + [p];
      assert chunks[..|earlier|] == earlier;
      FirstPoint(list.points, z.s, filePos);
    }

    /** The chunks of a build, from the position where its decoder starts. */
    method BuildChunks(maxAddress: nat, z: ZStream, window: array<byte>, raw0: nat, compressed0: nat)
      returns (ret: ZReturn, ghost reached: nat)
      requires Valid() && Decoding(z, window, raw0, compressed0, raw0, [], 0) && AtChunkEnd(z) && !z.s.done
      requires PastLast(d, list.points, z.s) && (list.points == [] ==> filePos == 0)
      modifies this, list, list.repr, z`nextIn, z`nextOut, z`availOut, z`s, window
      ensures Valid() && OnlyNewEntries() && reached <= |d.raw|
      ensures ret == (if maxAddress >= |d.raw| + SPAN then Z_DATA_ERROR else Z_OK)
      ensures if ret == Z_OK then maxAddress < reached + SPAN else reached == |d.raw|
      ensures Built(old(list.points), list.points, z.trusted, raw0) && CompleteTo(d, list.points, reached)
      ensures Needed(list.points, |old(list.points)|, maxAddress, reached)
      ensures list.points != [] <==> old(list.points) != [] || HeaderFits(d) || maxAddress >= SPAN
    {
      var rawCounter, compressedCounter := raw0, compressed0;
      ghost var chunks := [];
      ret := Z_OK;
      while ret == Z_OK
        invariant Valid() && OnlyNewEntries()
        invariant Decoding(z, window, rawCounter, compressedCounter, raw0, chunks, 0) && AtChunkEnd(z)
        invariant PastLast(d, list.points, z.s) && Built(old(list.points), list.points, z.trusted, raw0)
        invariant Needed(list.points, |old(list.points)|, maxAddress, -1)
        invariant ret == Z_OK || (ret == Z_DATA_ERROR && z.s.done)
        invariant if chunks == [] then !z.s.done && (old(list.points) == [] ==> filePos == 0)
                  else maxAddress >= rawCounter + SPAN
        decreases |d.file| - filePos, ret == Z_OK
      {
        ghost var wasDone := z.s.done;
        ret, rawCounter, compressedCounter, chunks :=
          BuildTurn(maxAddress, z, window, rawCounter, compressedCounter, old(list.points), raw0, chunks);
        assert ret == Z_DATA_ERROR ==> wasDone;
        if maxAddress < rawCounter + SPAN {
          break;
        }
      }
      reached := rawCounter;
      PastLastIsComplete(d, list.points, z.s);
    }

    /**
     * Extends the index until every address up to `maxAddress` lies less than SPAN behind what has been
     * decoded.  It fails exactly when the stream ends SPAN or more before that address.
     */
    method BuildIndex(maxAddress: nat) returns (ret: ZReturn, ghost reached: nat)
      requires Valid() && (list.points == [] ==> filePos == 0)
      modifies this, list, list.repr
      ensures Valid() && OnlyNewEntries() && reached <= |d.raw|
      ensures ret == (if maxAddress >= |d.raw| + SPAN then Z_DATA_ERROR else Z_OK)
      ensures if ret == Z_OK then maxAddress < reached + SPAN else reached == |d.raw|
      ensures CompleteTo(d, list.points, reached) && Needed(list.points, |old(list.points)|, maxAddress, reached)
      ensures var before := old(list.points);
              Built(before, list.points, SeesTruth(d, before), BuildStart(before))
      ensures list.points != [] <==> old(list.points) != [] || HeaderFits(d) || maxAddress >= SPAN
    {
      var z, rawCounter, compressedCounter := StartDecoder();
      var window := new byte[WINDOW_SIZE];
      ret, reached := BuildChunks(maxAddress, z, window, rawCounter, compressedCounter);
    }

    /** Makes sure that the index is good enough for `maxAddress`. */
    method CheckAndBuildIndex(maxAddress: nat) returns (ret: ZReturn)
      requires Valid() && (list.points == [] ==> filePos == 0)
      modifies this, list, list.repr
      ensures Valid() && OnlyNewEntries()
      ensures ret == (if maxAddress >= |d.raw| + SPAN then Z_DATA_ERROR else Z_OK)
      ensures Built(old(list.points), list.points, SeesTruth(d, old(list.points)), BuildStart(old(list.points)))
      ensures CompleteTo(d, list.points, Min(|d.raw|, maxAddress - SPAN + 1))
      ensures forall i :: |old(list.points)| <= i < |list.points| - 1 ==> list.points[i].raw + SPAN <= maxAddress
      ensures list.points != [] <==> old(list.points) != [] || HeaderFits(d) || maxAddress >= SPAN
    {
      if list.length > 0 {
        assert list.last.Data() == list.points[|list.points| - 1];
        assert PointOk(d, list.points, |list.points| - 1) && d.Ascend(list.last.block, d.Blocks());
        var lastIndex := list.last.raw + SPAN;
        if lastIndex > maxAddress {
          LastIsComplete(d, list.points);
          return Z_OK;
        }
      }
      ghost var reached;
      ret, reached := BuildIndex(maxAddress);
    }
  }
}
