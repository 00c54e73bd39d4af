/** Reading a range of the decompressed stream of a gzip file, from the nearest access point on. */
module GzipRead {
  import opened Bytes
  import opened DeflateStream
  import opened GzipList
  import opened GzipIndex

  /** The access point to start from is the last one before `offset`, or the first of all. */
  ghost predicate Nearest(points: seq<Point>, i: nat, offset: nat) {
    && i < |points|
    && (i > 0 ==> points[i].raw < offset)
    && (i + 1 < |points| ==> points[i + 1].raw >= offset)
  }

  /** How many bytes a request for `n` bytes at `offset` can get. */
  function Available(d: Deflate, offset: nat, n: nat): nat {
    if offset >= |d.raw| then 0 else Min(n, |d.raw| - offset)
  }

  /** All bytes read from the file so far have been taken by the decoder, or wait as its input. */
  ghost predicate InStep(r: GzipReader, z: ZStream)
    requires r.d.WellFormed()
    reads r`filePos, z
  {
    z.Valid(r.d) && r.filePos <= |r.d.file| && (!z.s.done ==> r.filePos == z.s.fed + |z.nextIn|)
  }

  /** `n` bytes have been written at `at`, those of the stream from address `from` on if the decoder is trusted. */
  ghost predicate Put(before: seq<byte>, after: seq<byte>, at: nat, n: nat, trusted: bool, raw: seq<byte>, from: nat) {
    && |after| == |before| && at + n <= |before| && from + n <= |raw|
    && (forall j :: 0 <= j < |before| && !(at <= j < at + n) ==> after[j] == before[j])
    && (trusted ==> forall j :: at <= j < at + n ==> after[j] == raw[from + j - at])
  }

  lemma PutTwice(s0: seq<byte>, s1: seq<byte>, s2: seq<byte>, at: nat, n: nat, m: nat, trusted: bool, raw: seq<byte>, from: nat)
    requires Put(s0, s1, at, n, trusted, raw, from) && Put(s1, s2, at + n, m, trusted, raw, from + n)
    ensures Put(s0, s2, at, n + m, trusted, raw, from)
  {
  }

  /** One call of the decoder, with more input if it has none. */
  method ReadNextChunk(r: GzipReader, z: ZStream, out: array<byte>) returns (ret: ZReturn)
    requires r.d.WellFormed() && InStep(r, z) && !z.s.done && z.nextOut + z.availOut <= out.Length
    modifies r`filePos, z`nextIn, z`nextOut, z`availOut, z`s, out
    ensures InStep(r, z) && (z.s.done <==> ret == Z_STREAM_END)
    ensures ret != Z_DATA_ERROR
    ensures ret == Z_BUF_ERROR ==> old(z.availOut) == 0
    ensures old(z.s).fed <= z.s.fed && old(z.s).raw <= z.s.raw
    ensures ret == Z_OK ==> z.s.fed + z.s.raw > old(z.s).fed + old(z.s).raw
    ensures z.availOut == old(z.availOut) - (z.s.raw - old(z.s).raw)
    ensures z.nextOut == old(z.nextOut) + (z.s.raw - old(z.s).raw)
    ensures Put(old(out[..]), out[..], old(z.nextOut), z.s.raw - old(z.s).raw, z.trusted, r.d.raw, old(z.s).raw)
  {
    if |z.nextIn| == 0 {
      var bytes := r.Fread(CHUNK);
      if |bytes| == 0 {
        return Z_DATA_ERROR;
      }
      z.nextIn := bytes;
    }
    ret := z.Inflate(r.d, false, out);
  }

  /** Calls the decoder until the room in `out` is filled, or the stream ends. */
  method Fill(r: GzipReader, z: ZStream, out: array<byte>) returns (ret: ZReturn)
    requires r.d.WellFormed() && InStep(r, z) && !z.s.done && z.nextOut + z.availOut <= out.Length
    modifies r`filePos, z`nextIn, z`nextOut, z`availOut, z`s, out
    ensures InStep(r, z) && (z.s.done <==> ret == Z_STREAM_END) && ret != Z_DATA_ERROR
    ensures ret == Z_BUF_ERROR ==> old(z.availOut) == 0
    ensures z.s.raw == old(z.s).raw + Min(old(z.availOut), |r.d.raw| - old(z.s).raw)
    ensures ret == Z_OK ==> z.s.raw == old(z.s).raw + old(z.availOut)
    ensures old(z.s).raw <= z.s.raw
    ensures Put(old(out[..]), out[..], old(z.nextOut), z.s.raw - old(z.s).raw, z.trusted, r.d.raw, old(z.s).raw)
  {
    ghost var raw, room, at, before := z.s.raw, z.availOut, z.nextOut, out[..];
    ret := Z_OK;
    var again := true;
    while again
      invariant InStep(r, z) && (z.s.done <==> ret == Z_STREAM_END) && ret != Z_DATA_ERROR
      invariant ret == Z_BUF_ERROR ==> room == 0
      invariant z.s.raw - raw == room - z.availOut == z.nextOut - at >= 0
      invariant Put(before, out[..], at, z.s.raw - raw, z.trusted, r.d.raw, raw)
      invariant !again ==> ret != Z_OK || z.availOut == 0
      invariant again ==> ret == Z_OK && (z.availOut != 0 || room == 0)
      decreases |r.d.file| - z.s.fed + |r.d.raw| - z.s.raw, again
    {
      ghost var middle, n := out[..], z.s.raw - raw;
      ret := ReadNextChunk(r, z, out);
      PutTwice(before, middle, out[..], at, n, z.s.raw - raw - n, z.trusted, r.d.raw, raw);
      again := z.availOut != 0 && ret == Z_OK;
    }
  }

  /** Finds the access point to start from. */
  method FindStart(r: GzipReader, offset: nat) returns (current: Entry, ghost i: nat)
    requires r.Valid() && r.list.points != []
    ensures Nearest(r.list.points, i, offset) && current.Data() == r.list.points[i]
  {
    current, i := r.list.first, 0;
    while current.next != null && current.next.raw < offset
      invariant i < |r.list.points| && current == r.list.order[i]
      invariant i > 0 ==> r.list.points[i].raw < offset
      decreases |r.list.points| - i
    {
      assert current.next == r.list.order[i + 1] && r.list.order[i + 1].Data() == r.list.points[i + 1];
      current, i := current.next, i + 1;
    }
    assert current.next == r.list.At(i + 1) && current.Data() == r.list.points[i];
    assert current.next != null ==> current.next.Data() == r.list.points[i + 1];
  }

  /** Puts out the stream from the decoder's position on, up to `offset` into nothing, then `n` bytes into `buffer`. */
  method SkipAndRead(r: GzipReader, z: ZStream, buffer: array<byte>, offset: nat, n: nat) returns (ret: ZReturn)
    requires r.d.WellFormed() && InStep(r, z) && !z.s.done && z.s.raw <= offset && n <= buffer.Length
    modifies r`filePos, z`nextIn, z`nextOut, z`availOut, z`s, buffer
    ensures ret == Z_OK || ret == Z_STREAM_END || (n == 0 && ret == Z_BUF_ERROR)
    ensures Put(old(buffer[..]), buffer[..], 0, Available(r.d, offset, n), z.trusted, r.d.raw, Min(offset, |r.d.raw|))
  {
    var discard := new byte[WINDOW_SIZE];
    var left: nat, skip := offset - z.s.raw, true;
    ret := Z_OK;
    while skip && ret == Z_OK
      invariant InStep(r, z) && ret != Z_DATA_ERROR
      invariant ret == Z_BUF_ERROR ==> n == 0 && !skip
      invariant z.s.done <==> ret == Z_STREAM_END
      invariant skip ==> buffer[..] == old(buffer[..])
      invariant skip && ret == Z_OK ==> z.s.raw + left == offset
      invariant skip && ret == Z_STREAM_END ==> offset >= |r.d.raw|
      invariant !skip ==> Put(old(buffer[..]), buffer[..], 0, Available(r.d, offset, n), z.trusted, r.d.raw, Min(offset, |r.d.raw|))
      decreases skip, left, ret == Z_OK
    {
      if left == 0 && skip {
        z.availOut, z.nextOut := n, 0;
        skip := false;
        ret := Fill(r, z, buffer);
      } else {
        if left > WINDOW_SIZE {
          z.availOut, z.nextOut := WINDOW_SIZE, 0;
          left := left - WINDOW_SIZE;
        } else if left != 0 {
          z.availOut, z.nextOut := left, 0;
          left := 0;
        }
        ret := Fill(r, z, discard);
      }
    }
  }

  /** Reads from the index as it is.  The room for the output is a 32-bit number. */
  method ReadIndexed(r: GzipReader, buffer: array<byte>, offset: nat, length: nat) returns (ret: ZReturn, ghost i: nat)
    requires r.Valid() && length <= buffer.Length && (length > 0 ==> r.list.points != [])
    modifies r`filePos, buffer
    ensures length == 0 ==> ret == Z_OK && buffer[..] == old(buffer[..])
    ensures length > 0 ==>
              && Nearest(r.list.points, i, offset)
              && Put(old(buffer[..]), buffer[..], 0, Available(r.d, offset, length % TWO_32),
                     WindowHolds(r.list.points[i].context, r.d.raw, r.list.points[i].raw), r.d.raw, Min(offset, |r.d.raw|))
    ensures ret == Z_OK || ret == Z_STREAM_END || (length > 0 && length % TWO_32 == 0 && ret == Z_BUF_ERROR)
  {
    i := 0;
    if length == 0 {
      return Z_OK, i;
    }
    var current;
    current, i := FindStart(r, offset);
    NearestBefore(r.d, r.list.points, i, offset);
    var z := r.ResumeAt(current, i);
    ret := SkipAndRead(r, z, buffer, offset, length % TWO_32);
  }

  /** No access point after the nearest one is before the offset, and the nearest one is not behind it. */
  lemma NearestBefore(d: Deflate, points: seq<Point>, i: nat, offset: nat)
    requires d.WellFormed() && Index(d, points) && Nearest(points, i, offset)
    ensures points[i].raw <= offset
    ensures forall j :: i < j < |points| ==> points[j].raw >= offset
  {
    forall j | i < j < |points| ensures points[j].raw >= offset {
      if i + 1 < j { IndexAscending(d, points, i + 1, j); }
    }
  }

  const INDEXER_ERROR := -1

  /** A read returns a length, or an assertion of the program fails. */
  datatype Outcome = Read(length: int) | Aborted

  /** What must go wrong for a read to fail: the index cannot be built, or is built without any point. */
  predicate Fails(d: Deflate, points: seq<Point>, offset: nat, length: nat)
    requires d.WellFormed()
  {
    || offset + length >= |d.raw| + SPAN
    || (length > 0 && points == [] && !HeaderFits(d) && offset + length < SPAN)
  }

  /** Reads `length` bytes at `offset`, after extending the index as far as that takes; what is returned is the length as an int. */
  method GzipRead(r: GzipReader, buffer: array<byte>, offset: nat, length: nat) returns (outcome: Outcome, ghost i: nat)
    requires r.Valid() && length <= buffer.Length && (r.list.points == [] ==> r.filePos == 0)
    modifies r, r.list, r.list.repr, buffer
    ensures r.Valid() && r.OnlyNewEntries()
    ensures Built(old(r.list.points), r.list.points, SeesTruth(r.d, old(r.list.points)), BuildStart(old(r.list.points)))
    ensures r.list.points != [] <==> old(r.list.points) != [] || HeaderFits(r.d) || offset + length >= SPAN
    ensures length % TWO_32 != 0 || length == 0 ==> (outcome.Aborted? <==> Fails(r.d, old(r.list.points), offset, length))
    ensures outcome.Read? ==> outcome.length == Signed32(length)
    ensures outcome.Read? && length == 0 ==> buffer[..] == old(buffer[..])
    ensures outcome.Read? && length > 0 ==>
              && Nearest(r.list.points, i, offset)
              && Put(old(buffer[..]), buffer[..], 0, Available(r.d, offset, length % TWO_32),
                     WindowHolds(r.list.points[i].context, r.d.raw, r.list.points[i].raw), r.d.raw, Min(offset, |r.d.raw|))
  {
    i := 0;
    var ret := r.CheckAndBuildIndex(offset + length);
    if ret != Z_OK {
      return Aborted, i;
    }
    if length > 0 && r.list.first == null {
      return Aborted, i;
    }
    ret, i := ReadIndexed(r, buffer, offset, length);
    outcome := if ret == Z_OK || ret == Z_STREAM_END then Read(Signed32(length)) else Aborted;
  }

  // ----- Any sequence of reads

  datatype Request = Request(offset: nat, length: nat)

  /** The answer to a request, from point `i` on: the stream, if all points up to this one were made over covered windows. */
  ghost predicate Served(d: Deflate, q: Request, bytes: seq<byte>, points: seq<Point>, i: nat) {
    |bytes| == q.length &&
    (q.length > 0 ==>
       && i < |points| && points[i].raw <= q.offset
       && (AllCovered(points, i + 1) ==>
             forall j :: 0 <= j < Available(d, q.offset, q.length % TWO_32) ==> bytes[j] == d.raw[q.offset + j]))
  }

  lemma PutServes(d: Deflate, q: Request, before: seq<byte>, after: seq<byte>, points: seq<Point>, i: nat)
    requires d.WellFormed() && Index(d, points) && TrueWhereCovered(d, points)
    requires |before| == q.length > 0 && Nearest(points, i, q.offset)
    requires Put(before, after, 0, Available(d, q.offset, q.length % TWO_32),
                 WindowHolds(points[i].context, d.raw, points[i].raw), d.raw, Min(q.offset, |d.raw|))
    ensures Served(d, q, after, points, i)
  {
    NearestBefore(d, points, i, q.offset);
    if AllCovered(points, i + 1) {
      assert TrueIfCovered(d, points, i);
    }
  }

  method ReadOne(r: GzipReader, q: Request) returns (ok: bool, returned: int, bytes: seq<byte>, ghost i: nat)
    requires r.Valid() && TrueWhereCovered(r.d, r.list.points) && (r.list.points == [] ==> r.filePos == 0)
    requires q.length > 0 || HeaderFits(r.d)
    modifies r, r.list, r.list.repr
    ensures r.Valid() && r.OnlyNewEntries() && TrueWhereCovered(r.d, r.list.points)
    ensures q.length % TWO_32 != 0 || q.length == 0 ==> (ok <==> !Fails(r.d, old(r.list.points), q.offset, q.length))
    ensures ok ==> returned == Signed32(q.length)
    ensures ok ==> r.list.points != [] && Served(r.d, q, bytes, r.list.points, i)
    ensures Longer(old(r.list.points), r.list.points)
  {
    var buffer := new byte[q.length];
    ghost var before := buffer[..];
    var outcome;
    outcome, i := GzipRead(r, buffer, q.offset, q.length);
    BuildKeepsTruth(r.d, old(r.list.points), r.list.points);
    ok, bytes := outcome.Read?, buffer[..];
    returned := if ok then outcome.length else 0;
    if ok && q.length > 0 {
      PutServes(r.d, q, before, bytes, r.list.points, i);
    }
  }

  /** All requests answered so far have been served. */
  ghost predicate AllServed(d: Deflate, requests: seq<Request>, answers: seq<seq<byte>>, points: seq<Point>, from: seq<nat>) {
    |answers| == |from| <= |requests| &&
    forall k :: 0 <= k < |answers| ==> Served(d, requests[k], answers[k], points, from[k])
  }

  lemma ServedLater(d: Deflate, requests: seq<Request>, answers: seq<seq<byte>>, from: seq<nat>, before: seq<Point>, after: seq<Point>)
    requires AllServed(d, requests, answers, before, from) && Longer(before, after)
    ensures AllServed(d, requests, answers, after, from)
  {
    forall k | 0 <= k < |answers| ensures Served(d, requests[k], answers[k], after, from[k]) {
      if requests[k].length > 0 && AllCovered(after, from[k] + 1) {
        assert AllCovered(before, from[k] + 1);
      }
    }
  }

  lemma ServedNext(d: Deflate, requests: seq<Request>, answers: seq<seq<byte>>, from: seq<nat>, points: seq<Point>,
                   bytes: seq<byte>, i: nat)
    requires AllServed(d, requests, answers, points, from) && |answers| < |requests|
    requires Served(d, requests[|answers|], bytes, points, i)
    ensures AllServed(d, requests, answers + [bytes], points, from + [i])
  {
  }

  /** All reads through one reader, from a new one on, up to the first that fails. */
  method ReadAll(d: Deflate, requests: seq<Request>) returns (answers: seq<seq<byte>>, returned: seq<int>, ghost from: seq<nat>, ghost points: seq<Point>)
    requires d.WellFormed()
    requires forall k :: 0 <= k < |requests| ==> requests[k].length > 0 || HeaderFits(d)
    ensures Index(d, points) && AllServed(d, requests, answers, points, from)
    ensures |returned| == |answers| && forall k :: 0 <= k < |answers| ==> returned[k] == Signed32(requests[k].length)
    ensures |answers| < |requests| ==>
              var q := requests[|answers|];
              q.offset + q.length >= |d.raw| + SPAN || !HeaderFits(d) || (q.length > 0 && q.length % TWO_32 == 0)
  {
    answers, returned, from := [], [], [];
    var r := new GzipReader(d);
    for k := 0 to |requests|
      invariant r.Valid() && r.d == d && fresh(r) && fresh(r.list) && fresh(r.list.repr)
      invariant TrueWhereCovered(d, r.list.points) && (r.list.points == [] ==> r.filePos == 0)
      invariant |returned| == k && forall j :: 0 <= j < k ==> returned[j] == Signed32(requests[j].length)
      invariant |answers| == k && AllServed(d, requests, answers, r.list.points, from)
    {
      ghost var before := r.list.points;
      var ok, n, bytes, i := ReadOne(r, requests[k]);
      ServedLater(d, requests, answers, from, before, r.list.points);
      if !ok {
        return answers, returned, from, r.list.points;
      }
      ServedNext(d, requests, answers, from, r.list.points, bytes, i);
      answers, returned, from := answers + [bytes], returned + [n], from + [i];
    }
    points := r.list.points;
  }

  /**
   * A read puts `Available(d, offset, length % TWO_32)` bytes into the buffer, and returns `Signed32(length)`.
   * The two are the same exactly for lengths that are, modulo 2^32, below 2^31 and inside the stream, or 0.
   */
  lemma ReportedIsDelivered(d: Deflate, offset: nat, length: nat)
    ensures Available(d, offset, length % TWO_32) == Signed32(length) <==>
            var n := length % TWO_32; n == 0 || (n < TWO_32 / 2 && offset + n <= |d.raw|)
  {
  }

  /** The whole request is delivered exactly if it lies in the stream and has 32 bits; the length asked for is returned exactly below 2^31. */
  lemma CompleteIff(d: Deflate, offset: nat, length: nat)
    ensures Available(d, offset, length % TWO_32) == length <==> length == 0 || (length < TWO_32 && offset + length <= |d.raw|)
    ensures Signed32(length) == length <==> length < TWO_32 / 2
    ensures Signed32(length) == INDEXER_ERROR <==> length % TWO_32 == TWO_32 - 1
  {
  }

  /** Reads of 2^31, 2^32 - 1 and 2^32 + 1 bytes of a stream that has them all. */
  lemma LongReadsMisreported(d: Deflate)
    requires |d.raw| >= TWO_32 + 1
    ensures Available(d, 0, (TWO_32 / 2) % TWO_32) == TWO_32 / 2 && Signed32(TWO_32 / 2) == -TWO_32 / 2
    ensures Available(d, 0, (TWO_32 - 1) % TWO_32) == TWO_32 - 1 && Signed32(TWO_32 - 1) == INDEXER_ERROR
    ensures Available(d, 0, (TWO_32 + 1) % TWO_32) == 1 && Signed32(TWO_32 + 1) == 1
  {
  }
}
