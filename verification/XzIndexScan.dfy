/** Building the block index of an XZ file: a scan over its streams, from the end of the file to its start. */
module XzIndexScan {
  import opened Bytes

  const LZMA_STREAM_HEADER_SIZE := 12
  const IO_BUFFER_SIZE := 16384

  datatype Footer = Footer(version: nat, backwardSize: nat, flags: int)

  /** What the index decoder has to say about the bytes fed to it so far. */
  datatype Progress = More | End(unused: nat, totalSize: nat) | Bad

  /** The decoders of the library; nothing is assumed about them. */
  datatype Codec = Codec(
    footer: seq<byte> -> Option<Footer>,
    header: seq<byte> -> Option<int>,
    index: seq<byte> -> Progress)

  datatype ScanError = DataError | OptionsError | DecoderError

  /** One stream found in the file: header, blocks, index, footer, and the padding after it. */
  datatype StreamRecord = StreamRecord(start: nat, totalSize: nat, indexSize: nat, padding: nat) {
    function IndexAt(): nat { start + LZMA_STREAM_HEADER_SIZE + totalSize }

    function FooterAt(): nat { IndexAt() + indexSize }

    function End(): nat { FooterAt() + LZMA_STREAM_HEADER_SIZE + padding }
  }

  datatype ScanResult = Index(streams: seq<StreamRecord>, streamPadding: nat) | Failed(error: ScanError)

  /** The 4-byte groups that the padding test skips after one read at `position`. */
  function Skipped(file: seq<byte>, position: nat): (k: nat)
    requires position + LZMA_STREAM_HEADER_SIZE <= |file|
    ensures k <= 3
  {
    if file[position + 2] != 0 then 0
    else if file[position + 1] != 0 then 1
    else if file[position] != 0 then 2
    else 3
  }

  /** Where the search for a footer that starts at `position` ends. */
  function Search(file: seq<byte>, position: nat): (r: Option<nat>)
    requires position + LZMA_STREAM_HEADER_SIZE <= |file|
    ensures r.Some? ==> LZMA_STREAM_HEADER_SIZE <= r.value <= position && (position - r.value) % 4 == 0
  {
    if position < LZMA_STREAM_HEADER_SIZE then None
    else if Skipped(file, position) == 0 then Some(position)
    else Search(file, position - 4 * Skipped(file, position))
  }

  /**
   * The search tests single bytes of the first three of what it reads, not 32-bit words.  It therefore
   * recognises a footer at `footerAt`, followed by `k` words of padding and the end of the stream's
   * part of the file, exactly when those bytes happen to stop it there.
   */
  lemma {:induction false} FooterFoundIff(file: seq<byte>, footerAt: nat, k: nat)
    requires LZMA_STREAM_HEADER_SIZE <= footerAt && footerAt + LZMA_STREAM_HEADER_SIZE + 4 * k <= |file|
    requires forall i :: footerAt + LZMA_STREAM_HEADER_SIZE <= i < footerAt + LZMA_STREAM_HEADER_SIZE + 4 * k ==> file[i] == 0
    requires file[footerAt + 10] != 0
    ensures Search(file, footerAt + 4 * k) == Some(footerAt) <==>
            && file[footerAt + 2] != 0
            && (k % 3 == 0 || (k % 3 == 1 && file[footerAt + 6] == 0 && file[footerAt + 5] != 0))
  {
    if k >= 3 {
      assert Skipped(file, footerAt + 4 * k) == 3;
      FooterFoundIff(file, footerAt, k - 3);
    }
  }

  /** A footer whose third checksum byte is zero is never recognised, although nothing follows it. */
  lemma FooterWithZeroByteMissed()
    ensures var file := seq(12, i => 0xFD) + [1, 2, 0, 4, 5, 6, 7, 8, 9, 10, 0x59, 0x5A];
            Search(file, 12) == None
  {
    var file := seq(12, i => 0xFD) + [1, 2, 0, 4, 5, 6, 7, 8, 9, 10, 0x59, 0x5A];
    assert Skipped(file, 12) == 1;
  }

  /** Feeds an index to its decoder, one buffer after the other; the total size of its blocks if it is sound. */
  function DecodeIndex(codec: Codec, bytes: seq<byte>, fed: nat): (r: Option<nat>)
    requires fed <= |bytes|
    decreases |bytes| - fed
  {
    var n := fed + Min(IO_BUFFER_SIZE, |bytes| - fed);
    match codec.index(bytes[..n])
    case More => if n == |bytes| then None else DecodeIndex(codec, bytes, n)
    case End(unused, totalSize) => if n == |bytes| && unused == 0 then Some(totalSize) else None
    case Bad => None
  }

  /** An index is accepted exactly when its decoder ends with its last byte, and not at the end of an earlier buffer. */
  lemma {:induction false} DecodeIndexIff(codec: Codec, bytes: seq<byte>, fed: nat, totalSize: nat)
    requires fed <= |bytes|
    ensures DecodeIndex(codec, bytes, fed) == Some(totalSize) <==>
            && codec.index(bytes) == End(0, totalSize)
            && forall n :: fed < n < |bytes| && (n - fed) % IO_BUFFER_SIZE == 0 ==> codec.index(bytes[..n]) == More
    decreases |bytes| - fed
  {
    var next := fed + Min(IO_BUFFER_SIZE, |bytes| - fed);
    if next == |bytes| {
      assert bytes[..next] == bytes;
    } else {
      DecodeIndexIff(codec, bytes, next, totalSize);
      forall n {:trigger bytes[..n]} | next < n < |bytes| ensures (n - fed) % IO_BUFFER_SIZE == (n - next) % IO_BUFFER_SIZE {}
    }
  }

  function Part(file: seq<byte>, at: nat, n: nat): (r: seq<byte>)
    requires at + n <= |file|
    ensures |r| == n && forall k :: 0 <= k < n ==> r[k] == file[at + k]
  {
    file[at..at + n]
  }

  /** `s` is a stream of the file that the scan accepts: every part decodes, and the search finds its footer. */
  predicate StreamAt(file: seq<byte>, codec: Codec, s: StreamRecord) {
    && s.End() <= |file|
    && Search(file, s.End() - LZMA_STREAM_HEADER_SIZE) == Some(s.FooterAt())
    && Decodes(file, codec, s)
  }

  /** The decoders accept index, footer and header of `s`, and find the sizes and flags consistent. */
  predicate Decodes(file: seq<byte>, codec: Codec, s: StreamRecord)
    requires s.End() <= |file|
  {
    && DecodeIndex(codec, Part(file, s.IndexAt(), s.indexSize), 0) == Some(s.totalSize)
    && var footer := codec.footer(Part(file, s.FooterAt(), LZMA_STREAM_HEADER_SIZE));
       && footer.Some? && footer.value.version == 0 && footer.value.backwardSize == s.indexSize
       && codec.header(Part(file, s.start, LZMA_STREAM_HEADER_SIZE)) == Some(footer.value.flags)
  }

  /** `streams` follow each other without gaps from `start` up to `end`. */
  predicate Adjacent(streams: seq<StreamRecord>, start: nat, end: nat) {
    if streams == [] then start == end
    else
      && streams[0].start == start && streams[|streams| - 1].End() == end
      && forall i {:trigger streams[i].End()} :: 0 <= i < |streams| - 1 ==> streams[i].End() == streams[i + 1].start
  }

  /** `streams`, in file order, tile the file from `start` up to `end`. */
  predicate Tiles(file: seq<byte>, codec: Codec, streams: seq<StreamRecord>, start: nat, end: nat) {
    Adjacent(streams, start, end) && forall i {:trigger StreamAt(file, codec, streams[i])} :: 0 <= i < |streams| ==> StreamAt(file, codec, streams[i])
  }

  function TotalPadding(streams: seq<StreamRecord>): nat {
    if streams == [] then 0 else streams[0].padding + TotalPadding(streams[1..])
  }

  /** Header, blocks, index, footer and padding of all streams. */
  function TotalSize(streams: seq<StreamRecord>): nat {
    if streams == [] then 0
    else TotalSize(streams[..|streams| - 1]) + 2 * LZMA_STREAM_HEADER_SIZE +
         streams[|streams| - 1].totalSize + streams[|streams| - 1].indexSize + streams[|streams| - 1].padding
  }

  /** Header, blocks, index and footer of all streams. */
  function UnpaddedSize(streams: seq<StreamRecord>): nat {
    if streams == [] then 0 else 24 + streams[0].totalSize + streams[0].indexSize + UnpaddedSize(streams[1..])
  }

  /** The padding is what remains of the file. */
  lemma {:induction false} PaddingAccounting(streams: seq<StreamRecord>, start: nat, end: nat)
    requires Adjacent(streams, start, end)
    ensures end - start == TotalPadding(streams) + UnpaddedSize(streams)
  {
    if streams != [] {
      var rest := streams[1..];
      assert rest != [] ==> streams[0].End() == rest[0].start;
      forall i {:trigger rest[i].End()} | 0 <= i < |rest| - 1 ensures rest[i].End() == rest[i + 1].start {
        assert streams[i + 1].End() == streams[i + 2].start;
      }
      PaddingAccounting(rest, streams[0].End(), end);
    }
  }

  /** The file is accounted for to the last byte. */
  lemma {:induction false} TilesAccounting(streams: seq<StreamRecord>, start: nat, end: nat)
    requires Adjacent(streams, start, end)
    ensures start + TotalSize(streams) == end
  {
    if streams != [] {
      var n := |streams| - 1;
      assert n > 0 ==> streams[n - 1].End() == streams[n].start;
      TilesAccounting(streams[..n], start, streams[n].start);
    }
  }

  lemma PaddingIsWords(file: seq<byte>, codec: Codec, s: StreamRecord)
    requires StreamAt(file, codec, s)
    ensures s.padding % 4 == 0
  {
    assert s.End() - LZMA_STREAM_HEADER_SIZE - s.FooterAt() == s.padding;
  }

  /** A stream is determined by where it ends. */
  lemma StreamUnique(file: seq<byte>, codec: Codec, s1: StreamRecord, s2: StreamRecord)
    requires StreamAt(file, codec, s1) && StreamAt(file, codec, s2) && s1.End() == s2.End()
    ensures s1 == s2
  {
    assert s1.FooterAt() == s2.FooterAt() && s1.indexSize == s2.indexSize;
    assert s1.totalSize == s2.totalSize;
  }

  /** Of two tilings with the same end, the last streams are the same. */
  lemma {:induction false} SameFromEnd(file: seq<byte>, codec: Codec, a: seq<StreamRecord>, b: seq<StreamRecord>,
                                       startA: nat, startB: nat, end: nat, k: nat)
    requires Tiles(file, codec, a, startA, end) && Tiles(file, codec, b, startB, end) && k < |a| && k < |b|
    ensures a[|a| - 1 - k] == b[|b| - 1 - k]
  {
    var i, j := |a| - 1 - k, |b| - 1 - k;
    if k > 0 {
      SameFromEnd(file, codec, a, b, startA, startB, end, k - 1);
      assert a[i].End() == a[i + 1].start && b[j].End() == b[j + 1].start;
    }
    StreamUnique(file, codec, a[i], b[j]);
  }

  lemma {:induction false} StartsAscend(streams: seq<StreamRecord>, start: nat, end: nat, i: nat)
    requires Adjacent(streams, start, end) && i < |streams|
    ensures start <= streams[i].start && (i > 0 ==> start < streams[i].start)
  {
    if i > 0 {
      assert streams[i - 1].End() == streams[i].start;
      StartsAscend(streams, start, end, i - 1);
    }
  }

  /** A tiling of a whole file goes through every point that a scan from its end can reach. */
  lemma TilesThrough(file: seq<byte>, codec: Codec, whole: seq<StreamRecord>, found: seq<StreamRecord>, at: nat, end: nat)
    returns (s: StreamRecord)
    requires Tiles(file, codec, whole, 0, end) && Tiles(file, codec, found, at, end) && whole != [] && (at > 0 || found == [])
    ensures s.End() == at && StreamAt(file, codec, s)
  {
    var n, m := |whole|, |found|;
    if n <= m {
      SameFromEnd(file, codec, whole, found, 0, at, end, n - 1);
      StartsAscend(found, at, end, m - n);
      assert false;
    }
    s := whole[n - 1 - m];
    if m > 0 {
      SameFromEnd(file, codec, whole, found, 0, at, end, m - 1);
      assert s.End() == whole[n - m].start;
    }
  }

  lemma TilesAtMost(file: seq<byte>, codec: Codec, a: seq<StreamRecord>, b: seq<StreamRecord>, end: nat)
    requires Tiles(file, codec, a, 0, end) && Tiles(file, codec, b, 0, end)
    ensures |a| <= |b|
  {
    if |a| > |b| {
      StartsAscend(a, 0, end, |a| - |b|);
      if b != [] {
        SameFromEnd(file, codec, a, b, 0, 0, end, |b| - 1);
      }
    }
  }

  /** A file has at most one tiling by streams that the scan accepts. */
  lemma TilesUnique(file: seq<byte>, codec: Codec, a: seq<StreamRecord>, b: seq<StreamRecord>, end: nat)
    requires Tiles(file, codec, a, 0, end) && Tiles(file, codec, b, 0, end)
    ensures a == b
  {
    TilesAtMost(file, codec, a, b, end);
    TilesAtMost(file, codec, b, a, end);
    forall i | 0 <= i < |a| ensures a[i] == b[i] {
      SameFromEnd(file, codec, a, b, 0, 0, end, |a| - 1 - i);
    }
  }

  /** A stream in front of those found before leaves no gap. */
  lemma AdjacentPrepend(s: StreamRecord, streams: seq<StreamRecord>, end: nat)
    requires Adjacent(streams, s.End(), end)
    ensures Adjacent([s] + streams, s.start, end)
  {
    var all := [s] + streams;
    forall i {:trigger all[i].End()} | 0 <= i < |all| - 1 ensures all[i].End() == all[i + 1].start {
      assert i > 0 ==> streams[i - 1].End() == streams[i].start;
    }
  }

  // ----- Streams as the format has them

  /** `s` is a stream that the decoders accept, with its footer magic, and words of zeros after it. */
  predicate ValidStream(file: seq<byte>, codec: Codec, s: StreamRecord) {
    && s.End() <= |file| && s.padding % 4 == 0
    && (forall i :: s.End() - s.padding <= i < s.End() ==> file[i] == 0)
    && file[s.FooterAt() + 10] == 0x59 && file[s.FooterAt() + 11] == 0x5A
    && Decodes(file, codec, s)
  }

  /** The bytes of a footer, and the number of words of padding after it, do not mislead the search. */
  predicate FooterSeen(file: seq<byte>, s: StreamRecord)
    requires s.End() <= |file|
  {
    var f, k := s.FooterAt(), s.padding / 4;
    file[f + 2] != 0 && (k % 3 == 0 || (k % 3 == 1 && file[f + 6] == 0 && file[f + 5] != 0))
  }

  lemma ValidStreamFoundIff(file: seq<byte>, codec: Codec, s: StreamRecord)
    requires ValidStream(file, codec, s)
    ensures StreamAt(file, codec, s) <==> FooterSeen(file, s)
  {
    FooterFoundIff(file, s.FooterAt(), s.padding / 4);
    assert s.FooterAt() + 4 * (s.padding / 4) == s.End() - LZMA_STREAM_HEADER_SIZE;
  }

  /** `streams` are what the file consists of. */
  predicate ValidFile(file: seq<byte>, codec: Codec, streams: seq<StreamRecord>) {
    streams != [] && Adjacent(streams, 0, |file|) && forall i :: 0 <= i < |streams| ==> ValidStream(file, codec, streams[i])
  }

  lemma ValidFileTiledIff(file: seq<byte>, codec: Codec, streams: seq<StreamRecord>)
    requires ValidFile(file, codec, streams)
    ensures Tiles(file, codec, streams, 0, |file|) <==> forall i :: 0 <= i < |streams| ==> FooterSeen(file, streams[i])
  {
    forall i | 0 <= i < |streams| ensures StreamAt(file, codec, streams[i]) <==> FooterSeen(file, streams[i]) {
      ValidStreamFoundIff(file, codec, streams[i]);
    }
  }

  /** The footer search of one stream. */
  method FindFooter(file: seq<byte>, from: nat) returns (found: bool, position: nat, streamPadding: nat)
    requires from + LZMA_STREAM_HEADER_SIZE <= |file|
    ensures found <==> Search(file, from).Some?
    ensures found ==> Search(file, from) == Some(position) && streamPadding == from - position
  {
    position, streamPadding := from, 0;
    while true
      invariant position + streamPadding == from && Search(file, from) == Search(file, position)
      decreases position
    {
      if position < LZMA_STREAM_HEADER_SIZE {
        return false, position, streamPadding;
      }
      var buffer := file[position..position + LZMA_STREAM_HEADER_SIZE];
      assert buffer[0] == file[position] && buffer[1] == file[position + 1] && buffer[2] == file[position + 2];
      var i := 2;
      if buffer[i] != 0 {
        return true, position, streamPadding;
      }
      ghost var k, start := 0, position;
      while i >= 0 && buffer[i] == 0
        invariant -1 <= i <= 2 && k == 2 - i
        invariant position == start - 4 * k && position + streamPadding == from
        invariant forall j :: i < j <= 2 ==> buffer[j] == 0
      {
        streamPadding := streamPadding + 4;
        position := position - 4;
        i := i - 1;
        k := k + 1;
      }
      assert k == Skipped(file, start);
    }
  }

  /** The index of one stream, read in pieces; on success the file position is back at the footer. */
  method ReadIndex(file: seq<byte>, codec: Codec, from: nat, size: nat)
    returns (r: Option<nat>, position: nat)
    requires from + size <= |file|
    ensures r == DecodeIndex(codec, Part(file, from, size), 0)
    ensures r.Some? ==> position == from + size
  {
    var bytes := Part(file, from, size);
    position := from;
    var indexSize := size;
    while true
      invariant position + indexSize == from + size && from <= position <= from + size
      invariant DecodeIndex(codec, bytes, 0) ==
                DecodeIndex(codec, bytes, position - from)
      decreases indexSize
    {
      var n := Min(IO_BUFFER_SIZE, indexSize);
      position := position + n;
      indexSize := indexSize - n;
      assert file[from..position] == bytes[..position - from];
      match codec.index(file[from..position])
      case More =>
        if indexSize == 0 {
          return None, position;  // the decoder finds no more input
        }
      case End(unused, totalSize) =>
        if indexSize != 0 || unused != 0 {
          return None, position;
        }
        return Some(totalSize), position;
      case Bad =>
        return None, position;
    }
  }

  ghost predicate NoStreamAt(file: seq<byte>, codec: Codec, end: nat) {
    forall s: StreamRecord {:trigger StreamAt(file, codec, s)} :: s.End() == end ==> !StreamAt(file, codec, s)
  }

  /** Finds and decodes the footer of the stream that ends at `end`. */
  method ReadFooter(file: seq<byte>, codec: Codec, end: nat)
    returns (r: Option<Footer>, error: ScanError, position: nat, streamPadding: nat)
    requires end <= |file|
    ensures r.Some? ==> FoundFooter(file, codec, end, position, r.value) && streamPadding == end - LZMA_STREAM_HEADER_SIZE - position
    ensures r.None? ==> NoStreamAt(file, codec, end)
  {
    if end < 2 * LZMA_STREAM_HEADER_SIZE {
      return None, DataError, 0, 0;
    }
    var found;
    found, position, streamPadding := FindFooter(file, end - LZMA_STREAM_HEADER_SIZE);
    if !found {
      return None, DataError, 0, 0;
    }
    r, error := codec.footer(Part(file, position, LZMA_STREAM_HEADER_SIZE)), DecoderError;
    if r.Some? && r.value.version != 0 {
      r, error := None, OptionsError;
    }
  }

  /** Before a footer lie the index that it announces, blocks of size `total`, and the header, all of which decode. */
  predicate Preceded(file: seq<byte>, codec: Codec, footerAt: nat, footer: Footer, total: nat)
    requires footerAt <= |file|
  {
    && footerAt >= footer.backwardSize + LZMA_STREAM_HEADER_SIZE + total
    && var indexAt := footerAt - footer.backwardSize;
       && DecodeIndex(codec, Part(file, indexAt, footer.backwardSize), 0) == Some(total)
       && codec.header(Part(file, indexAt - total - LZMA_STREAM_HEADER_SIZE, LZMA_STREAM_HEADER_SIZE)) == Some(footer.flags)
  }

  /** Reads index and header of the stream with a footer at `footerAt`; gives where it starts, and the size of its blocks. */
  method ReadIndexAndHeader(file: seq<byte>, codec: Codec, footerAt: nat, footer: Footer)
    returns (r: Option<nat>, error: ScanError, position: nat)
    requires footerAt <= |file|
    ensures r.Some? ==> Preceded(file, codec, footerAt, footer, r.value)
    ensures r.Some? ==> position == footerAt - footer.backwardSize - r.value - LZMA_STREAM_HEADER_SIZE
    ensures r.None? ==> forall total: nat :: !Preceded(file, codec, footerAt, footer, total)
  {
    position := footerAt;
    var indexSize := footer.backwardSize;
    if position < indexSize + LZMA_STREAM_HEADER_SIZE {
      return None, DataError, position;
    }
    position := position - indexSize;
    r, position := ReadIndex(file, codec, position, indexSize);
    if r.None? {
      return None, DecoderError, position;
    }
    position := position - (footer.backwardSize + LZMA_STREAM_HEADER_SIZE);
    if position < r.value {
      return None, DataError, position;
    }
    position := position - r.value;
    error := DecoderError;
    if codec.header(Part(file, position, LZMA_STREAM_HEADER_SIZE)) != Some(footer.flags) {
      r := None;
    }
  }

  /** The search from `end` found this footer. */
  ghost predicate FoundFooter(file: seq<byte>, codec: Codec, end: nat, footerAt: nat, footer: Footer) {
    && LZMA_STREAM_HEADER_SIZE <= end <= |file| && Search(file, end - LZMA_STREAM_HEADER_SIZE) == Some(footerAt)
    && codec.footer(Part(file, footerAt, LZMA_STREAM_HEADER_SIZE)) == Some(footer) && footer.version == 0
  }

  lemma StreamIff(file: seq<byte>, codec: Codec, s: StreamRecord, footer: Footer, footerAt: nat)
    requires FoundFooter(file, codec, s.End(), footerAt, footer)
    ensures StreamAt(file, codec, s) <==>
            s.FooterAt() == footerAt && s.indexSize == footer.backwardSize && Preceded(file, codec, footerAt, footer, s.totalSize)
  {
  }

  lemma NoneIfNotPreceded(file: seq<byte>, codec: Codec, end: nat, footer: Footer, footerAt: nat)
    requires FoundFooter(file, codec, end, footerAt, footer) && forall total: nat :: !Preceded(file, codec, footerAt, footer, total)
    ensures NoStreamAt(file, codec, end)
  {
    forall s: StreamRecord | s.End() == end ensures !StreamAt(file, codec, s) {
      StreamIff(file, codec, s, footer, footerAt);
    }
  }

  /** One turn of the scan: the stream that ends at `end`, whatever it is. */
  method ReadStream(file: seq<byte>, codec: Codec, end: nat) returns (r: Option<StreamRecord>, error: ScanError)
    requires end <= |file|
    ensures r.Some? ==> r.value.End() == end && StreamAt(file, codec, r.value)
    ensures r.None? ==> NoStreamAt(file, codec, end)
  {
    var footer, footerAt, streamPadding;
    footer, error, footerAt, streamPadding := ReadFooter(file, codec, end);
    if footer.None? {
      return None, error;
    }
    var total, start;
    total, error, start := ReadIndexAndHeader(file, codec, footerAt, footer.value);
    if total.None? {
      NoneIfNotPreceded(file, codec, end, footer.value, footerAt);
      return None, error;
    }
    var s := StreamRecord(start, total.value, footer.value.backwardSize, streamPadding);
    StreamIff(file, codec, s, footer.value, footerAt);
    return Some(s), error;
  }

  /** The whole scan.  It succeeds exactly on the files that are tiled by streams, and returns the tiling. */
  method ParseBlockIndexes(file: seq<byte>, codec: Codec) returns (r: ScanResult)
    ensures r.Index? ==> r.streams != [] && Tiles(file, codec, r.streams, 0, |file|)
    ensures r.Index? ==> r.streamPadding == TotalPadding(r.streams) == |file| - UnpaddedSize(r.streams)
    ensures r.Failed? ==> forall streams: seq<StreamRecord> :: streams != [] ==> !Tiles(file, codec, streams, 0, |file|)
  {
    var position: nat, streams: seq<StreamRecord>, streamPadding := |file|, [], 0;
    while streams == [] || position > 0
      invariant position <= |file| && Tiles(file, codec, streams, position, |file|)
      invariant streamPadding == TotalPadding(streams)
      decreases position
    {
      var next, error := ReadStream(file, codec, position);
      if next.None? {
        forall whole: seq<StreamRecord> | whole != [] && Tiles(file, codec, whole, 0, |file|) ensures false {
          assert whole[|whole| - 1].End() == |file|;
          var s := TilesThrough(file, codec, whole, streams, position, |file|);
        }
        return Failed(error);
      }
      var s := next.value;
      AdjacentPrepend(s, streams, |file|);
      assert ([s] + streams)[1..] == streams;
      streams, position, streamPadding := [s] + streams, s.start, streamPadding + s.padding;
    }
    PaddingAccounting(streams, 0, |file|);
    return Index(streams, streamPadding);
  }

  /** Of a file that consists of valid streams, the scan returns these if and only if it sees the footer of each. */
  method ParseValidFile(file: seq<byte>, codec: Codec, ghost whole: seq<StreamRecord>) returns (r: ScanResult)
    requires ValidFile(file, codec, whole)
    ensures r.Index? && r.streams == whole <==> forall i :: 0 <= i < |whole| ==> FooterSeen(file, whole[i])
  {
    r := ParseBlockIndexes(file, codec);
    ValidFileTiledIff(file, codec, whole);
    if r.Index? && Tiles(file, codec, whole, 0, |file|) {
      TilesUnique(file, codec, r.streams, whole, |file|);
    }
  }

  /** A file of one empty stream, for decoders that accept its parts. */
  const EMPTY_XZ: seq<byte> := seq(20, i => 1) + [1, 2, 0, 4, 5, 6, 7, 8, 9, 10, 0x59, 0x5A]

  const EMPTY_CODEC: Codec :=
    Codec(bytes => Some(Footer(0, 8, 7)), bytes => Some(7), bytes => if |bytes| == 8 then End(0, 0) else More)

  /** It is a file of valid streams, but the third byte of its footer is zero. */
  lemma ValidFileMissed()
    ensures ValidFile(EMPTY_XZ, EMPTY_CODEC, [StreamRecord(0, 0, 8, 0)])
    ensures !FooterSeen(EMPTY_XZ, StreamRecord(0, 0, 8, 0))
  {
    var s := StreamRecord(0, 0, 8, 0);
    assert |Part(EMPTY_XZ, 12, 8)| == 8 && Part(EMPTY_XZ, 12, 8)[..8] == Part(EMPTY_XZ, 12, 8);
    assert DecodeIndex(EMPTY_CODEC, Part(EMPTY_XZ, 12, 8), 0) == Some(0);
    assert EMPTY_XZ[22] == 0 && EMPTY_XZ[30] == 0x59 && EMPTY_XZ[31] == 0x5A;
    assert Decodes(EMPTY_XZ, EMPTY_CODEC, s) && ValidStream(EMPTY_XZ, EMPTY_CODEC, s);
  }
}
