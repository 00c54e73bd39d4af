# Spotlight, modelled in Dafny

Spotlight mounts a compressed ext4 image read-only. Each of its layers answers a simple question
("which bytes are at this address?", "which inode has this path?") with machinery that caches,
indexes and resumes. This project models that machinery as the source has it, in place and step by
step, and proves that every layer agrees with its simple question for every input and every history of
calls. Where the code does not, the exact condition under which it does is proved instead.

| files | what they model |
|---|---|
| `XzLru`, `XzCache`, `XzReader` | the XZ reader: what "least recently used" means, the linked list of decoded blocks, reads through it |
| `XzIndexScan` | the scan of an XZ file from its end, which collects the indexes of its streams |
| `Deflate`, `GzipWindow`, `GzipList`, `GzipIndex`, `GzipRead`, `GzipSpoiled` | the gzip reader: a nondeterministic decoder, the window as a ring, the list of access points, index building, reads, and a file whose index is wrong |
| `CompressedDisk` | the reads of the file system on a compressed image |
| `Ext4Disk`, `Ext4Extents`, `Ext4BlockMap`, `Ext4Read` | reading a file: ranges of the disk, extent trees, the indirect block map, the read loop |
| `Ext4Dir`, `Ext4Dcache`, `Ext4Path`, `Ext4Lookup` | directories: the one-block buffer and listings, the directory-entry cache, what a path means, path lookup through the cache |
| `Bytes`, `Radix` | shared helpers: copies between byte sequences, division by a variable |

How the model is built:

- Heap structures are classes with the source's pointers. A ghost sequence (or, for the directory-entry
  cache, a map from each entry to its ring of children) says what the pointers mean.
- The gzip decoder is a step relation: it takes any part of its input, puts out any part of what there
  is room for, and in block mode stops at every block boundary (section 3.2.3 of RFC 1951).
  `DeflateStream.StepExists` proves that such a step always exists. A resumed decoder is *trusted*
  if its dictionary was the true window; only then is its output known to be the true stream.
- liblzma's footer, header and index decoders are arbitrary functions, and XZ blocks decode or do not.
- Integer widths are written out where the source depends on them: the 32-bit room for a gzip read, the
  32-bit mask in `ALIGN_TO`, 32-bit sums in an extent, the 8-bit length of a path token, the 32-bit
  directory offset of a path lookup, the 64-bit sum in `truncate_size`, and the ints in which `gzip_read`, the
  disk layer and `op_read` return byte counts.
- An assertion of the program that fails is the result `None` or `Aborted`. The model is of a build with assertions.

Where the code does not do what its name or comment says, or what a reader would expect:

- `xz_read` adds the error of a nested call to the bytes read so far, although its header promises the
  number of bytes or an error: `XzReader.LaterErrorLooksLikeShortRead`, and `XzReader.FullReadIffReadable`
  for when the result is right.
- The search for a stream footer tests the first three bytes of what it reads for 32-bit words of padding:
  `XzIndexScan.FooterFoundIff`, and `XzIndexScan.ParseValidFile` for which valid files are read
  as what they are. `XzIndexScan.ValidFileMissed` is one that is not.
- The write position of the gzip window restarts with every input chunk, so that a saved window can be
  rotated wrongly: `GzipWindow.ExactIffCovered`, and `GzipSpoiled.RestartedRingIsWrong` for a file on which it is.
- `gzip_read` returns the length it was asked for as an int, also past the end of the stream and beyond 31 bits;
  a complete read can return the error code: `GzipRead.ReportedIsDelivered`, `GzipRead.CompleteIff`,
  `GzipRead.LongReadsMisreported`.
- A single read of the disk of 2^31 bytes or more fails, since its size is compared with an int:
  `Ext4Disk.DiskRead`, `Ext4Read.OpRead`, `Ext4Read.LongReadFails`.
- A hole before an extent of the same leaf is taken for part of that extent: `Ext4Extents.SearchRunIff`.
- A block under a missing index block is looked up in block 0: `Ext4BlockMap.LookupIff`, `Ext4BlockMap.MissingIndexIsMisread`.
- An unaligned read that begins in a hole delivers bytes of block 0 (`Ext4Read.OutputIsFileIff`,
  `Ext4Read.HoleHeadIsMisread`), and one that begins at or above 4 GiB and crosses a block boundary fails
  (`Ext4Read.OpRead`, `Ext4Read.HighHeadFails`).
- `dcache_insert` returns no entry for a long name, and the next component is then entered under the root:
  `Ext4Lookup.InodeGetIdxByPath` says exactly when the cache stays right,
  `Ext4Lookup.LookupThroughRoot` what every later lookup gives,
  `Ext4Lookup.LookupBelowThenInRoot` exactly when that is right for the misplaced name, and
  `Ext4Lookup.LongNameMisleads` and `Ext4Lookup.LongNameServed` show a tree and calls with which they are not.
- The 8-bit length of a path component never stops at one of more than 255 bytes: `Ext4Path.TokenLenStopsIff`.
- The comment on `inode_get_data_pblock` says that the run length does not count the block asked for. It does.

## Model

| member | source | states |
|---|---|---|
| XzLru.HitKeepsMostRecent | src/compression/xz/xz_reader.c:8-23 | if the list is the most recently used distinct blocks of a history, newest first, then moving a found block to the front makes it that of the longer history |
| XzLru.MissKeepsMostRecent | src/compression/xz/xz_reader.c:44-84 | the same for a block that was not in the list and is put in front, at the expense of the last one when 32 are held |
| XzLru.EvictedIsLeastRecent | src/compression/xz/xz_reader.c:76-82 | a block leaves on insertion if and only if the cache is full and every other block was used after it |
| XzLru.MostRecentUnique | src/compression/xz/xz_reader.c:8-84 | the history alone determines contents and order of an LRU cache |
| XzLru.Replay | src/compression/xz/xz_reader.c:8-84 | replaying any history by moves and insertions gives its most recently used blocks |
| XzCache.BlockCache.Unlink | src/compression/xz/xz_reader.c:9-16 | takes an entry in the middle or at the end out of the list, which stays doubly linked, with both ends right |
| XzCache.BlockCache.LinkFirst | src/compression/xz/xz_reader.c:64-73 | puts an entry in front; the list stays doubly linked, also when it was empty |
| XzCache.BlockCache.MoveToCacheHead | src/compression/xz/xz_reader.c:8-23 | for a head, middle, tail or sole entry: the list is the old one with this entry first, the others in order, well linked, and its length is right |
| XzCache.BlockCache.GetCacheBlock | src/compression/xz/xz_reader.c:26-41 | a hit gives the first block that covers the offset and moves it to the front; on a miss no block covers it and nothing changes |
| XzCache.BlockCache.AddEntry | src/compression/xz/xz_reader.c:51-74 | a new entry goes in front of a cache that is not full |
| XzCache.BlockCache.ReuseLast | src/compression/xz/xz_reader.c:76-82 | the last entry of a full cache goes in front with the new block, and no entry is added |
| XzCache.BlockCache.AddNewBlock | src/compression/xz/xz_reader.c:44-84 | the new block is first, the others follow in order, the last of a full cache is gone and its entry is reused |
| XzCache.BlockCache.FreeCacheEntries | src/compression/xz/xz_reader.c:87-115 | visits every entry exactly once, in order; its assertions hold; the cache is empty afterwards |
| XzReader.CachedBlocksDisjoint | src/compression/xz/xz_reader.c:26-41 | no two cached blocks cover the same offset, so that at most one entry can match |
| XzReader.HitKeepsMirror | src/compression/xz/xz_reader.c:26-41 | after a hit, the cache still holds decoded blocks of the partition, the most recently used ones |
| XzReader.MissKeepsMirror | src/compression/xz/xz_reader.c:496-505 | insertion after a miss keeps the blocks of the cache distinct, right, and the most recently used |
| XzReader.ReadableRunExists | src/compression/xz/xz_reader.c:485-523 | every range has exactly one longest readable beginning |
| XzReader.RunThroughBlock | src/compression/xz/xz_reader.c:507-520 | reading the part in one block and then the rest reads the whole range up to its first unreadable byte |
| XzReader.AnsweredThroughBlock | src/compression/xz/xz_reader.c:507-520 | what a read in one block and a read of the rest deliver, return and ask for is what a read of the whole range does |
| XzReader.FullReadIffReadable | src/compression/xz/xz_reader.c:498-522 | a read returns the length asked for if and only if every byte of the range can be delivered, and the error code if and only if the first byte cannot |
| XzReader.InRangeReadIsComplete | src/compression/xz/xz_reader.c:485-523 | inside a stream whose blocks all decode, every read returns exactly the length asked for |
| XzReader.LaterErrorLooksLikeShortRead | src/compression/xz/xz_reader.c:518-520 | two blocks of which the second does not decode: a read of both returns 2 after delivering 3 bytes |
| XzReader.Reader.constructor | src/compression/xz/xz_reader.c:463-482 | a new reader has an empty cache that agrees with its empty history |
| XzReader.Reader.ReadBlock | src/compression/xz/xz_reader.c:291-409 | finds the block with the offset, and says whether it decodes |
| XzReader.Reader.Admit | src/compression/xz/xz_reader.c:504 | inserting a block after a miss keeps the cache the most recently used blocks of the history |
| XzReader.Reader.Fetch | src/compression/xz/xz_reader.c:496-505 | whatever the cache holds, an access yields the block that covers the offset if it can be delivered, and counts as its last use |
| XzReader.Reader.ReadInBlock | src/compression/xz/xz_reader.c:496-516 | copies the part of the range that lies in the block of its first byte, and nothing else |
| XzReader.Reader.ReadRest | src/compression/xz/xz_reader.c:518-520 | the recursive call delivers the rest of the range, and its result is added to the bytes of the block |
| XzReader.Reader.Read | src/compression/xz/xz_reader.c:485-523 | for every cache content: the buffer gets exactly the readable beginning of the range from the stream, the result is its length or what the code makes of a later error, the blocks used are those of the range in order, evictions included; it terminates because every level consumes a byte |
| XzReader.Reader.CacheIsReplay | src/compression/xz/xz_reader.c:8-84 | after any sequence of reads, the list read from its first entry is the replay of all accesses through an LRU list |
| XzIndexScan.Search | src/compression/xz/xz_reader.c:149-177 | where a footer search ends: never before the first possible place, at or before where it began, and a multiple of 4 bytes from there |
| XzIndexScan.FooterFoundIff | src/compression/xz/xz_reader.c:153-177 | for a footer followed by any number of words of padding: the search ends on it if and only if its third byte is not zero and the number of words is a multiple of 3, or 1 more than one with two further conditions on the footer's bytes |
| XzIndexScan.FooterWithZeroByteMissed | src/compression/xz/xz_reader.c:166-176 | in 24 bytes that end in a footer whose third byte is zero, no footer is found |
| XzIndexScan.FindFooter | src/compression/xz/xz_reader.c:149-177 | the nested loops find what the search defines, never use a position before the file, and count the padding skipped |
| XzIndexScan.ReadIndex | src/compression/xz/xz_reader.c:201-232 | the loop feeds the index to its decoder in pieces; on success the position is back at the footer |
| XzIndexScan.DecodeIndexIff | src/compression/xz/xz_reader.c:207-232 | an index is accepted if and only if the decoder ends exactly with its last byte and asks for more at the end of every earlier buffer |
| XzIndexScan.ReadFooter | src/compression/xz/xz_reader.c:143-189 | finds and decodes the footer of the stream that ends at the position, or there is no stream |
| XzIndexScan.ReadIndexAndHeader | src/compression/xz/xz_reader.c:191-256 | index, block sizes and header before a footer fit and decode, or they do for no size of the blocks |
| XzIndexScan.ReadStream | src/compression/xz/xz_reader.c:142-256 | one turn of the scan finds the stream that ends at the position, or there is none |
| XzIndexScan.StreamUnique | src/compression/xz/xz_reader.c:142-256 | a stream that the scan accepts is determined by where it ends |
| XzIndexScan.SameFromEnd | src/compression/xz/xz_reader.c:142-277 | two tilings with the same end agree in their last streams |
| XzIndexScan.TilesUnique | src/compression/xz/xz_reader.c:142-277 | a file has at most one tiling by streams that the scan accepts |
| XzIndexScan.TilesThrough | src/compression/xz/xz_reader.c:142-277 | any tiling of the whole file passes through every position that the scan reaches |
| XzIndexScan.AdjacentPrepend | src/compression/xz/xz_reader.c:265-277 | putting each found stream in front of those found before keeps them in file order without gaps |
| XzIndexScan.TilesAccounting | src/compression/xz/xz_reader.c:235-277 | the file size is the sum, over all streams, of two 12-byte headers, block sizes, index size and padding |
| XzIndexScan.PaddingAccounting | src/compression/xz/xz_reader.c:165-277 | the padding is what remains of the file after 24 bytes, blocks and index of every stream |
| XzIndexScan.PaddingIsWords | src/compression/xz/xz_reader.c:165-176 | the padding of every accepted stream is a multiple of 4 bytes |
| XzIndexScan.ParseBlockIndexes | src/compression/xz/xz_reader.c:122-288 | for every file: the scan succeeds if and only if the file is tiled from its first to its last byte by streams that it accepts; it then returns that tiling in file order, and the total padding, which is the file size less 24 bytes, blocks and index of every stream |
| XzIndexScan.ValidStreamFoundIff | src/compression/xz/xz_reader.c:152-256 | a stream as the format has it (decoders accept it, footer magic, words of zeros after it) is accepted if and only if two conditions on footer bytes and the number of words of padding hold |
| XzIndexScan.ValidFileTiledIff | src/compression/xz/xz_reader.c:142-277 | a file of such streams is tiled by streams that the scan accepts if and only if these hold for each |
| XzIndexScan.ParseValidFile | src/compression/xz/xz_reader.c:122-288 | for every file of valid streams: the scan returns exactly these if and only if the conditions hold for each footer |
| XzIndexScan.ValidFileMissed | src/compression/xz/xz_reader.c:152-177 | a file of one valid empty stream whose footer does not meet the conditions |
| DeflateStream.StepExists | src/compression/gzip/gzip_reader.c:138-149 | a decoder with input and room is never stuck, whatever its position |
| DeflateStream.HighBitsAre | src/compression/gzip/gzip_reader.c:218 | what the shift by 8 less the number of bits leaves is below 2^bits, and its bit `i` is bit `8 - bits + i` of the byte |
| DeflateStream.ShiftedBit | src/compression/gzip/gzip_reader.c:322 | bit `i` after a shift by `k` is bit `k + i` before it |
| DeflateStream.NumberIsBits | src/compression/gzip/gzip_reader.c:218 | a number below 2^n is what its first n bits make |
| DeflateStream.ZStream.InflateInitAt | src/compression/gzip/gzip_reader.c:302-324 | a raw decoder stands at the block of its access point if it is primed with exactly the bits of the file from the bit where this block begins to the end of the byte, in the order of section 3.1.1 of RFC 1951; it is trusted if and only if the saved window is the true one |
| DeflateStream.ZStream.Inflate | src/compression/gzip/gzip_reader.c:138 | one call of the decoder: some step, with what is left of input and room; the output is the stream if it is trusted |
| GzipWindow.ExactIffCovered | src/compression/gzip/gzip_reader.c:123-158 | a saved window is the last 32768 bytes in order if and only if the chunk so far has filled it, or nothing came before the chunk, or the last chunk with output ended where the ring ends |
| GzipWindow.CellAdvance | src/compression/gzip/gzip_reader.c:128-138 | output at the write position changes what exactly those cells of the window hold |
| GzipWindow.RingAdvance | src/compression/gzip/gzip_reader.c:128-138 | after output at the write position, every cell holds the stream byte that its address says |
| GzipWindow.RingNextChunk | src/compression/gzip/gzip_reader.c:115-131 | a new chunk finds the ring as the one before left it, with the write position at its start |
| GzipList.Unrolled | src/compression/gzip/gzip_reader.c:19-25 | the saved context is the unused end of the window, then its beginning |
| GzipList.UnrolledExplains | src/compression/gzip/gzip_reader.c:151-158 | the context of a new access point has in every written place the byte that the ring had there, for every wrap position |
| GzipList.CoveredPointIsExact | src/compression/gzip/gzip_reader.c:151-158 | an access point made over a covered window by a trusted decoder has the true last 32 KiB |
| GzipSpoiled.RestartedRingIsWrong | src/compression/gzip/gzip_reader.c:115-158 | a file and an index of it with a second access point after SPAN + 1 bytes in the first chunk and one in the second: its saved window is not the last 32 KiB |
| GzipSpoiled.BuildSteps | src/compression/gzip/gzip_reader.c:115-165 | 35 steps of the decoder, each with the input and room that the loop gives it, that go through the two chunks of this file |
| GzipSpoiled.BuildPoints | src/compression/gzip/gzip_reader.c:151-158 | the first and the last of these steps, and no other, end at a block boundary, with the positions of the two points |
| GzipSpoiled.ReadsUseIt | src/compression/gzip/gzip_reader.c:285-289 | reads past the second point start from it and have bytes to deliver |
| GzipList.IndexExtends | src/compression/gzip/gzip_reader.c:151-158 | a point more than SPAN further or at address 0, with no block in between that asks for a point, keeps the list an index |
| GzipList.IndexComplete | src/compression/gzip/gzip_reader.c:151-158 | an index has no point missing: between two points that follow each other no block begins at address 0, nor more than 1048576 after the first of them |
| GzipList.IndexAscending | src/compression/gzip/gzip_reader.c:151-158 | along an index raw addresses do not decrease, compressed addresses increase, and any two points are more than SPAN apart or both at 0 |
| GzipList.Entry.constructor | src/compression/gzip/gzip_reader.c:8-31 | an entry has the addresses and bits given, and the window unrolled |
| GzipList.AccessPointList.Append | src/compression/gzip/gzip_reader.c:61-74 | the list is the old one with the entry last, well linked, and its length is right |
| GzipList.AccessPointList.FreeEntry | src/compression/gzip/gzip_reader.c:34-44 | the neighbours of an entry are linked to each other |
| GzipList.AccessPointList.Free | src/compression/gzip/gzip_reader.c:77-102 | takes out every entry exactly once in order, unlinking each; the assertions on links and length hold |
| GzipIndex.PastLastIsComplete | src/compression/gzip/gzip_reader.c:126-165 | if the decoder has passed no block that asks for a point, none is missing among the blocks that begin before the address it has put out |
| GzipIndex.CompleteAfterLast | src/compression/gzip/gzip_reader.c:151-158 | that means: after the last point no block so far begins at address 0, nor more than 1048576 after that point |
| GzipIndex.MovedPastLast | src/compression/gzip/gzip_reader.c:138-153 | before the first access point nothing has been put out; at a boundary the last access point lies strictly behind |
| GzipIndex.BuildKeepsTruth | src/compression/gzip/gzip_reader.c:196-230 | over any sequence of builds, each resumed from the last point: a point has its true window if it and all points before it were made over covered windows |
| GzipIndex.GzipReader.InflateRing | src/compression/gzip/gzip_reader.c:137-138 | after any step, the window holds what the decoder has put out, and the write position is the ring position |
| GzipIndex.GzipReader.IndexStep | src/compression/gzip/gzip_reader.c:127-141 | adding what is available before the call and subtracting what is left after it keeps both counters exact |
| GzipIndex.GzipReader.AddAccessPoint | src/compression/gzip/gzip_reader.c:154-158 | one entry made at a boundary is added; it is true, none before it is missing, and the list stays an index |
| GzipIndex.GzipReader.ConsiderPoint | src/compression/gzip/gzip_reader.c:151-164 | the test never reads an absent last entry; an entry is added if and only if one belongs here, so that no block passed since the last entry asks for one; it stops if and only if it has added one less than SPAN before the address asked for, or after it |
| GzipIndex.GzipReader.IndexTurn | src/compression/gzip/gzip_reader.c:126-165 | one turn keeps counters, window and index right, misses no point, and makes progress unless it stops |
| GzipIndex.GzipReader.IndexInput | src/compression/gzip/gzip_reader.c:125-167 | for every chunking the decoder chooses: ends with the input used up, the stream ended or the address covered, counters and window exact, no point missing, and none that was not needed but for the last |
| GzipIndex.GzipReader.IndexNextChunk | src/compression/gzip/gzip_reader.c:109-168 | the same for a chunk read from the file; it fails if and only if the file is at its end |
| GzipIndex.GzipReader.ResumeAt | src/compression/gzip/gzip_reader.c:196-221 | with or without primed bits: decoder, file position and access point agree, the decoder gets the bits of the file that belong to its block, and it is trusted if and only if the saved window is true |
| GzipIndex.GzipReader.StartDecoder | src/compression/gzip/gzip_reader.c:179-221 | the counters a build starts with are those of the decoder, at the start of the file or at the last entry |
| GzipIndex.GzipReader.FirstPoint | src/compression/gzip/gzip_reader.c:151-158 | the first chunk brings the first access point if and only if the gzip header ends in it |
| GzipIndex.GzipReader.BuildTurn | src/compression/gzip/gzip_reader.c:223-230 | one chunk of a build, with exact accounting across the chunk boundary |
| GzipIndex.GzipReader.BuildChunks | src/compression/gzip/gzip_reader.c:223-233 | the loop over chunks ends, past the address less SPAN or at the end of the stream; no point is missing up to where it ends |
| GzipIndex.GzipReader.BuildIndex | src/compression/gzip/gzip_reader.c:171-234 | on success everything up to less than SPAN before the address is decoded, and no point is missing up to there; it fails if and only if the stream ends SPAN or more before it; old points stay, new ones are true, and all but the last are SPAN or more before the address |
| GzipIndex.GzipReader.CheckAndBuildIndex | src/compression/gzip/gzip_reader.c:237-248 | the list stays an index, well linked, and only grows; no point is missing up to SPAN before the address, and all new ones but the last are SPAN or more before it; new points know whether their build saw the true stream; when it fails, and when it stays empty, is said exactly. Needs the file at its start while the list is empty, which a call leaves so unless the gzip header exceeds one chunk and the address is below SPAN |
| GzipRead.ReadNextChunk | src/compression/gzip/gzip_reader.c:254-270 | a call of the decoder, with more input when it has none; there always is some before the end of the stream |
| GzipRead.Fill | src/compression/gzip/gzip_reader.c:349-353 | fills the room given, or as much of it as the stream has left, for every chunking; terminates |
| GzipRead.FindStart | src/compression/gzip/gzip_reader.c:285-289 | picks the last access point before the offset, or the first of all |
| GzipRead.NearestBefore | src/compression/gzip/gzip_reader.c:285-289 | that point is at or before the offset, and all later ones are not before it |
| GzipRead.SkipAndRead | src/compression/gzip/gzip_reader.c:326-356 | discards exactly the bytes up to the offset in pieces of at most a window, then delivers exactly the bytes asked for that exist |
| GzipRead.ReadIndexed | src/compression/gzip/gzip_reader.c:272-362 | a read over a given index delivers the stream from the offset on, if the nearest point has its true window; lengths count modulo 2^32 |
| GzipRead.GzipRead | src/compression/gzip/gzip_reader.c:404-419 | the same with the index extended first, and the length returned as an int; old points stay, new ones know whether their build saw the true stream; exactly when an assertion of the program fails |
| GzipRead.PutServes | src/compression/gzip/gzip_reader.c:326-356 | the bytes delivered are the stream if all points up to the one used were made over covered windows |
| GzipRead.ReadOne | src/compression/gzip/gzip_reader.c:404-419 | a read keeps every window true that should be, serves the request, and fails exactly when it must |
| GzipRead.ReadAll | src/compression/gzip/gzip_reader.c:404-419 | any sequence of reads through one reader: every answer is the stream wherever all points up to the one used were made over covered windows, and is reported as its length in an int; the sequence stops only at a request that ends SPAN or more past the stream, or has a positive length that is a multiple of 2^32, or if the gzip header exceeds one chunk |
| GzipRead.ReportedIsDelivered | src/compression/gzip/gzip_reader.c:414-418 | the number that `GzipRead` returns is the number of bytes that it puts into the buffer if and only if the length, modulo 2^32, is 0, or below 2^31 with the range inside the stream |
| GzipRead.CompleteIff | src/compression/gzip/gzip_reader.c:414-418 | all bytes asked for are delivered if and only if the length has 32 bits and the range lies in the stream, or it is 0; the length asked for is returned if and only if it is below 2^31; the error code is returned if and only if the length is -1 as an int |
| GzipRead.LongReadsMisreported | src/compression/gzip/gzip_reader.c:414-418 | reads of 2^31, 2^32 - 1 and 2^32 + 1 bytes of a long stream: the first two are complete and return -2^31 and the error code, the last delivers and returns 1 |
| Ext4Disk.ReadU32 | src/fs/ext4/inode.c:40 | a word is read if and only if its 4 bytes are there; byte `k` from its address on is `n / 256^k % 256` of the result |
| Ext4Disk.WordUnique | src/fs/ext4/inode.c:40 | no other number has these bytes |
| Ext4Disk.Pread | src/fs/ext4/disk.c:32-35 | a direct read copies exactly the range and returns its size as an int |
| Ext4Disk.DiskRead | src/fs/ext4/disk.c:122-138 | reads exactly the range; succeeds if and only if it is all there and shorter than 2^31 bytes |
| Ext4Disk.ReadPartOfBlock | src/fs/ext4/disk.c:50-62 | part of a block, read through a buffer for a whole block |
| Ext4Disk.ReadFromBoundary | src/fs/ext4/disk.c:67-89 | whole blocks, then the beginning of one more, are a direct read of the range; fails if a block is not there or the whole blocks have 2^31 bytes or more |
| Ext4Disk.PreadWholeBlocks | src/fs/ext4/disk.c:38-93 | for every position and size: equals a direct read, and returns the size as an int, if and only if the last whole block that is touched is readable and the whole blocks in the middle have less than 2^31 bytes |
| Ext4Disk.DiskReadWholeBlocks | src/fs/ext4/disk.c:122-138 | on such a device a read succeeds if and only if all blocks that it touches are readable and it is shorter than 2^31 bytes |
| Ext4Disk.DiskContext.constructor | src/fs/ext4/disk.c:140-150 | a context covers the blocks of a run |
| Ext4Disk.DiskContext.Read | src/fs/ext4/disk.c:152-172 | reads at most what is left of the run and moves on by that much; fails if that is 2^31 bytes or more |
| CompressedDisk.XzCountIff | src/compression/xz/xz_reader.c:485-523 | what `xz_read` returns, as an int, is the size if and only if the range lies in the stream and is shorter than 2^31 bytes |
| CompressedDisk.DiskReadXz | src/read_layer.c:8-21 | reading a disk that is the stream of an XZ image, whatever its cache holds, succeeds on the same ranges and gives the same bytes as `Ext4Disk.DiskRead` on the stream |
| CompressedDisk.DiskReadGzip | src/read_layer.c:8-21 | reading inside a disk that is the stream of a gzip image does so too, if the windows up to the access point used were covered, and keeps all windows true that should be |
| Ext4Extents.GetBlockFromExtents | src/fs/ext4/extents.c:17-45 | the loop picks the first extent that ends after the block, in 32-bit arithmetic, and the distance to its end |
| Ext4Extents.GetPblock | src/fs/ext4/extents.c:67-101 | the descent ends in the leaf chosen by the last index entry not after the block at every level, or fails where there is none; terminates on depth |
| Ext4Extents.LeafArithmetic | src/fs/ext4/extents.c:27-43 | in a sorted leaf every extent passed over ends at or before the block, and 32-bit arithmetic is exact unless the chosen extent begins after the block |
| Ext4Extents.LeafRunIff | src/fs/ext4/extents.c:17-45 | in one leaf, block and length are a true run of the map if and only if the block is in no gap before an extent |
| Ext4Extents.ExtentUnique | src/fs/ext4/extents.c:67-101 | in a well-formed tree of any depth no block is covered by two extents |
| Ext4Extents.MappedInChild | src/fs/ext4/extents.c:82-96 | in the range of an index entry, the whole tree maps as its child does |
| Ext4Extents.RunInChild | src/fs/ext4/extents.c:82-96 | a run found in a child is a run of the whole tree |
| Ext4Extents.SearchRunIff | src/fs/ext4/extents.c:67-101 | for any depth: the answer is a true run of the map that all extents of the tree make (0 for a hole) if and only if the block is in no gap before an extent of the chosen leaf; where the search reaches no leaf, the block is a hole |
| Ext4Extents.SearchToEnd | src/fs/ext4/extents.c:30-36 | the run that is found goes on to the end of the extent that covers the block |
| Ext4Extents.GapIsMisread | src/fs/ext4/extents.c:30-36 | a leaf with a hole between two extents, in which a block of the hole is looked up as data |
| Ext4BlockMap.PathNumber | src/fs/ext4/inode.c:79-93 | every logical block below the limit has a path of one to four slots, all in range, which leads back to it |
| Ext4BlockMap.NumberPath | src/fs/ext4/inode.c:79-93 | every path of slots in range is that of exactly the block it leads to |
| Ext4BlockMap.PathInjective | src/fs/ext4/inode.c:79-93 | different blocks have different paths |
| Ext4BlockMap.LookupFollowsPath | src/fs/ext4/inode.c:37-94 | range tests, divisions and remainders of the helpers follow that path; no assertion on ranges can fail |
| Ext4BlockMap.FollowIffMeaning | src/fs/ext4/inode.c:37-65 | following slots gives what they mean unless an index block is missing, which means a hole |
| Ext4BlockMap.FollowFromHole | src/fs/ext4/inode.c:37-65 | from a missing index block on, the lookup goes on in block 0 with the slots that are left |
| Ext4BlockMap.LookupIff | src/fs/ext4/inode.c:37-99 | the lookup agrees with the format if and only if no index block on the way is missing, or the slots left where one is missing lead from block 0 to a zero |
| Ext4BlockMap.MissingIndexIsMisread | src/fs/ext4/inode.c:37-41 | a disk of ones and an empty map: a block in a missing index block is looked up as data |
| Ext4BlockMap.SlotsDistinct | src/fs/ext4/inode.c:37-65 | two blocks beyond the direct ones are looked up in different words of the disk, if index blocks are not shared |
| Ext4BlockMap.SlotIff | src/fs/ext4/inode.c:40 | slot `i` of an index block is `n` if and only if the 4 bytes at block address plus 4 `i` are those of `n`, the lowest first |
| Ext4BlockMap.DirectBlocks | src/fs/ext4/inode.c:79-80 | the first 12 blocks are those that the inode names |
| Ext4BlockMap.OneLevelBytes | src/fs/ext4/inode.c:81-83 | block 12 + i is `n` if and only if the four bytes at `4 i` in the block that slot 12 names are those of `n` |
| Ext4BlockMap.TwoLevelBytes | src/fs/ext4/inode.c:84-86 | after these, the bytes at `4 i` in the block that slot 13 names say which index block to read at `4 j` |
| Ext4BlockMap.ThreeLevelBytes | src/fs/ext4/inode.c:87-89 | and then three words on the disk, from slot 14 on, lead to the block, with all addresses as in the format |
| Ext4Read.SparseRun | src/fs/ext4/inode.c:79-93 | under a missing index block only 0 is a right answer |
| Ext4Read.SearchGoesToEnd | src/fs/ext4/extents.c:17-45 | in the extents of an inode, a run goes to the end of its extent, and holes come one by one |
| Ext4Read.InodeGetDataPblock | src/fs/ext4/inode.c:70-99 | for a block map or an extent tree: block and length are a run of the file, as far as its extent goes; for a bad extent lookup they are no run, and under a missing index block they are only if the answer is 0 |
| Ext4Read.TruncateSize | src/fs/ext4/op_read.c:24-40 | the part of the request that lies in the file, unless the 64-bit sum of offset and size wraps; then the size is not truncated |
| Ext4Read.HeadGeometry | src/fs/ext4/op_read.c:47-58 | first and last byte are in the same block if and only if the size fits into the rest of the first block |
| Ext4Read.HeadSize | src/fs/ext4/common.h:4-10 | the 32-bit mask gives the distance to the block boundary for offsets below 4 GiB, and an impossible size from there on |
| Ext4Read.FirstRead | src/fs/ext4/op_read.c:43-68 | an unaligned head is read from the block found, exactly up to the block boundary or the end of the request; fails if and only if it crosses the boundary from 4 GiB on |
| Ext4Read.RunBytes | src/fs/ext4/op_read.c:98-102 | the bytes of a run on the disk are the bytes of the file, over all blocks of the run |
| Ext4Read.HoleBytes | src/fs/ext4/op_read.c:103-110 | zeros are the bytes of the file in a hole |
| Ext4Read.ReadRun | src/fs/ext4/op_read.c:95-113 | from a block boundary on, delivers file bytes up to the end of the run, the hole or the request, and nothing else changes; fails if and only if these are 2^31 bytes or more |
| Ext4Read.OutputExtends | src/fs/ext4/op_read.c:94-114 | the output of a turn continues that of the turns before |
| Ext4Read.NextBlock | src/fs/ext4/op_read.c:94-112 | whenever bytes are still to come, the next one is the first of the block that the loop has reached |
| Ext4Read.MidwayNext | src/fs/ext4/op_read.c:94-112 | after a turn, all extents behind hold less than 2^31 bytes of the request; a turn whose run is too long lies in an extent that holds more |
| Ext4Read.ReadTurn | src/fs/ext4/op_read.c:94-114 | one turn of the loop goes on by a whole run or one hole, the output stays that of the file, or an extent is too long |
| Ext4Read.AllShort | src/fs/ext4/op_read.c:94-117 | when the loop has come to its end, no extent holds 2^31 bytes or more of the request |
| Ext4Read.ReadBlocks | src/fs/ext4/op_read.c:94-114 | the loop delivers the rest of the request, and fails if and only if some extent holds 2^31 bytes or more of it |
| Ext4Read.ReadInFile | src/fs/ext4/op_read.c:89-117 | head and blocks together deliver a request that ends in the file |
| Ext4Read.OpRead | src/fs/ext4/op_read.c:70-119 | for every inode, offset and size: exactly the part of the request that lies in the file is delivered, through head, runs, holes and tail, and nothing else of the buffer changes; its size is returned as an int; it fails if and only if the head crosses a block boundary from 4 GiB on, or one extent holds 2^31 bytes or more of what comes after the head |
| Ext4Read.ShortReadFailsIff | src/fs/ext4/op_read.c:70-119 | below 2^31 bytes the second way to fail cannot occur, and the size is returned as it is |
| Ext4Read.OutputIsFileIff | src/fs/ext4/op_read.c:52-67 | what is delivered is the file byte for byte if and only if the head is aligned, or mapped, or block 0 has zeros in its place |
| Ext4Read.HoleHeadIsMisread | src/fs/ext4/op_read.c:52-60 | a sparse file on a disk of ones: a read of one byte that begins inside a hole puts out a one |
| Ext4Read.HighHeadFails | src/fs/ext4/common.h:4-10 | a read of 1024 bytes in the same file from 4 GiB and one byte on meets the condition under which reads fail, although its lookups are good |
| Ext4Read.LongReadFails | src/fs/ext4/disk.c:122-138 | a file of one extent of 32768 blocks of 64 KiB: reading all of it meets the condition under which reads fail, although its lookups are good |
| Ext4Dir.DecodeIff | src/fs/ext4/types/ext4_dentry.h:35-41 | an entry is decoded if and only if header and name are inside the block; inode, record length, name length and name are those in its bytes, little-endian, at 0, 4, 6 and 8 |
| Ext4Dir.NextOnEntry | src/fs/ext4/inode.c:123-142 | in blocks tiled by entries, the offset after an entry is that of an entry or the end |
| Ext4Dir.LayoutLinked | src/fs/ext4/op_readdir.c:45-46 | following record lengths from offset 0 never leaves the entries of the directory |
| Ext4Dir.EntryIsBytes | src/fs/ext4/inode.c:123-142 | the entry at any offset of a directory is what the bytes of the file from this offset on say |
| Ext4Dir.DirContext.Update | src/fs/ext4/inode.c:101-106 | the buffer holds the block of the directory whose number it carries |
| Ext4Dir.DirContext.DentryGet | src/fs/ext4/inode.c:123-142 | reading through the one-block buffer equals reading the directory; nothing at its end; terminates after at most one refill |
| Ext4Dir.CStringIs | src/fs/ext4/op_readdir.c:19-24 | the name shown is the stored one up to its first zero: free of zeros, equal byte for byte, ending where a zero follows or the name ends; empty if and only if the name is or begins with a zero |
| Ext4Dir.LiveOffsets | src/fs/ext4/op_readdir.c:45-60 | the items of a directory are, in ascending order of offset, exactly those of the entries that record lengths lead to and that have an inode and a name whose first byte is not zero; each has the name up to its first zero, and the offset after its entry |
| Ext4Dir.ReaddirLoop | src/fs/ext4/op_readdir.c:43-61 | the loop, with the buffer, collects these items up to where the caller refuses |
| Ext4Dir.LiveResumes | src/fs/ext4/op_readdir.c:45-60 | resuming at the offset that came with an item gives exactly the items after it |
| Ext4Dir.OpReaddir | src/fs/ext4/op_readdir.c:26-64 | a listing from any entry's offset has one item for each of the first entries in use that have a name, in order, as many as there are or the caller takes, with name and next offset as stored |
| Ext4Dir.ListPieces | src/fs/ext4/op_readdir.c:26-64 | pieces of any sizes, each resumed after the last accepted entry, put together are a beginning of the live entries |
| Ext4Dir.ListInPieces | src/fs/ext4/op_readdir.c:26-64 | listing a directory in any number of pieces gives every entry in use that has a name once and in order, as far as the pieces go, with name and next offset as stored |
| Ext4Dcache.MatchesIff | src/fs/ext4/dcache.c:113 | the comparison succeeds if and only if the names are equal, also for names longer than the stored field |
| Ext4Dcache.SamePrefixIff | src/fs/ext4/dcache.c:113 | the prefix test succeeds if and only if the name fits before the terminating zero and agrees |
| Ext4Dcache.InsertedAddsOne | src/fs/ext4/dcache.c:81-88 | a ring after insertion has exactly one member more |
| Ext4Dcache.RotatedKeepsAll | src/fs/ext4/dcache.c:113-116 | a ring after a lookup has the same members |
| Ext4Dcache.WithChildIsTree | src/fs/ext4/dcache.c:77-88 | insertion keeps every node in exactly one ring, once, under the path of its parent |
| Ext4Dcache.TurnedIsTree | src/fs/ext4/dcache.c:113-116 | and so does turning a ring |
| Ext4Dcache.Dcache.InitRoot | src/fs/ext4/dcache.c:38-52 | sets the inode of the root once, and refuses afterwards |
| Ext4Dcache.Dcache.LinkIn | src/fs/ext4/dcache.c:81-88 | the pointer updates turn the ring of the parent into one with the new entry at its head, and touch no other ring |
| Ext4Dcache.Dcache.Insert | src/fs/ext4/dcache.c:64-91 | adds exactly one child, at the head of the ring of the parent or of the root; or nothing, for a name of 40 bytes or more |
| Ext4Dcache.Dcache.TurnTo | src/fs/ext4/dcache.c:114 | moving the head pointer turns this ring and no other |
| Ext4Dcache.Dcache.Lookup | src/fs/ext4/dcache.c:97-122 | stops within one turn; finds the first child with exactly this name and makes it the head, or there is none and nothing changes |
| Ext4Path.EntryNamedIsFirst | src/fs/ext4/inode.c:219-234 | the result is not 0 if and only if some entry that record lengths lead to is in use and has exactly this name; it is then the inode of such an entry, and no entry at a smaller offset is one |
| Ext4Path.FindIsUnder | src/fs/ext4/inode.c:219-234 | the same for a directory given by its inode number; 0 for what is no directory |
| Ext4Path.ResolveLeads | src/fs/ext4/inode.c:193-245 | what a path resolves to is reached from inode 2 by going at each step to what the directory has under the next name |
| Ext4Path.Way.StepsGoThere | src/fs/ext4/inode.c:209-241 | and so it is for walks that start elsewhere |
| Ext4Path.Way.Failed | src/fs/ext4/inode.c:236-240 | a walk that has failed stays failed |
| Ext4Path.Way.PartOfWalk | src/fs/ext4/inode.c:204-211 | a walk that starts where the walk from the root comes by goes on as that does |
| Ext4Path.JoinedComponents | src/fs/ext4/inode.c:159-191 | for all names without slashes and all numbers of slashes before, between and after them: the components of the path so made are these names |
| Ext4Path.StartOf | src/fs/ext4/inode.c:159-191 | component k is what lies between the k-th group of slashes and the next slash, and there are no more than that |
| Ext4Path.GetPathTokenLen | src/fs/ext4/inode.c:159-164 | the 8-bit length reaches the next slash or the end, for components of at most 255 bytes |
| Ext4Path.TokenLenStopsIff | src/fs/ext4/inode.c:159-164 | some 8-bit length stops the loop if and only if the component has at most 255 bytes |
| Ext4Path.SkipTrailingBackslash | src/fs/ext4/inode.c:187-191 | skips all slashes |
| Ext4Path.NextToken | src/fs/ext4/inode.c:172-182 | after at most one slash: the next component of the path, or none if two slashes follow each other or the path ends |
| Ext4Path.NextComponent | src/fs/ext4/inode.c:213-216 | after any number of slashes: the next component of the path, or the path is at its end |
| Ext4Dcache.FoundIsFirst | src/fs/ext4/dcache.c:109-118 | what a lookup finds is the first entry of the ring with the name |
| Ext4Lookup.DescendPath | src/fs/ext4/inode.c:166-185 | following names through the rings arrives at the entry whose path they are |
| Ext4Lookup.FollowName | src/fs/ext4/inode.c:181-182 | following one name goes to the first child with that name, or there is none; only rings above have turned |
| Ext4Lookup.FollowToken | src/fs/ext4/inode.c:171-182 | one turn of the loop follows one component, or the descent ends there |
| Ext4Lookup.GetCachedInodeNum | src/fs/ext4/inode.c:166-185 | follows the path through the cache, always to the first entry of a ring with the name, and as far as it goes: it ends where no child has the next name, or two slashes follow each other |
| Ext4Lookup.FindEntry | src/fs/ext4/inode.c:219-234 | the inode of the first entry that is in use and has exactly this name, or 0 if and only if there is none; the 32-bit offset does not wrap in a directory below 4 GiB |
| Ext4Lookup.Enter | src/fs/ext4/inode.c:230-232 | a cache with a new entry is coherent if and only if it was, and the entry's inode is the one to which its path leads; every entry stays accounted for if the new one is |
| Ext4Lookup.Remember | src/fs/ext4/inode.c:227-233 | entering component k keeps the cache coherent exactly as long as no component so far is misplaced under the root; a component after a name that does not fit is then the first child of the root |
| Ext4Lookup.Step | src/fs/ext4/inode.c:217-240 | one component of the walk agrees with the walk in the directories, whatever the cache holds |
| Ext4Lookup.Advance | src/fs/ext4/inode.c:209-241 | one turn of the loop, with all its ways out |
| Ext4Lookup.WalkOn | src/fs/ext4/inode.c:209-241 | the loop ends with the inode of the walk in the directories from where the cache ended |
| Ext4Lookup.CoherentFollows | src/fs/ext4/inode.c:193-245 | a coherent cache leads only to where the walk from the root comes by |
| Ext4Lookup.CachedWay | src/fs/ext4/inode.c:204-205 | the inode with which the walk begins is that of the entry where the cache ends; in a coherent cache it is the right one |
| Ext4Lookup.LookupWith | src/fs/ext4/inode.c:204-244 | the lookup with a given directory buffer: the same as the next row |
| Ext4Lookup.InodeGetIdxByPath | src/fs/ext4/inode.c:193-245 | for every cache: the result is that of the uncached walk from the entry to which the cache leads, each step of which goes to the first entry in use with the next name; with a coherent cache it is that of the whole uncached walk, also for long names, and afterwards the cache is coherent if and only if it was and no component after one of 40 bytes or more leads elsewhere than the same name in the root |
| Ext4Lookup.LookupCoherent | src/fs/ext4/inode.c:193-245 | a lookup through a coherent cache equals the uncached walk |
| Ext4Lookup.ShortNamesAreSafe | src/fs/ext4/dcache.c:68-69 | paths whose components, but for the last, have at most 39 bytes meet that condition |
| Ext4Lookup.LookupAll | src/fs/ext4/inode.c:193-245 | any history of lookups of such paths, from an empty cache on, gives the results of the uncached walk: each path leads from inode 2, by the first entry in use with each name, to the inode returned |
| Ext4Lookup.FirstChild | src/fs/ext4/dcache.c:64-91 | after any history, a child of the root has the inode that the root has under its name, or that of a component entered there after one that did not fit |
| Ext4Lookup.DescendLaw | src/fs/ext4/inode.c:166-185 | below the children of the root, the cache leads where the directories do |
| Ext4Lookup.WaysAgree | src/fs/ext4/inode.c:193-245 | if the inode of the root's child is right, so is the result |
| Ext4Lookup.LookupThroughRoot | src/fs/ext4/inode.c:193-245 | through the cache that any history leaves: the result is that of the walk from the first child of the root with the first name, or of the whole walk if there is none; it is right if no component with that name has been misplaced |
| Ext4Lookup.LookupInRoot | src/fs/ext4/inode.c:193-245 | a single name is answered by the first child of the root if it has that name, and rightly by a coherent cache |
| Ext4Lookup.LookupBelowThenInRoot | src/fs/ext4/inode.c:193-245 | after looking up a path whose components but for the last are safe, looking its last name up in the root gives the right inode if and only if the last component was not misplaced |
| Ext4Lookup.LongNameMisleads | src/fs/ext4/dcache.c:68-75 | a tree and a path through a directory with a name of 40 bytes whose last component is misplaced |
| Ext4Lookup.LongNameServed | src/fs/ext4/dcache.c:64-128 | entering a name of 40 bytes or more and then a short one below it makes the next lookup of the short name in the root yield the inode of the one below |

## Left out

- Ext4Path.GetPathTokenLen: components of more than 255 bytes, on which the loop does not end.
- CompressedDisk.DiskReadXz: sizes are positive, and all blocks decode. The methods of the file system take the disk as a byte sequence; this one meets the contract that they use.
- CompressedDisk.DiskReadGzip: ranges lie in the stream. Past its end `gzip_read` reports bytes that it does not deliver.
- Huffman decoding, checksums, and the decoders of liblzma: arbitrary functions and nondeterministic steps.
- FUSE callbacks, option parsing, logging, signals, choice of a reader by magic bytes, dispatch tables: no invariant to keep.
- Failures of stdio, `pread` and `malloc`, and the clean-up after them: the file does not change and reads succeed. `xz_is_supported` and the error path of `xz_reader_alloc` go with them.
- Threads: the disk lock and duplicate entries from racing insertions.
- `super.c`, `op_getattr`, `op_open`, `op_readlink`: single-branch facts. Block size, inodes by number and extent tree nodes by block number are parameters; their layout in bytes, the upper halves of 48-bit block numbers and unwritten extents are not modelled.
- What follows the trailer of a gzip stream, such as a second member, is taken by the decoder as part of the file. An error that the decoder finds in the data is not modelled.
- The branch of `add_new_block` for a cache of size 0, which the constant rules out.
- Decoded XZ blocks, saved windows and names of cache entries are values. That `add_new_block` and `free_cache_entries` release the right buffers is not modelled.
- XzReader.Reader.ReadBlock: a contract only; that the block decodes is a property of the block, and the search is a plain loop over the index.
- XzReader.Reader.Read: file addresses are unbounded; the wrap-around of sizes of 2^63 bytes is not modelled.
- XzIndexScan.ParseBlockIndexes: which error is returned is not specified, and the final index is the list of streams with their sizes rather than an object of liblzma.
- GzipList.AccessPointList.Free: an empty list is excluded, since the source reads through its first entry.
- GzipRead.ReadAll: requests do not have length 0 for a file whose header exceeds one chunk.
- GzipIndex.GzipReader.CheckAndBuildIndex: while the list is empty, the file has to be at its start. The source does not rewind it, and after a build that made no access point it no longer is.
- GzipRead.GzipRead: for a positive length that is a multiple of 2^32, a failure after the index is built is possible and not characterised.
- Ext4Read.FirstRead: when it fails, nothing is claimed of the buffer; a reader that is given the huge size writes past its end before the assertion fails.
- Ext4Disk.DiskRead: when it fails, nothing is claimed of the buffer; a read of 2^31 bytes or more has filled it.
- Ext4Read.OpRead: sizes are below 2^63, as those of all objects in memory are. Every block lookup in the range has to be well-formed: not in a gap before an extent of its leaf, with an index entry at or below the block, and not under a missing index block. What such lookups give instead is said by `Ext4Extents.SearchRunIff` and `Ext4BlockMap.LookupIff`.
- Ext4Dir.OpReaddir: the room for a name of 255 bytes and its terminating zero is not modelled.
- Ext4BlockMap.Lookup: block sizes are multiples of 4 from 1024 up to 2^31. The source computes them in a 32-bit integer.
- Ext4Dir.DirContext.DentryGet: directory blocks are tiled by entries and mapped, and offsets are those of entries.
- Ext4Lookup.InodeGetIdxByPath: wherever the walk from the entry to which the cache leads goes on, it is in a directory; components have at most 255 bytes; directories are smaller than 4 GiB. What a walk through the content of a regular file would find is not modelled.
- Ext4Lookup.LookupAll: paths meet the condition; for others, `Ext4Lookup.LookupThroughRoot` says what each lookup gives in the cache that it finds.
- Names of cache entries have 40 bytes, as on 64-bit systems; on others the source has 48.
