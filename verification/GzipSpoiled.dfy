/** A file on which an index with a window that is saved wrongly is built. */
module GzipSpoiled {
  import opened Bytes
  import opened DeflateStream
  import opened GzipWindow
  import opened GzipList
  import opened GzipIndex
  import opened GzipRead

  const FILE_SIZE: nat := 16398

  /** A stream of zeros but for one byte. */
  const RAW: seq<byte> := seq(SPAN + 100, i requires 0 <= i => if i == SPAN then 1 else 0)

  /** Three blocks: the second one begins after more than SPAN bytes, in the second chunk of the file. */
  const FILE: Deflate :=
    Deflate(seq(FILE_SIZE, i => 0), RAW, [Cut(80, 0), Cut(131088, SPAN + 2), Cut(131120, SPAN + 100)])

  /** The access points of an index of this file: at the start, and where one byte of the second chunk has been put out. */
  const POINTS: seq<Point> :=
    [Point(0, 10, 0, seq(WINDOW_SIZE, i => 0), 0, Origin(true, 0, [], 0)),
     Point(SPAN + 2, 16386, 0, seq(WINDOW_SIZE, i => 0), 1, Origin(true, 0, [SPAN + 1], 1))]

  lemma Cells(k: nat)
    requires k < WINDOW_SIZE
    ensures SavedAt(0, [SPAN + 1], 1, k) != SPAN
    ensures SavedAt(0, [SPAN + 1], 1, k) < SPAN + 2 && SavedAt(0, [], 0, k) == -1
  {
    var j := (1 + k) % WINDOW_SIZE;
    assert [SPAN + 1][..0] == [];
    assert Sum([SPAN + 1]) == SPAN + 1;
    assert j > 0 ==> (SPAN - j) / WINDOW_SIZE == 31;
    assert j > 0 ==> CellAt(0, [], SPAN + 1, j) == j + WINDOW_SIZE * 31;
    assert CellAt(0, [SPAN + 1], 1, j) == if j == 0 then SPAN + 1 else CellAt(0, [], SPAN + 1, j);
  }

  /** An index of this file, with windows as a build in two chunks saves them: the second one misses the byte that is not zero. */
  lemma RestartedRingIsWrong()
    ensures FILE.WellFormed() && Index(FILE, POINTS)
    ensures !Covered(0, [SPAN + 1], 1) && !WindowHolds(POINTS[1].context, FILE.raw, POINTS[1].raw)
  {
    assert [SPAN + 1][..0] == [];
    forall k | 0 <= k < WINDOW_SIZE ensures SavedAt(0, [SPAN + 1], 1, k) != SPAN && SavedAt(0, [], 0, k) == -1 {
      Cells(k);
    }
    assert FILE.WellFormed();
    var p, q := POINTS[0], POINTS[1];
    assert Sum([SPAN + 1]) == SPAN + 1;
    assert Sound(FILE, p) && Sound(FILE, q);
    assert Explained(FILE, p);
    forall k | 0 <= k < WINDOW_SIZE && SavedAt(0, [SPAN + 1], 1, k) >= 0
      ensures q.context[k] == RAW[SavedAt(0, [SPAN + 1], 1, k)]
    {
      Cells(k);
    }
    assert Explained(FILE, q);
    assert RAW[SPAN] == 1 && q.raw - WINDOW_SIZE + (WINDOW_SIZE - 2) == SPAN;
    assert q.context[WINDOW_SIZE - 2] == 0;
  }

  /** A read past the second point starts from it, and has bytes to deliver. */
  lemma ReadsUseIt()
    ensures Nearest(POINTS, 1, SPAN + 3) && Available(FILE, SPAN + 3, 90) == 90
  {
  }

  // ----- The build

  /** Where the decoder is after `k` calls: at the first block, then window by window, one byte more, and at the second block. */
  function After(k: nat): Decoder {
    if k == 0 then Decoder(true, 0, 0, -1, false, false, 0, false)
    else if k == 1 then Decoder(true, 10, 0, 0, true, false, 0, false)
    else if k <= 33 then Decoder(true, 9 + k, WINDOW_SIZE * (k - 1), 0, false, false, 0, false)
    else if k == 34 then Decoder(true, CHUNK, SPAN + 1, 0, false, false, 0, false)
    else Decoder(true, 16386, SPAN + 2, 1, true, false, 0, false)
  }

  /** The input of call `k`: what is left of the first chunk, and then the second one. */
  function Input(k: nat): nat {
    if k <= 33 then CHUNK - After(k).fed else FILE_SIZE - CHUNK
  }

  /** A decoder may go this way: the 34 calls of the first chunk put out SPAN + 1 bytes, the next call one more. */
  lemma BuildSteps(k: nat)
    requires k < 35
    ensures FILE.WellFormed() && Placed(FILE, After(k))
    ensures Input(k) > 0 && (k < 33 ==> After(k).fed + Input(k) == CHUNK) && After(34).fed == CHUNK
    ensures Step(FILE, After(k), Input(k), WINDOW_SIZE, true, After(k + 1), Z_OK)
  {
    RestartedRingIsWrong();
  }

  /** Only the first and the last call end at a block boundary, where the points of the index lie. */
  lemma BuildPoints(k: nat)
    requires 0 < k <= 35
    ensures After(k).boundary <==> k == 1 || k == 35
    ensures POINTS[0].raw == After(1).raw && POINTS[0].compressed == After(1).fed && POINTS[0].bits == After(1).bits
    ensures POINTS[1].raw == After(35).raw && POINTS[1].compressed == After(35).fed && POINTS[1].bits == After(35).bits
    ensures POINTS[1].origin == Origin(true, 0, [After(34).raw], After(35).raw - After(34).raw)
  {
  }
}
