/**
 * Which decompressed byte each cell of the indexing window holds.
 *
 * The window is written as a ring, but the write position restarts at cell 0 with every input chunk.
 * A build is described by the address it started from, the number of bytes that each earlier chunk
 * produced, and the number `p` that the current chunk has produced so far.
 */
module GzipWindow {
  import opened Bytes
  import opened DeflateStream

  /** Address in the decompressed stream of the byte in cell `j`, or -1 if it was never written. */
  function CellAt(start: nat, earlier: seq<nat>, p: nat, j: nat): (r: int)
    ensures -1 <= r < start + Sum(earlier) + p
    decreases |earlier|
  {
    if j < p then start + Sum(earlier) + j + WINDOW_SIZE * ((p - 1 - j) / WINDOW_SIZE)
    else if earlier == [] then -1
    else CellAt(start, earlier[..|earlier| - 1], earlier[|earlier| - 1], j)
  }

  /** Address of the byte that is saved in place `k` when the ring is unrolled from its write position on. */
  function SavedAt(start: nat, earlier: seq<nat>, p: nat, k: nat): int {
    CellAt(start, earlier, p, (p + k) % WINDOW_SIZE)
  }

  /** The window saved from the write position on has the byte before `at` in every cell that can be referred to. */
  ghost predicate Exact(start: nat, earlier: seq<nat>, p: nat) {
    var at := start + Sum(earlier) + p;
    forall k :: WINDOW_SIZE - Min(at, WINDOW_SIZE) <= k < WINDOW_SIZE ==>
      SavedAt(start, earlier, p, k) == at - WINDOW_SIZE + k
  }

  /** The last chunk that produced anything ended where the ring ends. */
  predicate EndedAligned(earlier: seq<nat>) {
    earlier != [] &&
    if earlier[|earlier| - 1] == 0 then EndedAligned(earlier[..|earlier| - 1])
    else earlier[|earlier| - 1] % WINDOW_SIZE == 0
  }

  /** What it takes for a saved window to be exact. */
  predicate Covered(start: nat, earlier: seq<nat>, p: nat) {
    p >= WINDOW_SIZE || start + Sum(earlier) == 0 || EndedAligned(earlier)
  }

  /** Cells that the current chunk has not reached hold what they held when it began. */
  lemma {:induction false} AlignedCells(start: nat, earlier: seq<nat>, j: nat)
    requires EndedAligned(earlier) && j < WINDOW_SIZE
    ensures CellAt(start, earlier, 0, j) == start + Sum(earlier) - WINDOW_SIZE + j
  {
    var n := |earlier| - 1;
    if earlier[n] == 0 {
      AlignedCells(start, earlier[..n], j);
    }
  }

  /** Unless a chunk ended where the ring ends, the last cell does not hold the last byte. */
  lemma {:induction false} MisalignedCell(start: nat, earlier: seq<nat>)
    requires !EndedAligned(earlier) && start + Sum(earlier) > 0
    ensures CellAt(start, earlier, 0, WINDOW_SIZE - 1) != start + Sum(earlier) - 1
  {
    if earlier != [] {
      var n := |earlier| - 1;
      if earlier[n] == 0 {
        MisalignedCell(start, earlier[..n]);
      } else if earlier[n] < WINDOW_SIZE {
        CellBeforeChunk(start, earlier[..n], earlier[n], WINDOW_SIZE - 1);
      }
    }
  }

  lemma CellBeforeChunk(start: nat, earlier: seq<nat>, p: nat, j: nat)
    requires p <= j
    ensures CellAt(start, earlier, p, j) == CellAt(start, earlier, 0, j) < start + Sum(earlier)
  {
  }

  /** A cell that the current chunk has written holds the newest byte that fell on it. */
  lemma NewestInCell(start: nat, earlier: seq<nat>, p: nat, k: nat)
    requires k < WINDOW_SIZE && (p + k) % WINDOW_SIZE < p
    ensures SavedAt(start, earlier, p, k) == start + Sum(earlier) + p - WINDOW_SIZE + k
  {
    var j := (p + k) % WINDOW_SIZE;
    var q := (p + k) / WINDOW_SIZE;
    assert p + k == WINDOW_SIZE * q + j;
    assert (p - 1 - j) / WINDOW_SIZE == q - 1;
  }

  /** The saved window is exact exactly when the chunk filled it, or nothing came before, or the ring was aligned. */
  lemma ExactIffCovered(start: nat, earlier: seq<nat>, p: nat)
    ensures Exact(start, earlier, p) <==> Covered(start, earlier, p)
  {
    var before := start + Sum(earlier);
    var at := before + p;
    if Covered(start, earlier, p) {
      forall k | WINDOW_SIZE - Min(at, WINDOW_SIZE) <= k < WINDOW_SIZE
        ensures SavedAt(start, earlier, p, k) == at - WINDOW_SIZE + k
      {
        var j := (p + k) % WINDOW_SIZE;
        if j >= p {
          assert j == p + k;
          CellBeforeChunk(start, earlier, p, j);
          if EndedAligned(earlier) { AlignedCells(start, earlier, j); }
        } else {
          NewestInCell(start, earlier, p, k);
        }
      }
    } else {
      var k := WINDOW_SIZE - 1 - p;
      assert (p + k) % WINDOW_SIZE == WINDOW_SIZE - 1;
      assert SavedAt(start, earlier, p, k) == CellAt(start, earlier, p, WINDOW_SIZE - 1);
      CellBeforeChunk(start, earlier, p, WINDOW_SIZE - 1);
      MisalignedCell(start, earlier);
    }
  }

  /** The cells of `window` have the contents that their addresses say. */
  ghost predicate RingHolds(raw: seq<byte>, window: seq<byte>, start: nat, earlier: seq<nat>, p: nat) {
    && |window| == WINDOW_SIZE && start + Sum(earlier) + p <= |raw|
    && forall j :: 0 <= j < WINDOW_SIZE && CellAt(start, earlier, p, j) >= 0 ==>
         window[j] == raw[CellAt(start, earlier, p, j)]
  }

  /** Writing the next `n` bytes at the write position changes the addresses of those cells only. */
  lemma CellAdvance(start: nat, earlier: seq<nat>, p: nat, n: nat, j: nat)
    requires j < WINDOW_SIZE && p % WINDOW_SIZE + n <= WINDOW_SIZE
    ensures CellAt(start, earlier, p + n, j) ==
            if p % WINDOW_SIZE <= j < p % WINDOW_SIZE + n then start + Sum(earlier) + p + j - p % WINDOW_SIZE
            else CellAt(start, earlier, p, j)
  {
    var c, q := p % WINDOW_SIZE, p / WINDOW_SIZE;
    assert p == WINDOW_SIZE * q + c;
    if c <= j < c + n {
      assert (p + n - 1 - j) / WINDOW_SIZE == q;
    } else if j < p {
      assert (p + n - 1 - j) / WINDOW_SIZE == (p - 1 - j) / WINDOW_SIZE;
    }
  }

  lemma RingAdvance(raw: seq<byte>, before: seq<byte>, after: seq<byte>, start: nat, earlier: seq<nat>, p: nat, n: nat)
    requires RingHolds(raw, before, start, earlier, p) && p % WINDOW_SIZE + n <= WINDOW_SIZE
    requires |after| == WINDOW_SIZE && start + Sum(earlier) + p + n <= |raw|
    requires forall j :: 0 <= j < WINDOW_SIZE ==>
               after[j] == if p % WINDOW_SIZE <= j < p % WINDOW_SIZE + n
                           then raw[start + Sum(earlier) + p + j - p % WINDOW_SIZE] else before[j]
    ensures RingHolds(raw, after, start, earlier, p + n)
  {
    forall j | 0 <= j < WINDOW_SIZE && CellAt(start, earlier, p + n, j) >= 0
      ensures after[j] == raw[CellAt(start, earlier, p + n, j)]
    {
      CellAdvance(start, earlier, p, n, j);
    }
  }

  /** A new chunk finds the ring as the chunk before left it. */
  lemma RingNextChunk(raw: seq<byte>, window: seq<byte>, start: nat, earlier: seq<nat>, p: nat)
    requires RingHolds(raw, window, start, earlier, p)
    ensures RingHolds(raw, window, start, earlier + [p], 0)
  {
    assert (earlier + [p])[..|earlier|] == earlier;
  }
}
