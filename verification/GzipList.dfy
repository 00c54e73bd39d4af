/** The list of access points: where decompression can be resumed, in file order. */
module GzipList {
  import opened Bytes
  import opened DeflateStream
  import opened GzipWindow

  const SPAN: nat := 1048576

  /** How an access point came about: the build that made it, and whether that build saw the true stream. */
  datatype Origin = Origin(trusted: bool, start: nat, earlier: seq<nat>, produced: nat)

  /** What one access point says, which block of the file it is the start of, and where it comes from. */
  datatype Point = Point(raw: nat, compressed: nat, bits: nat, context: seq<byte>, block: nat, origin: Origin)

  /** The position data are true, and resuming from them is possible. */
  ghost predicate Sound(d: Deflate, p: Point)
    requires d.WellFormed()
  {
    && p.block < d.Blocks() && |p.context| == WINDOW_SIZE
    && p.raw == d.cuts[p.block].raw && p.compressed == d.cuts[p.block].ByteAddress()
    && p.bits == 8 * p.compressed - d.cuts[p.block].bit
  }

  /** The saved window has, in every place that the build had written, the byte written there. */
  ghost predicate Explained(d: Deflate, p: Point) {
    var o := p.origin;
    && p.raw == o.start + Sum(o.earlier) + o.produced <= |d.raw| && |p.context| == WINDOW_SIZE
    && (o.trusted ==> forall k :: 0 <= k < WINDOW_SIZE && SavedAt(o.start, o.earlier, o.produced, k) >= 0 ==>
          p.context[k] == d.raw[SavedAt(o.start, o.earlier, o.produced, k)])
  }

  /** `q` may follow `p` in an index. */
  ghost predicate Spaced(p: Point, q: Point) {
    p.block < q.block && (q.raw - p.raw > SPAN || (p.raw == 0 && q.raw == 0))
  }

  /** An index: it starts at address 0 and goes through the file in steps of more than SPAN. */
  ghost predicate Index(d: Deflate, points: seq<Point>)
    requires d.WellFormed()
  {
    && (forall i {:trigger PointOk(d, points, i)} :: 0 <= i < |points| ==> PointOk(d, points, i))
    && (points != [] ==> points[0].raw == 0)
  }

  /** Point `i` is true, and far enough from the one before it. */
  ghost predicate PointOk(d: Deflate, points: seq<Point>, i: nat)
    requires d.WellFormed() && i < |points|
  {
    && Sound(d, points[i]) && Explained(d, points[i])
    && if i == 0 then points[i].block == 0
       else Spaced(points[i - 1], points[i]) && NoneMissed(d, points[i - 1], points[i].block)
  }

  /** A block that needs no access point after `p`: it does not begin at address 0, nor more than SPAN after `p`. */
  ghost predicate Unwanted(d: Deflate, p: Point, b: nat)
    requires b < |d.cuts|
  {
    d.cuts[b].raw != 0 && d.cuts[b].raw - p.raw <= SPAN
  }

  /** No block after that of `p` and before block `end` needs an access point. */
  ghost predicate NoneMissed(d: Deflate, p: Point, end: int) {
    forall b: nat {:trigger Unwanted(d, p, b)} :: p.block < b < end && b < d.Blocks() ==> Unwanted(d, p, b)
  }

  /** Along an index, addresses never decrease, and compressed addresses increase. */
  lemma {:induction false} IndexAscending(d: Deflate, points: seq<Point>, i: nat, j: nat)
    requires d.WellFormed() && Index(d, points) && i < j < |points|
    ensures points[i].raw <= points[j].raw && points[i].compressed < points[j].compressed
    ensures points[j].raw - points[i].raw > SPAN || (points[i].raw == 0 && points[j].raw == 0)
  {
    assert PointOk(d, points, j) && PointOk(d, points, j - 1);
    assert d.Ascend(points[j - 1].block, points[j].block);
    if i < j - 1 { IndexAscending(d, points, i, j - 1); }
  }

  /** Between two points that follow each other no block begins at address 0, nor more than SPAN after the first of them. */
  lemma IndexComplete(d: Deflate, points: seq<Point>, i: nat, b: nat)
    requires d.WellFormed() && Index(d, points) && i + 1 < |points| && points[i].block < b < points[i + 1].block
    ensures b < |d.cuts| && d.cuts[b].raw != 0 && d.cuts[b].raw - points[i].raw <= 1048576
  {
    assert PointOk(d, points, i + 1) && Unwanted(d, points[i], b);
  }

  /** A point made by a trusted build over a covered window can be resumed from without loss. */
  lemma CoveredPointIsExact(d: Deflate, p: Point)
    requires Explained(d, p) && p.origin.trusted && Covered(p.origin.start, p.origin.earlier, p.origin.produced)
    ensures WindowHolds(p.context, d.raw, p.raw)
  {
    var o := p.origin;
    ExactIffCovered(o.start, o.earlier, o.produced);
    forall k | WINDOW_SIZE - Min(p.raw, WINDOW_SIZE) <= k < WINDOW_SIZE
      ensures p.context[k] == d.raw[p.raw - WINDOW_SIZE + k]
    {
      assert SavedAt(o.start, o.earlier, o.produced, k) == p.raw - WINDOW_SIZE + k;
    }
  }

  /** `left` is the room left in a ring after `produced` bytes. */
  predicate RoomLeft(left: nat, produced: nat) {
    var c := produced % WINDOW_SIZE;
    left == WINDOW_SIZE - c || (c == 0 && left == 0)
  }

  lemma PlaceInRing(produced: nat, k: nat)
    requires k <= WINDOW_SIZE
    ensures var c := produced % WINDOW_SIZE;
            (produced + k) % WINDOW_SIZE == if c + k < WINDOW_SIZE then c + k else c + k - WINDOW_SIZE
  {
  }

  /** Unrolling the ring at its write position saves the cells in the order of `SavedAt`. */
  lemma UnrolledExplains(d: Deflate, window: seq<byte>, left: nat, p: Point)
    requires p.origin.trusted ==> RingHolds(d.raw, window, p.origin.start, p.origin.earlier, p.origin.produced)
    requires |window| == WINDOW_SIZE && RoomLeft(left, p.origin.produced)
    requires p.raw == p.origin.start + Sum(p.origin.earlier) + p.origin.produced <= |d.raw|
    requires p.context == Unrolled(window, left)
    ensures Explained(d, p)
  {
    var o := p.origin;
    if o.trusted {
      forall k | 0 <= k < WINDOW_SIZE && SavedAt(o.start, o.earlier, o.produced, k) >= 0
        ensures p.context[k] == d.raw[SavedAt(o.start, o.earlier, o.produced, k)]
      {
        PlaceInRing(o.produced, k);
        var j := (o.produced + k) % WINDOW_SIZE;
        assert p.context[k] == window[j];
        assert CellAt(o.start, o.earlier, o.produced, j) >= 0;
      }
    }
  }

  lemma IndexExtends(d: Deflate, points: seq<Point>, p: Point)
    requires d.WellFormed() && Index(d, points) && Sound(d, p) && Explained(d, p)
    requires points == [] ==> p.raw == 0 && p.block == 0
    requires points != [] ==>
               var last := points[|points| - 1];
               last.block < p.block && (p.raw == 0 || p.raw - last.raw > SPAN) && NoneMissed(d, last, p.block)
    ensures Index(d, points + [p])
  {
    var all, n := points + [p], |points|;
    if n > 0 {
      assert PointOk(d, points, n - 1) && d.Ascend(points[n - 1].block, p.block);
    }
    forall i | 0 <= i < |all| ensures PointOk(d, all, i) {
      assert i < n ==> PointOk(d, points, i);
    }
  }

  class Entry {
    const raw: nat
    const compressed: nat
    const bits: nat
    const context: seq<byte>
    ghost const block: nat
    ghost const origin: Origin
    var next: Entry?
    var prev: Entry?

    /** Saves the window `context`, whose last `left` cells are the oldest. */
    constructor (raw: nat, compressed: nat, bits: nat, left: nat, window: seq<byte>, ghost block: nat, ghost origin: Origin)
      requires |window| == WINDOW_SIZE && left <= WINDOW_SIZE
      ensures Data() == Point(raw, compressed, bits, Unrolled(window, left), block, origin)
    {
      this.raw, this.compressed, this.bits, this.block, this.origin := raw, compressed, bits, block, origin;
      context := Unrolled(window, left);
      next, prev := null, null;
    }

    ghost function Data(): Point {
      Point(raw, compressed, bits, context, block, origin)
    }
  }

  /** The last `left` cells of the window, then the others. */
  function Unrolled(window: seq<byte>, left: nat): (context: seq<byte>)
    requires left <= |window|
    ensures |context| == |window|
    ensures forall k :: 0 <= k < |window| ==>
              context[k] == if k < left then window[|window| - left + k] else window[k - left]
  {
    window[|window| - left..] + window[..|window| - left]
  }

  class AccessPointList {
    var length: nat
    var first: Entry?
    var last: Entry?

    ghost var order: seq<Entry>
    ghost var points: seq<Point>
    ghost var repr: set<Entry>

    ghost function At(i: int): Entry?
      reads this
    {
      if 0 <= i < |order| then order[i] else null
    }

    ghost predicate Valid()
      reads this, repr
    {
      && length == |order| == |points|
      && first == At(0) && last == At(|order| - 1)
      && (forall i :: 0 <= i < |order| ==> order[i] in repr)
      && (forall i {:trigger order[i].Data()} :: 0 <= i < |order| ==> order[i].Data() == points[i])
      && (forall i: nat, j: nat {:trigger Differ(i, j)} :: i < j < |order| ==> Differ(i, j))
      && (forall i {:trigger order[i].next} :: 0 <= i < |order| ==> order[i].next == At(i + 1))
      && (forall i {:trigger order[i].prev} :: 0 <= i < |order| ==> order[i].prev == At(i - 1))
    }

    ghost predicate Differ(i: nat, j: nat)
      requires i < j < |order|
      reads this
    {
      order[i] != order[j]
    }

    constructor ()
      ensures Valid() && points == [] && repr == {}
    {
      length, first, last := 0, null, null;
      order, points, repr := [], [], {};
    }

    method Append(entry: Entry)
      requires Valid() && entry !in repr
      modifies this, repr`next, entry`next, entry`prev
      ensures Valid() && points == old(points) + [entry.Data()] && repr == old(repr) + {entry}
    {
      length := length + 1;
      entry.prev := last;
      entry.next := null;
      if first != null {
        last.next := entry;
      } else {
        first := entry;
      }
      last := entry;
      order, points, repr := order + [entry], points + [entry.Data()], repr + {entry};
      ghost var n := |order| - 1;
      forall i: nat, j: nat | i < j <= n ensures Differ(i, j) {
        assert j < n ==> old(Differ(i, j));
      }
      forall i: nat {:trigger order[i].next} | i <= n ensures order[i].next == At(i + 1) {
        assert i < n - 1 ==> old(Differ(i, n - 1));
      }
    }

    /** Takes an entry out from between its neighbours. */
    method FreeEntry(entry: Entry)
      modifies {entry.next}`prev, {entry.prev}`next
      ensures old(entry.next) != null ==> old(entry.next).prev == old(entry.prev)
      ensures old(entry.prev) != null ==> old(entry.prev).next == old(entry.next)
    {
      if entry.next != null {
        entry.next.prev := entry.prev;
      }
      if entry.prev != null {
        entry.prev.next := entry.next;
      }
    }

    /** Takes the entries out of the list one by one, from the first on, checking the links on the way. */
    method Free() returns (ghost freed: seq<Entry>)
      requires Valid() && length > 0
      modifies repr`next, repr`prev
      ensures freed == order
    {
      var count, current, next := 0, first, first.next;
      freed := [];
      while next != null
        invariant count == |freed| < |order| && freed == order[..count]
        invariant current == order[count] && next == At(count + 1) && current.prev == null
        invariant forall i {:trigger order[i].next} :: count <= i < |order| ==> order[i].next == At(i + 1)
        invariant forall i {:trigger order[i].prev} :: count < i < |order| ==> order[i].prev == At(i - 1)
        decreases |order| - count
      {
        assert next == order[count + 1] && next.prev == current;
        FreeEntry(current);
        freed, count := freed + [current], count + 1;
        current := next;
        next := next.next;
      }
      assert current == last;
      FreeEntry(current);
      freed, count := freed + [current], count + 1;
      assert length == count;
    }
  }
}
