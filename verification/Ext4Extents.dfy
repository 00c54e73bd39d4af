/** Extent trees: from logical blocks of a file to runs of physical blocks. */
module Ext4Extents {
  import opened Bytes

  const EXT4_EXT_MAGIC: nat := 0xf30a
  const MAX_EXTENT_LEN: nat := 32768

  datatype Extent = Extent(block: nat, len: nat, start: nat) {
    predicate Covers(l: int) { block <= l < block + len }
  }

  datatype ExtentIndex = ExtentIndex(block: nat, leaf: nat)

  /** A node of the tree as it is stored: extents at depth 0, and references to nodes at depths above. */
  datatype Node = Node(magic: nat, depth: nat, extents: seq<Extent>, indexes: seq<ExtentIndex>)

  /** The nodes that are stored in blocks of the disk, by block number. */
  type NodeStore = nat -> Node

  // ----- Well-formed trees

  /** The extents of a leaf are in order, do not overlap, and lie between `lo` and `hi`; block 0 holds no data. */
  ghost predicate LeafOk(ee: seq<Extent>, lo: nat, hi: nat) {
    && (forall i :: 0 <= i < |ee| ==>
          && lo <= ee[i].block && 1 <= ee[i].len <= MAX_EXTENT_LEN && ee[i].block + ee[i].len <= hi
          && 1 <= ee[i].start && ee[i].start + ee[i].len <= TWO_32)
    && (forall i, j :: 0 <= i < j < |ee| ==> ee[i].block + ee[i].len <= ee[j].block)
  }

  /** Where the part of the file that child `i` describes ends. */
  function ChildEnd(ei: seq<ExtentIndex>, i: nat, hi: nat): nat
    requires i < |ei|
  {
    if i + 1 < |ei| then ei[i + 1].block else hi
  }

  ghost predicate TreeOk(store: NodeStore, n: Node, lo: nat, hi: nat)
    decreases n.depth
  {
    && n.magic == EXT4_EXT_MAGIC && lo <= hi < TWO_32
    && if n.depth == 0 then LeafOk(n.extents, lo, hi)
       else
         && (forall i :: 0 <= i < |n.indexes| ==> lo <= n.indexes[i].block < hi)
         && (forall i, j :: 0 <= i < j < |n.indexes| ==> n.indexes[i].block < n.indexes[j].block)
         && (forall i {:trigger n.indexes[i].leaf} :: 0 <= i < |n.indexes| ==>
               && store(n.indexes[i].leaf).depth == n.depth - 1
               && TreeOk(store, store(n.indexes[i].leaf), n.indexes[i].block, ChildEnd(n.indexes, i, hi)))
  }

  // ----- What a tree means

  /** `e` is stored somewhere in the tree. */
  ghost predicate HasExtent(store: NodeStore, n: Node, e: Extent)
    decreases n.depth
  {
    if n.depth == 0 then e in n.extents
    else exists i :: 0 <= i < |n.indexes| && store(n.indexes[i].leaf).depth < n.depth &&
                     HasExtent(store, store(n.indexes[i].leaf), e)
  }

  /** The physical block of logical block `l` according to all extents of the tree; 0 in a hole. */
  ghost function Mapped(store: NodeStore, n: Node, l: int): nat {
    if exists e :: HasExtent(store, n, e) && e.Covers(l) then
      var e :| HasExtent(store, n, e) && e.Covers(l);
      e.start + (l - e.block)
    else 0
  }

  /** `p` is where block `l` is, and the next `len - 1` blocks follow it there; or there are `len` holes. */
  ghost predicate TrueRun(store: NodeStore, n: Node, l: nat, p: nat, len: nat) {
    len > 0 && forall m :: l <= m < l + len ==> Mapped(store, n, m) == if p == 0 then 0 else p + (m - l)
  }

  // ----- The search

  /** The first extent that ends after `l`; there is none if the result is the number of extents. */
  function FirstEnding(ee: seq<Extent>, l: nat, from: nat): (i: nat)
    requires from <= |ee|
    ensures from <= i <= |ee|
    ensures i < |ee| ==> (ee[i].block + ee[i].len) % TWO_32 > l
    ensures forall j :: from <= j < i ==> (ee[j].block + ee[j].len) % TWO_32 <= l
    decreases |ee| - from
  {
    if from == |ee| || (ee[from].block + ee[from].len) % TWO_32 > l then from else FirstEnding(ee, l, from + 1)
  }

  /** Block and run length that a leaf yields, in 32-bit arithmetic. */
  function LeafLookup(ee: seq<Extent>, l: nat, len: nat): (nat, nat) {
    var i := FirstEnding(ee, l, 0);
    if i == |ee| then (0, len)
    else ((ee[i].start + (l - ee[i].block) % TWO_32) % TWO_32, (ee[i].block + ee[i].len - l) % TWO_32)
  }

  /** How many entries of an index node precede the first one that begins after `l`. */
  function EntriesBefore(ei: seq<ExtentIndex>, l: nat, from: nat): (i: nat)
    requires from <= |ei|
    ensures from <= i <= |ei|
    ensures i < |ei| ==> ei[i].block > l
    ensures forall j :: from <= j < i ==> ei[j].block <= l
    decreases |ei| - from
  {
    if from == |ei| || ei[from].block > l then from else EntriesBefore(ei, l, from + 1)
  }

  /** The leaf that the search ends in, unless an index node has no entry for `l`. */
  ghost function ChosenLeaf(store: NodeStore, n: Node, l: nat, lo: nat, hi: nat): Option<Node>
    requires TreeOk(store, n, lo, hi)
    decreases n.depth
  {
    if n.depth == 0 then Some(n)
    else
      var k := EntriesBefore(n.indexes, l, 0);
      if k == 0 then None
      else ChosenLeaf(store, store(n.indexes[k - 1].leaf), l, n.indexes[k - 1].block, ChildEnd(n.indexes, k - 1, hi))
  }

  /** `l` is a hole, and some extent of the leaf comes after it. */
  ghost predicate InGap(leaf: Node, l: nat) {
    && (forall e :: e in leaf.extents ==> !e.Covers(l))
    && exists e :: e in leaf.extents && e.block > l
  }

  /** The loop over the extents of a leaf. */
  method GetBlockFromExtents(ee: seq<Extent>, l: nat, len0: nat) returns (p: nat, len: nat)
    ensures (p, len) == LeafLookup(ee, l, len0)
  {
    len := len0;
    var index, offset, i := 0, 0, 0;
    while i < |ee|
      invariant i <= |ee| && FirstEnding(ee, l, 0) == FirstEnding(ee, l, i) && len == len0
    {
      if (ee[i].block + ee[i].len) % TWO_32 > l {
        index := i;
        offset := (l - ee[i].block) % TWO_32;
        len := (ee[i].block + ee[i].len - l) % TWO_32;
        break;
      }
      i := i + 1;
    }
    if i == |ee| {
      p := 0;
    } else {
      p := (ee[index].start + offset) % TWO_32;
    }
  }

  /** The descent from a node to the leaf for `l`; `None` when an assertion of the program fails. */
  method GetPblock(store: NodeStore, n: Node, l: nat, len0: nat, ghost lo: nat, ghost hi: nat)
    returns (r: Option<nat>, len: nat)
    requires TreeOk(store, n, lo, hi)
    ensures var leaf := ChosenLeaf(store, n, l, lo, hi);
            if leaf.None? then r.None? else r.Some? && (r.value, len) == LeafLookup(leaf.value.extents, l, len0)
    decreases n.depth
  {
    len := len0;
    if n.magic != EXT4_EXT_MAGIC {
      return None, len;
    }
    if n.depth == 0 {
      var p;
      p, len := GetBlockFromExtents(n.extents, l, len);
      return Some(p), len;
    }
    var recurse, i := -1, 0;
    while i < |n.indexes|
      invariant 0 <= i <= |n.indexes| && recurse == i - 1
      invariant EntriesBefore(n.indexes, l, 0) == EntriesBefore(n.indexes, l, i)
    {
      if n.indexes[i].block > l {
        break;
      }
      recurse := i;
      i := i + 1;
    }
    if recurse == -1 {
      return None, len;
    }
    r, len := GetPblock(store, store(n.indexes[recurse].leaf), l, len, n.indexes[recurse].block, ChildEnd(n.indexes, recurse, hi));
  }

  // ----- The search finds what the tree means

  lemma {:induction false} ExtentInRange(store: NodeStore, n: Node, lo: nat, hi: nat, e: Extent)
    requires TreeOk(store, n, lo, hi) && HasExtent(store, n, e)
    ensures lo <= e.block && 1 <= e.len && e.block + e.len <= hi && 1 <= e.start && e.start + e.len <= TWO_32
    decreases n.depth
  {
    if n.depth > 0 {
      var i :| 0 <= i < |n.indexes| && store(n.indexes[i].leaf).depth < n.depth &&
               HasExtent(store, store(n.indexes[i].leaf), e);
      ExtentInRange(store, store(n.indexes[i].leaf), n.indexes[i].block, ChildEnd(n.indexes, i, hi), e);
      if i + 1 < |n.indexes| { assert n.indexes[i].block < n.indexes[i + 1].block < hi; }
    }
  }

  lemma ChildRangesDisjoint(ei: seq<ExtentIndex>, i: nat, k: nat, hi: nat, l: int)
    requires forall i, j :: 0 <= i < j < |ei| ==> ei[i].block < ei[j].block
    requires i < |ei| && ei[i].block <= l < ChildEnd(ei, i, hi)
    requires k < |ei| && ei[k].block <= l < ChildEnd(ei, k, hi)
    ensures i == k
  {
    if i < k { assert false; }
    if k < i { assert false; }
  }

  /** An extent that covers a block of the range of child `i` is stored under child `i`. */
  lemma ExtentUnderChild(store: NodeStore, n: Node, lo: nat, hi: nat, e: Extent, i: nat, l: nat)
    requires TreeOk(store, n, lo, hi) && n.depth > 0 && HasExtent(store, n, e) && e.Covers(l)
    requires i < |n.indexes| && n.indexes[i].block <= l < ChildEnd(n.indexes, i, hi)
    ensures HasExtent(store, store(n.indexes[i].leaf), e)
  {
    var k :| 0 <= k < |n.indexes| && store(n.indexes[k].leaf).depth < n.depth &&
             HasExtent(store, store(n.indexes[k].leaf), e);
    ExtentInRange(store, store(n.indexes[k].leaf), n.indexes[k].block, ChildEnd(n.indexes, k, hi), e);
    ChildRangesDisjoint(n.indexes, i, k, hi, l);
  }

  /** No block is covered twice. */
  lemma {:induction false} ExtentUnique(store: NodeStore, n: Node, lo: nat, hi: nat, e: Extent, f: Extent, l: nat)
    requires TreeOk(store, n, lo, hi) && HasExtent(store, n, e) && HasExtent(store, n, f)
    requires e.Covers(l) && f.Covers(l)
    ensures e == f
    decreases n.depth
  {
    if n.depth > 0 {
      var i :| 0 <= i < |n.indexes| && store(n.indexes[i].leaf).depth < n.depth &&
               HasExtent(store, store(n.indexes[i].leaf), e);
      ExtentInRange(store, store(n.indexes[i].leaf), n.indexes[i].block, ChildEnd(n.indexes, i, hi), e);
      ExtentUnderChild(store, n, lo, hi, f, i, l);
      ExtentUnique(store, store(n.indexes[i].leaf), n.indexes[i].block, ChildEnd(n.indexes, i, hi), e, f, l);
    }
  }

  lemma MappedBy(store: NodeStore, n: Node, lo: nat, hi: nat, e: Extent, l: nat)
    requires TreeOk(store, n, lo, hi) && HasExtent(store, n, e) && e.Covers(l)
    ensures Mapped(store, n, l) == e.start + (l - e.block) > 0
  {
    var f :| HasExtent(store, n, f) && f.Covers(l) && Mapped(store, n, l) == f.start + (l - f.block);
    ExtentUnique(store, n, lo, hi, e, f, l);
    ExtentInRange(store, n, lo, hi, e);
  }

  /** In the range of a child, the tree maps as the child does. */
  lemma MappedInChild(store: NodeStore, n: Node, lo: nat, hi: nat, i: nat, l: nat)
    requires TreeOk(store, n, lo, hi) && n.depth > 0
    requires i < |n.indexes| && n.indexes[i].block <= l < ChildEnd(n.indexes, i, hi)
    ensures Mapped(store, n, l) == Mapped(store, store(n.indexes[i].leaf), l)
  {
    var child := store(n.indexes[i].leaf);
    forall e | HasExtent(store, child, e) ensures HasExtent(store, n, e) {}
    if e :| HasExtent(store, n, e) && e.Covers(l) {
      ExtentUnderChild(store, n, lo, hi, e, i, l);
      MappedBy(store, n, lo, hi, e, l);
      MappedBy(store, child, n.indexes[i].block, ChildEnd(n.indexes, i, hi), e, l);
    }
  }

  lemma FoundRun(store: NodeStore, n: Node, lo: nat, hi: nat, l: nat, e: Extent)
    requires TreeOk(store, n, lo, hi) && n.depth == 0 && e in n.extents && e.Covers(l)
    ensures TrueRun(store, n, l, e.start + (l - e.block), e.block + e.len - l)
  {
    forall m | l <= m < e.block + e.len ensures Mapped(store, n, m) == e.start + (l - e.block) + (m - l) > 0 {
      MappedBy(store, n, lo, hi, e, m);
    }
  }

  lemma GapRun(store: NodeStore, n: Node, lo: nat, hi: nat, l: nat, e: Extent, p: nat)
    requires TreeOk(store, n, lo, hi) && n.depth == 0 && e in n.extents && l < e.block && Mapped(store, n, l) == 0
    ensures !TrueRun(store, n, l, p, e.block + e.len - l)
  {
    MappedBy(store, n, lo, hi, e, e.block);
  }

  lemma Below32(n: nat)
    requires n < TWO_32
    ensures n % TWO_32 == n
  {
  }

  /** In a well-formed leaf, 32-bit arithmetic wraps only for an extent that begins after the block. */
  lemma LeafArithmetic(ee: seq<Extent>, lo: nat, hi: nat, l: nat)
    requires LeafOk(ee, lo, hi) && hi < TWO_32
    ensures var i := FirstEnding(ee, l, 0);
            && (forall j :: 0 <= j < i ==> ee[j].block + ee[j].len <= l)
            && (i < |ee| ==>
                  && l < ee[i].block + ee[i].len && LeafLookup(ee, l, 1).1 == ee[i].block + ee[i].len - l
                  && (ee[i].block <= l ==> LeafLookup(ee, l, 1).0 == ee[i].start + (l - ee[i].block)))
  {
    var i := FirstEnding(ee, l, 0);
    forall j | 0 <= j < |ee| ensures (ee[j].block + ee[j].len) % TWO_32 == ee[j].block + ee[j].len {
      Below32(ee[j].block + ee[j].len);
    }
    if i < |ee| {
      Below32(ee[i].block + ee[i].len - l);
      if ee[i].block <= l {
        Below32(l - ee[i].block);
        Below32(ee[i].start + (l - ee[i].block));
      }
    }
  }

  /** In one leaf, the answer is a true run exactly when the block is not in a gap before an extent. */
  lemma LeafRunIff(store: NodeStore, n: Node, lo: nat, hi: nat, l: nat)
    requires TreeOk(store, n, lo, hi) && n.depth == 0 && lo <= l < hi
    ensures var (p, len) := LeafLookup(n.extents, l, 1);
            && (TrueRun(store, n, l, p, len) <==> !InGap(n, l))
            && len > 0 && l + len <= hi && (p == 0 && !InGap(n, l) ==> len == 1)
  {
    var ee := n.extents;
    var i := FirstEnding(ee, l, 0);
    LeafArithmetic(ee, lo, hi, l);
    if i == |ee| {
      assert forall e :: e in ee ==> e.block + e.len <= l;
    } else if ee[i].block <= l {
      FoundRun(store, n, lo, hi, l, ee[i]);
    } else {
      forall f | f in ee ensures !f.Covers(l) {
        var j :| 0 <= j < |ee| && ee[j] == f;
      }
      GapRun(store, n, lo, hi, l, ee[i], LeafLookup(ee, l, 1).0);
    }
  }

  /** A run of the child is a run of the tree, as far as the range of the child goes. */
  lemma RunInChild(store: NodeStore, n: Node, lo: nat, hi: nat, i: nat, l: nat, p: nat, len: nat)
    requires TreeOk(store, n, lo, hi) && n.depth > 0
    requires i < |n.indexes| && n.indexes[i].block <= l && l + len <= ChildEnd(n.indexes, i, hi)
    ensures TrueRun(store, n, l, p, len) <==> TrueRun(store, store(n.indexes[i].leaf), l, p, len)
  {
    forall m | l <= m < l + len ensures Mapped(store, n, m) == Mapped(store, store(n.indexes[i].leaf), m) {
      MappedInChild(store, n, lo, hi, i, m);
    }
  }

  /**
   * The search in a well-formed tree of any depth.  Where it reaches a leaf, its answer is a true run of
   * the map that all extents of the tree make exactly when the block is not in a gap before an extent of
   * that leaf.  Where it reaches none, the block is a hole.
   */
  lemma {:induction false} SearchRunIff(store: NodeStore, n: Node, lo: nat, hi: nat, l: nat)
    requires TreeOk(store, n, lo, hi) && lo <= l < hi
    ensures match ChosenLeaf(store, n, l, lo, hi)
            case None => Mapped(store, n, l) == 0
            case Some(leaf) =>
              var (p, len) := LeafLookup(leaf.extents, l, 1);
              && (TrueRun(store, n, l, p, len) <==> !InGap(leaf, l))
              && len > 0 && l + len <= hi && (p == 0 && !InGap(leaf, l) ==> len == 1)
    decreases n.depth
  {
    if n.depth == 0 {
      LeafRunIff(store, n, lo, hi, l);
    } else {
      var k := EntriesBefore(n.indexes, l, 0);
      if k == 0 {
        NothingBefore(store, n, lo, hi, l);
      } else {
        var i := k - 1;
        var child, childLo, childHi := store(n.indexes[i].leaf), n.indexes[i].block, ChildEnd(n.indexes, i, hi);
        SearchRunIff(store, child, childLo, childHi, l);
        MappedInChild(store, n, lo, hi, i, l);
        var leaf := ChosenLeaf(store, child, l, childLo, childHi);
        if leaf.Some? {
          var (p, len) := LeafLookup(leaf.value.extents, l, 1);
          RunInChild(store, n, lo, hi, i, l, p, len);
          assert childHi <= hi;
        }
      }
    }
  }

  /** Where the search reaches a leaf, the run goes on to the end of the extent that covers the block. */
  lemma {:induction false} SearchToEnd(store: NodeStore, n: Node, lo: nat, hi: nat, l: nat, e: Extent)
    requires TreeOk(store, n, lo, hi) && lo <= l < hi && HasExtent(store, n, e) && e.Covers(l)
    requires ChosenLeaf(store, n, l, lo, hi).Some?
    ensures LeafLookup(ChosenLeaf(store, n, l, lo, hi).value.extents, l, 1).1 == e.block + e.len - l
    decreases n.depth
  {
    if n.depth == 0 {
      LeafArithmetic(n.extents, lo, hi, l);
      var j :| 0 <= j < |n.extents| && n.extents[j] == e;
      var i := FirstEnding(n.extents, l, 0);
      assert j == i;
    } else {
      var i := EntriesBefore(n.indexes, l, 0) - 1;
      var child, childLo, childHi := store(n.indexes[i].leaf), n.indexes[i].block, ChildEnd(n.indexes, i, hi);
      ExtentUnderChild(store, n, lo, hi, e, i, l);
      SearchToEnd(store, child, childLo, childHi, l, e);
    }
  }

  lemma NothingBefore(store: NodeStore, n: Node, lo: nat, hi: nat, l: nat)
    requires TreeOk(store, n, lo, hi) && n.depth > 0 && EntriesBefore(n.indexes, l, 0) == 0
    ensures Mapped(store, n, l) == 0
  {
    if e :| HasExtent(store, n, e) && e.Covers(l) {
      var i :| 0 <= i < |n.indexes| && store(n.indexes[i].leaf).depth < n.depth &&
               HasExtent(store, store(n.indexes[i].leaf), e);
      ExtentInRange(store, store(n.indexes[i].leaf), n.indexes[i].block, ChildEnd(n.indexes, i, hi), e);
      assert n.indexes[0].block <= n.indexes[i].block;
    }
  }

  /** A leaf with a hole between two extents: block 4 is in the hole, and is looked up as physical block 95. */
  lemma GapIsMisread()
    ensures var leaf := Node(EXT4_EXT_MAGIC, 0, [Extent(0, 2, 50), Extent(9, 4, 100)], []);
            LeafOk(leaf.extents, 0, 13) && InGap(leaf, 4) && LeafLookup(leaf.extents, 4, 1) == (95, 9)
  {
    var leaf := Node(EXT4_EXT_MAGIC, 0, [Extent(0, 2, 50), Extent(9, 4, 100)], []);
    assert leaf.extents[1] == Extent(9, 4, 100) && Extent(9, 4, 100) in leaf.extents;
    assert FirstEnding(leaf.extents, 4, 0) == FirstEnding(leaf.extents, 4, 1) == 1;
  }
}
