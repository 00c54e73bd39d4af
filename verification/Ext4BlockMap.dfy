/** The block map of ext2 and ext3: direct blocks, and one, two or three levels of index blocks. */
module Ext4BlockMap {
  import opened Bytes
  import opened Ext4Disk
  import opened Radix

  const NDIR_BLOCKS: nat := 12
  const IND_BLOCK: nat := 12
  const DIND_BLOCK: nat := 13
  const TIND_BLOCK: nat := 14
  const N_BLOCKS: nat := 15

  /** Disk and block size.  Block sizes are 1024 times a power of two; that they are multiples of 4 below 2^31 is enough here. */
  datatype Volume = Volume(disk: seq<byte>, blockSize: nat) {
    predicate WellFormed() { 1024 <= blockSize < TWO_32 / 2 && blockSize % 4 == 0 && |disk| < TWO_64 / 2 }

    /** Addresses in one, two and three levels of index blocks. */
    function A1(): (a: nat)
      requires WellFormed()
      ensures a > 0 && blockSize == 4 * a
    {
      blockSize / 4
    }

    function A2(): nat requires WellFormed() { A1() * A1() }

    function A3(): nat requires WellFormed() { A2() * A1() }

    function MaxInd(): nat requires WellFormed() { NDIR_BLOCKS + A1() }

    function MaxDind(): nat requires WellFormed() { MaxInd() + A2() }

    function MaxTind(): nat requires WellFormed() { MaxDind() + A3() }

    /** Entry `i` of the index block `b`. */
    function Slot(b: nat, i: nat): Option<nat> {
      ReadU32(disk, b * blockSize + i * 4)
    }
  }

  // ----- The lookup, level by level; each level asserts that its argument is in range

  function LookupInd(v: Volume, l: nat, indexBlock: nat): Option<nat>
    requires v.WellFormed() && l < v.A1()
  {
    v.Slot(indexBlock, l)
  }

  function LookupDind(v: Volume, l: nat, dindexBlock: nat): Option<nat>
    requires v.WellFormed() && l < v.A2()
  {
    QuotientRemainder(l, v.A1());
    match v.Slot(dindexBlock, l / v.A1())
    case None => None
    case Some(indexBlock) => LookupInd(v, l % v.A1(), indexBlock)
  }

  function LookupTind(v: Volume, l: nat, tindexBlock: nat): Option<nat>
    requires v.WellFormed() && l < v.A3()
  {
    A2Positive(v);
    QuotientRemainder(l, v.A2());
    match v.Slot(tindexBlock, l / v.A2())
    case None => None
    case Some(dindexBlock) => LookupDind(v, l % v.A2(), dindexBlock)
  }

  /** The physical block of logical block `l`; `None` when an assertion of the program fails. */
  function Lookup(v: Volume, block: seq<nat>, l: nat): Option<nat>
    requires v.WellFormed() && |block| == N_BLOCKS
  {
    if l < NDIR_BLOCKS then Some(block[l])
    else if l < v.MaxInd() then LookupInd(v, l - NDIR_BLOCKS, block[IND_BLOCK])
    else if l < v.MaxDind() then LookupDind(v, l - v.MaxInd(), block[DIND_BLOCK])
    else if l < v.MaxTind() then LookupTind(v, l - v.MaxDind(), block[TIND_BLOCK])
    else None
  }

  lemma A2Positive(v: Volume)
    requires v.WellFormed()
    ensures v.A2() > 0 && v.A3() > 0 && v.A3() == v.A1() * v.A2()
  {
  }

  // ----- The map as a numeration system

  /** `m` in the numeration system of two, and of three, levels of index blocks. */
  function Digits2(v: Volume, m: nat): seq<nat>
    requires v.WellFormed()
  {
    QuotientRemainder(m, v.A1());
    [m / v.A1(), m % v.A1()]
  }

  function Digits3(v: Volume, m: nat): seq<nat>
    requires v.WellFormed()
  {
    A2Positive(v);
    QuotientRemainder(m, v.A2());
    [m / v.A2()] + Digits2(v, m % v.A2())
  }

  function Value2(v: Volume, i: nat, j: nat): nat
    requires v.WellFormed()
  {
    i * v.A1() + j
  }

  function Value3(v: Volume, h: nat, i: nat, j: nat): nat
    requires v.WellFormed()
  {
    h * v.A2() + Value2(v, i, j)
  }

  /** The slots on the way to a block: one in the inode, then one in each index block. */
  function Path(v: Volume, l: nat): (p: seq<nat>)
    requires v.WellFormed() && l < v.MaxTind()
  {
    if l < NDIR_BLOCKS then [l]
    else if l < v.MaxInd() then [IND_BLOCK, l - NDIR_BLOCKS]
    else if l < v.MaxDind() then [DIND_BLOCK] + Digits2(v, l - v.MaxInd())
    else [TIND_BLOCK] + Digits3(v, l - v.MaxDind())
  }

  /** The paths that exist. */
  predicate IsPath(v: Volume, p: seq<nat>)
    requires v.WellFormed()
  {
    && |p| > 0
    && (forall i :: 1 <= i < |p| ==> p[i] < v.A1())
    && |p| == if p[0] < NDIR_BLOCKS then 1 else if p[0] == IND_BLOCK then 2 else if p[0] == DIND_BLOCK then 3
              else if p[0] == TIND_BLOCK then 4 else 0
  }

  /** The block that a path leads to. */
  function Number(v: Volume, p: seq<nat>): nat
    requires v.WellFormed() && IsPath(v, p)
  {
    match |p|
    case 1 => p[0]
    case 2 => NDIR_BLOCKS + p[1]
    case 3 => v.MaxInd() + Value2(v, p[1], p[2])
    case _ => v.MaxDind() + Value3(v, p[1], p[2], p[3])
  }

  lemma DigitsOfTwo(v: Volume, m: nat)
    requires v.WellFormed() && m < v.A2()
    ensures var d := Digits2(v, m); |d| == 2 && d[0] < v.A1() && d[1] < v.A1() && Value2(v, d[0], d[1]) == m
  {
    QuotientRemainder(m, v.A1());
    QuotientBelow(m, v.A1(), v.A1());
  }

  lemma DigitsOfThree(v: Volume, m: nat)
    requires v.WellFormed() && m < v.A3()
    ensures var d := Digits3(v, m);
            && |d| == 3 && d[0] < v.A1() && d[1] < v.A1() && d[2] < v.A1()
            && Value3(v, d[0], d[1], d[2]) == m
  {
    A2Positive(v);
    QuotientRemainder(m, v.A2());
    QuotientBelow(m, v.A2(), v.A1());
    DigitsOfTwo(v, m % v.A2());
  }

  lemma TwoDigits(v: Volume, i: nat, j: nat)
    requires v.WellFormed() && i < v.A1() && j < v.A1()
    ensures Value2(v, i, j) < v.A2() && Digits2(v, Value2(v, i, j)) == [i, j]
  {
    ProductBelow(i, v.A1(), v.A1());
    QuotientOf(i, j, v.A1());
  }

  lemma ThreeDigits(v: Volume, h: nat, i: nat, j: nat)
    requires v.WellFormed() && h < v.A1() && i < v.A1() && j < v.A1()
    ensures Value3(v, h, i, j) < v.A3() && Digits3(v, Value3(v, h, i, j)) == [h, i, j]
  {
    A2Positive(v);
    TwoDigits(v, i, j);
    ProductBelow(h, v.A2(), v.A1());
    QuotientOf(h, Value2(v, i, j), v.A2());
  }

  /** Each block below the limit has exactly one path, which leads back to it. */
  lemma PathNumber(v: Volume, l: nat)
    requires v.WellFormed() && l < v.MaxTind()
    ensures IsPath(v, Path(v, l)) && Number(v, Path(v, l)) == l
  {
    if v.MaxInd() <= l < v.MaxDind() {
      DigitsOfTwo(v, l - v.MaxInd());
    } else if v.MaxDind() <= l {
      DigitsOfThree(v, l - v.MaxDind());
    }
  }

  /** Each path is that of the block it leads to. */
  lemma NumberPath(v: Volume, p: seq<nat>)
    requires v.WellFormed() && IsPath(v, p)
    ensures Number(v, p) < v.MaxTind() && Path(v, Number(v, p)) == p
  {
    A2Positive(v);
    if |p| == 3 {
      TwoDigits(v, p[1], p[2]);
    } else if |p| == 4 {
      ThreeDigits(v, p[1], p[2], p[3]);
    }
  }

  /** Two blocks have different paths. */
  lemma PathInjective(v: Volume, l1: nat, l2: nat)
    requires v.WellFormed() && l1 < v.MaxTind() && l2 < v.MaxTind() && Path(v, l1) == Path(v, l2)
    ensures l1 == l2
  {
    PathNumber(v, l1);
    PathNumber(v, l2);
  }

  // ----- The lookup walks the path

  /** From block number `b`, the block that the slots `p` lead to. */
  function Follow(v: Volume, b: nat, p: seq<nat>): Option<nat>
    decreases |p|
  {
    if p == [] then Some(b)
    else match v.Slot(b, p[0])
         case None => None
         case Some(c) => Follow(v, c, p[1..])
  }

  /** What the slots mean: index block 0 is a hole, and so is everything under it. */
  function Meaning(v: Volume, b: nat, p: seq<nat>): Option<nat>
    decreases |p|
  {
    if p == [] then Some(b)
    else if b == 0 then Some(0)
    else match v.Slot(b, p[0])
         case None => None
         case Some(c) => Meaning(v, c, p[1..])
  }

  /** Some index block on the way is missing. */
  predicate ThroughHole(v: Volume, b: nat, p: seq<nat>)
    decreases |p|
  {
    p != [] && (b == 0 || (v.Slot(b, p[0]).Some? && ThroughHole(v, v.Slot(b, p[0]).value, p[1..])))
  }

  /** The physical block of logical block `l` according to the format; 0 in a hole. */
  function BlockAt(v: Volume, block: seq<nat>, l: nat): Option<nat>
    requires v.WellFormed() && |block| == N_BLOCKS
  {
    if l >= v.MaxTind() then None
    else
      PathNumber(v, l);
      Meaning(v, block[Path(v, l)[0]], Path(v, l)[1..])
  }

  predicate InSparsePart(v: Volume, block: seq<nat>, l: nat)
    requires v.WellFormed() && |block| == N_BLOCKS && l < v.MaxTind()
  {
    PathNumber(v, l);
    ThroughHole(v, block[Path(v, l)[0]], Path(v, l)[1..])
  }

  lemma FollowTwo(v: Volume, b: nat, i: nat, j: nat)
    ensures Follow(v, b, [i, j]) == match v.Slot(b, i) case None => None case Some(c) => v.Slot(c, j)
  {
    assert [i, j][1..] == [j];
    match v.Slot(b, i) {
      case None =>
      case Some(c) =>
        assert [j][1..] == [];
        match v.Slot(c, j) { case None => case Some(e) => assert Follow(v, e, []) == Some(e); }
    }
  }

  /** The range tests and the divisions at each level pick the slots of the path. */
  lemma LookupFollowsPath(v: Volume, block: seq<nat>, l: nat)
    requires v.WellFormed() && |block| == N_BLOCKS && l < v.MaxTind()
    ensures var p := Path(v, l); p[0] < N_BLOCKS && Lookup(v, block, l) == Follow(v, block[p[0]], p[1..])
  {
    PathNumber(v, l);
    var p := Path(v, l);
    var b := block[p[0]];
    if l < NDIR_BLOCKS {
      assert p[1..] == [];
    } else if l < v.MaxInd() {
      assert p[1..] == [l - NDIR_BLOCKS];
      assert [l - NDIR_BLOCKS][1..] == [];
    } else if l < v.MaxDind() {
      var m := l - v.MaxInd();
      QuotientRemainder(m, v.A1());
      assert p[1..] == [m / v.A1(), m % v.A1()];
      FollowTwo(v, b, m / v.A1(), m % v.A1());
    } else {
      var m := l - v.MaxDind();
      A2Positive(v);
      QuotientRemainder(m, v.A2());
      var d := Digits2(v, m % v.A2());
      assert p[1..] == [m / v.A2()] + d;
      assert ([m / v.A2()] + d)[1..] == d;
      if c :| v.Slot(b, m / v.A2()) == Some(c) {
        FollowTwo(v, c, d[0], d[1]);
      }
    }
  }

  lemma {:induction false} FollowIffMeaning(v: Volume, b: nat, p: seq<nat>)
    ensures ThroughHole(v, b, p) ==> Meaning(v, b, p) == Some(0)
    ensures !ThroughHole(v, b, p) ==> Follow(v, b, p) == Meaning(v, b, p)
    decreases |p|
  {
    if p != [] && v.Slot(b, p[0]).Some? {
      FollowIffMeaning(v, v.Slot(b, p[0]).value, p[1..]);
    }
  }

  /** The slots that are left where the way comes to a missing index block. */
  function AtHole(v: Volume, b: nat, p: seq<nat>): seq<nat>
    requires ThroughHole(v, b, p)
    decreases |p|
  {
    if b == 0 then p else AtHole(v, v.Slot(b, p[0]).value, p[1..])
  }

  /** There the lookup goes on in block 0. */
  lemma {:induction false} FollowFromHole(v: Volume, b: nat, p: seq<nat>)
    requires ThroughHole(v, b, p)
    ensures Follow(v, b, p) == Follow(v, 0, AtHole(v, b, p))
    decreases |p|
  {
    if b != 0 { FollowFromHole(v, v.Slot(b, p[0]).value, p[1..]); }
  }

  /**
   * The lookup agrees with the format exactly outside the parts without index block, and, by luck, where
   * the slots that are left lead from block 0 to a zero.
   */
  lemma LookupIff(v: Volume, block: seq<nat>, l: nat)
    requires v.WellFormed() && |block| == N_BLOCKS && l < v.MaxTind()
    ensures Lookup(v, block, l) == BlockAt(v, block, l) <==>
            !InSparsePart(v, block, l) ||
            (PathNumber(v, l); Follow(v, 0, AtHole(v, block[Path(v, l)[0]], Path(v, l)[1..])) == Some(0))
  {
    PathNumber(v, l);
    if InSparsePart(v, block, l) {
      FollowFromHole(v, block[Path(v, l)[0]], Path(v, l)[1..]);
    }
    LookupFollowsPath(v, block, l);
    FollowIffMeaning(v, block[Path(v, l)[0]], Path(v, l)[1..]);
  }

  /** A disk of ones and a map without any block: a block in a missing index block is looked up as what block 0 holds. */
  lemma MissingIndexIsMisread()
    ensures var v, block := Volume(seq(1024, i => 1), 1024), seq(N_BLOCKS, i => 0);
            && v.WellFormed() && NDIR_BLOCKS < v.MaxTind()
            && Lookup(v, block, NDIR_BLOCKS) == Some(0x101_0101) && BlockAt(v, block, NDIR_BLOCKS) == Some(0)
  {
    var v, block := Volume(seq(1024, i => 1), 1024), seq(N_BLOCKS, i => 0);
    A2Positive(v);
    assert v.A1() == 256;
    assert Path(v, NDIR_BLOCKS) == [IND_BLOCK, 0];
    assert Path(v, NDIR_BLOCKS)[1..] == [0];
  }

  /** The last table on the way, if the way can be read. */
  function LastTable(v: Volume, b: nat, p: seq<nat>): Option<nat>
    requires |p| > 0
    decreases |p|
  {
    if |p| == 1 then Some(b)
    else match v.Slot(b, p[0])
         case None => None
         case Some(c) => LastTable(v, c, p[1..])
  }

  /** Two blocks beyond the direct ones are looked up in different places, if tables are not shared. */
  lemma SlotsDistinct(v: Volume, block: seq<nat>, l1: nat, l2: nat)
    requires v.WellFormed() && |block| == N_BLOCKS && NDIR_BLOCKS <= l1 < v.MaxTind() && NDIR_BLOCKS <= l2 < v.MaxTind()
    requires l1 != l2
    ensures var p1, p2 := Path(v, l1), Path(v, l2);
            && |p1| > 1 && |p2| > 1 && p1[0] < N_BLOCKS && p2[0] < N_BLOCKS
            && var t1, t2 := LastTable(v, block[p1[0]], p1[1..]), LastTable(v, block[p2[0]], p2[1..]);
               t1.Some? && t2.Some? && (t1 == t2 ==> p1[..|p1| - 1] == p2[..|p2| - 1]) ==>
                 t1.value * v.blockSize + p1[|p1| - 1] * 4 != t2.value * v.blockSize + p2[|p2| - 1] * 4
  {
    PathNumber(v, l1);
    PathNumber(v, l2);
    var p1, p2 := Path(v, l1), Path(v, l2);
    var t1, t2 := LastTable(v, block[p1[0]], p1[1..]), LastTable(v, block[p2[0]], p2[1..]);
    if t1.Some? && t2.Some? && (t1 == t2 ==> p1[..|p1| - 1] == p2[..|p2| - 1]) {
      if t1.value < t2.value { ProductBelow(t1.value, v.blockSize, t2.value); }
      if t2.value < t1.value { ProductBelow(t2.value, v.blockSize, t1.value); }
      if t1 == t2 {
        assert p1 == p1[..|p1| - 1] + [p1[|p1| - 1]] && p2 == p2[..|p2| - 1] + [p2[|p2| - 1]];
        assert p1 != p2;
      }
    }
  }

  // ----- The lookup in terms of the bytes of the disk

  lemma SlotIff(v: Volume, b: nat, i: nat, n: nat)
    requires b * v.blockSize + 4 * i + 4 <= |v.disk|
    ensures v.Slot(b, i) == Some(n) <==> WordAt(v.disk, b * v.blockSize + 4 * i, n)
  {
    var at := b * v.blockSize + 4 * i;
    if WordAt(v.disk, at, n) {
      WordUnique(v.disk, at, v.Slot(b, i).value, n);
    }
  }

  /** The first 12 blocks are those of the inode. */
  lemma DirectBlocks(v: Volume, block: seq<nat>, l: nat)
    requires v.WellFormed() && |block| == N_BLOCKS && l < 12
    ensures Lookup(v, block, l) == Some(block[l])
  {
  }

  /** After these, block `i` is word `i` of the block that slot 12 of the inode names. */
  lemma OneLevelBytes(v: Volume, block: seq<nat>, i: nat, n: nat)
    requires v.WellFormed() && |block| == N_BLOCKS && i < v.blockSize / 4
    requires block[12] * v.blockSize + 4 * i + 4 <= |v.disk|
    ensures Lookup(v, block, 12 + i) == Some(n) <==>
            && n < 0x1_0000_0000
            && v.disk[block[12] * v.blockSize + 4 * i] == n % 256
            && v.disk[block[12] * v.blockSize + 4 * i + 1] == n / 256 % 256
            && v.disk[block[12] * v.blockSize + 4 * i + 2] == n / 65536 % 256
            && v.disk[block[12] * v.blockSize + 4 * i + 3] == n / 16777216 % 256
  {
    SlotIff(v, block[12], i, n);
  }

  /** Then two words lead to a block: word `i` of the block in slot 13, and word `j` of the block `b` that it names. */
  lemma TwoLevelBytes(v: Volume, block: seq<nat>, l: nat, i: nat, j: nat, b: nat, n: nat)
    requires v.WellFormed() && |block| == N_BLOCKS && i < v.blockSize / 4 && j < v.blockSize / 4
    requires WordAt(v.disk, block[13] * v.blockSize + 4 * i, b) && b * v.blockSize + 4 * j + 4 <= |v.disk|
    requires var a := v.blockSize / 4; l == 12 + a + i * a + j
    ensures Lookup(v, block, l) == Some(n) <==> WordAt(v.disk, b * v.blockSize + 4 * j, n)
  {
    TwoDigits(v, i, j);
    QuotientOf(i, j, v.A1());
    SlotIff(v, block[13], i, b);
    SlotIff(v, b, j, n);
  }

  /** Where word `i` of block `b` is. */
  function Address(v: Volume, b: nat, i: nat): nat {
    b * v.blockSize + 4 * i
  }

  /** And then three: word `h` of the block in slot 14, word `i` of the block `b` that it names, word `j` of the block `c` that that names. */
  lemma ThreeLevelBytes(v: Volume, block: seq<nat>, l: nat, h: nat, i: nat, j: nat, b: nat, c: nat, n: nat)
    requires v.WellFormed() && |block| == N_BLOCKS && h < v.blockSize / 4 && i < v.blockSize / 4 && j < v.blockSize / 4
    requires WordAt(v.disk, Address(v, block[14], h), b) && WordAt(v.disk, Address(v, b, i), c)
    requires Address(v, c, j) + 4 <= |v.disk|
    requires var a := v.blockSize / 4; l == 12 + a + a * a + h * (a * a) + i * a + j
    ensures Lookup(v, block, l) == Some(n) <==> WordAt(v.disk, Address(v, c, j), n)
  {
    A2Positive(v);
    ThreeDigits(v, h, i, j);
    TwoDigits(v, i, j);
    QuotientOf(h, i * v.A1() + j, v.A2());
    QuotientOf(i, j, v.A1());
    SlotIff(v, block[14], h, b);
    SlotIff(v, b, i, c);
    SlotIff(v, c, j, n);
  }
}
