/** Path lookup: as far as the cache leads, then through the directories, which fills the cache. */
module Ext4Lookup {
  import opened Bytes
  import opened Ext4Read
  import opened Ext4Dir
  import opened Ext4Dcache
  import opened Ext4Path

  // ----- The cache and the tree

  /** Every entry of the cache holds the inode to which its path leads. */
  ghost predicate Coherent(cache: Dcache, t: Tree)
    requires TreeOk(t)
    reads cache, cache.nodes
  {
    forall n {:trigger Right(n, t)} :: n in cache.nodes ==> Right(n, t)
  }

  ghost predicate Right(n: Node, t: Tree)
    requires TreeOk(t)
    reads n
  {
    n.inode != 0 && n.inode == Resolve(t, n.path)
  }

  predicate TooLong(name: Name) {
    |name| + 1 > DCACHE_ENTRY_NAME_LEN
  }


  /** The entry at which the first `k` names arrive, always by the first entry of a ring with the name. */
  ghost function Descend(rings: Rings, root: Node, names: seq<Name>, k: nat): Option<Node>
    requires k <= |names|
  {
    if k == 0 then Some(root)
    else match Descend(rings, root, names, k - 1)
         case None => None
         case Some(p) => if p in rings then FirstNamed(rings[p], names[k - 1], 0) else None
  }

  /** `s` are rings of `r` that have not changed below depth `k`. */
  ghost predicate SameBelow(r: Rings, s: Rings, k: nat) {
    r.Keys == s.Keys && forall n {:trigger s[n]} :: n in s && |n.path| >= k ==> n in r && s[n] == r[n]
  }

  lemma TurnedAbove(r: Rings, s: Rings, p: Node, i: nat)
    requires SameBelow(r, s, |p.path|) && p in s && i < |s[p]|
    ensures SameBelow(r, Turned(s, p, i), |p.path| + 1)
  {
  }

  lemma DescendOne(r: Rings, s: Rings, root: Node, names: seq<Name>, p: Node, e: Node?, i: nat)
    requires |p.path| < |names| && SameBelow(r, s, |p.path|) && p in s
    requires Descend(r, root, names, |p.path|) == Some(p) && Found(s[p], names[|p.path|], e, i)
    ensures Descend(r, root, names, |p.path| + 1) == if e == null then None else Some(e)
  {
    FoundIsFirst(s[p], names[|p.path|], e, i, 0);
    assert s[p] == r[p];
  }

  /** The entry at `path` is the one for the first `k` names, all of which fit into entries. */
  ghost predicate Begins(path: seq<Name>, names: seq<Name>, k: nat) {
    |path| == k <= |names| && forall i {:trigger path[i]} :: 0 <= i < k ==> path[i] == names[i] && !TooLong(path[i])
  }

  /** The descent through the rings `r` has come to an entry; below it, the rings are still those. */
  ghost predicate OnTheWay(cache: Dcache, e: Node?, names: seq<Name>, k: nat, r: Rings)
    reads cache
  {
    && (e == null || e in cache.nodes) && Begins(cache.Parent(e).path, names, k)
    && SameBelow(r, cache.rings, k) && Descend(r, cache.root, names, k) == Some(cache.Parent(e))
  }

  /** The descent ends: the next name leads nowhere, or two slashes in a row come before it. */
  ghost predicate Ends(r: Rings, root: Node, path: seq<byte>, names: seq<Name>, k: nat, at: nat) {
    k < |names| ==> Descend(r, root, names, k + 1) == None || (at > 0 && DoubleSlash(path, at - 1))
  }

  /** Follows one name. */
  method FollowName(cache: Dcache, parent: Node?, name: Name, ghost names: seq<Name>, ghost k: nat, ghost r: Rings)
    returns (next: Node?)
    requires cache.Valid() && OnTheWay(cache, parent, names, k, r) && k < |names| && name == names[k] && NoZero(name)
    modifies cache`rings, cache.nodes`childs
    ensures cache.Valid()
    ensures next != null ==> OnTheWay(cache, next, names, k + 1, r)
    ensures next == null ==> OnTheWay(cache, parent, names, k, r) && Descend(r, cache.root, names, k + 1) == None
  {
    ghost var s, p := cache.rings, cache.Parent(parent);
    ghost var i;
    next, i := cache.Lookup(parent, name);
    DescendOne(r, s, cache.root, names, p, next, i);
    if next != null {
      TurnedAbove(r, s, p, i);
    }
  }

  /** Follows one component, if there is one after at most one slash. */
  method FollowToken(cache: Dcache, path: seq<byte>, from: nat, parent: Node?, ghost names: seq<Name>, ghost k: nat, ghost r: Rings)
    returns (next: Node?, at: nat)
    requires cache.Valid() && PathOk(path) && names == Components(path, 0) && k <= |names| && Parsed(path, k, from)
    requires OnTheWay(cache, parent, names, k, r)
    modifies cache`rings, cache.nodes`childs
    ensures cache.Valid()
    ensures next != null ==> from < at && k < |names| && Parsed(path, k + 1, at) && OnTheWay(cache, next, names, k + 1, r)
    ensures next == null ==> Parsed(path, k, at) && OnTheWay(cache, parent, names, k, r) && Ends(r, cache.root, path, names, k, at)
  {
    var len;
    at, len := NextToken(path, from, names, k);
    if len == 0 {
      return null, at;
    }
    next := FollowName(cache, parent, path[at..at + len], names, k, r);
    if next != null {
      at := at + len;
    }
  }

  /** Follows the path through the cache as far as it goes, or up to two slashes in a row: along the first `k` names. */
  method GetCachedInodeNum(cache: Dcache, path: seq<byte>, ghost names: seq<Name>) returns (ret: Node?, at: nat, ghost k: nat)
    requires cache.Valid() && PathOk(path) && names == Components(path, 0)
    modifies cache`rings, cache.nodes`childs
    ensures cache.Valid() && k <= |names| && Parsed(path, k, at)
    ensures OnTheWay(cache, ret, names, k, old(cache.rings)) && Ends(old(cache.rings), cache.root, path, names, k, at)
  {
    ret, at, k := null, 0, 0;
    var next: Node? := null;
    ghost var r := cache.rings;
    while true
      invariant cache.Valid() && k <= |names| && Parsed(path, k, at) && OnTheWay(cache, next, names, k, r)
      decreases |path| - at
    {
      ret := next;
      next, at := FollowToken(cache, path, at, ret, names, k, r);
      if next == null {
        return;
      }
      k := k + 1;
    }
  }

  // ----- Lookups

  /** What is on the disk: the file system and its table of inodes. */
  datatype Disk = Disk(fs: FileSystem, inodes: map<nat, Inode>)

  /** The directories of `t`, and their blocks, are those on the disk. */
  ghost predicate Stores(d: Disk, t: Tree, blocks: map<nat, Blocks>) {
    TreeOk(t) && forall n {:trigger StoresAt(d, t, blocks, n)} :: n in t ==> StoresAt(d, t, blocks, n)
  }

  ghost predicate StoresAt(d: Disk, t: Tree, blocks: map<nat, Blocks>, n: nat)
    requires n in t
  {
    n in d.inodes && n in blocks && StoresDirectory(d.fs, d.inodes[n], t[n], blocks[n])
  }

  ghost predicate StoresDirectory(fs: FileSystem, dir: Inode, content: Directory, blocks: Blocks) {
    DirHolds(fs, dir, blocks) && IsLayout(content.entries, blocks, fs.volume.blockSize) && content.size == dir.size && dir.isDirectory
  }

  /** Scans a directory for an entry in use with this name. */
  method FindEntry(fs: FileSystem, dir: Inode, name: Name, dctx: DirContext, ghost content: Directory, ghost blocks: Blocks)
    returns (inode: nat)
    requires StoresDirectory(fs, dir, content, blocks) && Linked(content.entries, content.size) && content.size < TWO_32
    requires dctx.buf.Length == fs.volume.blockSize
    modifies dctx, dctx.buf
    ensures inode == EntryNamed(content.entries, content.size, 0, name)
    ensures FirstInode(content.entries, content.size, 0, name, inode)
  {
    var offset := 0;
    ghost var m := content.entries;
    EntryNamedIsFirst(m, content.size, 0, name);
    dctx.Reset(fs, dir, blocks);
    while true
      invariant dctx.Valid(blocks) && (offset == dir.size || offset in m)
      invariant EntryNamed(m, dir.size, offset, name) == EntryNamed(m, dir.size, 0, name)
      decreases dir.size - offset
    {
      var dentry := dctx.DentryGet(fs, dir, offset, blocks, m);
      if dentry.None? {
        return 0;
      }
      assert HasNext(m, dir.size, offset);
      offset := (offset + dentry.value.recLen) % TWO_32;
      if dentry.value.inode == 0 || |name| != |dentry.value.name| || name != dentry.value.name {
        continue;
      }
      return dentry.value.inode;
    }
  }

  /** Component `j` would be entered into the cache as a child of the root, with the inode of something else. */
  ghost predicate Misplaced(t: Tree, names: seq<Name>, j: nat)
    requires TreeOk(t) && 0 < j < |names|
  {
    && TooLong(names[j - 1]) && !TooLong(names[j])
    && Walk(t, names, j + 1) != 0 && Walk(t, names, j + 1) != Find(t, ROOT_INODE_N, names[j])
  }

  ghost predicate SafeTo(t: Tree, names: seq<Name>, k: nat)
    requires TreeOk(t) && k <= |names|
  {
    forall j :: 0 < j < k ==> !Misplaced(t, names, j)
  }

  lemma SafeWhenFailed(w: Way, k: nat, coherent: bool)
    requires w.Ok() && w.first <= k < |w.names| && w.Inode(k + 1) == 0 && (coherent ==> StartsRight(w))
    ensures w.End() == 0
    ensures coherent ==> (SafeTo(w.t, w.names, |w.names|) <==> SafeTo(w.t, w.names, k))
  {
    w.Failed(k + 1, |w.names|);
    if coherent {
      forall j | k <= j < |w.names| && j > 0 ensures !Misplaced(w.t, w.names, j) {
        w.Failed(k + 1, j + 1);
        w.PartOfWalk(j + 1);
      }
    }
  }

  /** The walk starts where the walk from the root would come by. */
  ghost predicate StartsRight(w: Way)
    requires w.Ok()
  {
    w.start == Walk(w.t, w.names, w.first)
  }

  /** A name that was entered under the root, but belongs elsewhere, and its inode. */
  datatype Stray = Stray(name: Name, inode: nat)

  /** An entry has an inode that is accounted for. */
  ghost predicate SoundAt(n: Node, root: Node, nodes: set<Node>, t: Tree, strays: iset<Stray>)
    requires TreeOk(t)
    reads n, nodes
  {
    n.inode != 0 &&
    (n == root ||
     (n.up != null && n.up in nodes && Accounted(n.up.inode, n.up == root, n.Name(), n.inode, t, strays)))
  }

  /** An inode is what the parent has under this name, or, under the root, that of a stray. */
  ghost predicate Accounted(parent: nat, isRoot: bool, name: Name, inode: nat, t: Tree, strays: iset<Stray>)
    requires TreeOk(t)
  {
    inode == Find(t, parent, name) || (isRoot && Stray(name, inode) in strays)
  }

  ghost predicate Sound(cache: Dcache, t: Tree, strays: iset<Stray>)
    requires TreeOk(t)
    reads cache, cache.nodes
  {
    forall n {:trigger SoundAt(n, cache.root, cache.nodes, t, strays)} :: n in cache.nodes ==> SoundAt(n, cache.root, cache.nodes, t, strays)
  }

  /** What is known of a cache when a walk begins, and which strays it may have when the walk ends. */
  datatype Past = Past(coherent: bool, strays: iset<Stray>)

  /** A cache that was coherent, or not, when the walk began: it still is if it was and nothing has been misplaced. */
  ghost predicate Kept(cache: Dcache, w: Way, k: nat, past: Past)
    requires w.Ok() && k <= |w.names|
    reads cache, cache.nodes, cache.root
  {
    cache.root.inode == ROOT_INODE_N && Sound(cache, w.t, past.strays) && (Coherent(cache, w.t) <==> past.coherent && SafeTo(w.t, w.names, k))
  }

  /** The first child of the root has this name and this inode. */
  ghost predicate Heads(cache: Dcache, name: Name, inode: nat)
    reads cache, cache.nodes
  {
    && cache.root in cache.rings && cache.rings[cache.root] != []
    && var e := cache.rings[cache.root][0]; e in cache.nodes && e.Name() == name && e.inode == inode
  }

  /** Name `j` fits into an entry, but the one before does not. */
  predicate Detached(names: seq<Name>, j: nat)
    requires j < |names|
  {
    j > 0 && TooLong(names[j - 1]) && !TooLong(names[j])
  }

  /** The last of the first `k` names, if it has been detached from the one before, is in front of the root's children. */
  ghost predicate InFront(cache: Dcache, w: Way, k: nat)
    requires w.Ok() && w.first <= k <= |w.names|
    reads cache, cache.nodes
  {
    k > 0 && Detached(w.names, k - 1) && w.Inode(k) != 0 ==> Heads(cache, w.names[k - 1], w.Inode(k))
  }

  /** The entry under which component `k` is to be cached, and the state of the cache so far. */
  ghost predicate Reached(cache: Dcache, entry: Node?, w: Way, k: nat, past: Past)
    requires w.Ok() && w.first <= k <= |w.names|
    reads cache, cache.nodes, entry, cache.root
  {
    && (entry == null || entry in cache.nodes) && (past.coherent ==> StartsRight(w))
    && (if k > 0 && TooLong(w.names[k - 1]) then entry == null else cache.GetInode(entry) == w.Inode(k))
    && Kept(cache, w, k, past) && InFront(cache, w, k)
  }

  /** What a whole lookup leaves behind. */
  ghost predicate Settled(cache: Dcache, w: Way, past: Past)
    requires w.Ok()
    reads cache, cache.nodes, cache.root
  {
    Kept(cache, w, |w.names|, past) && InFront(cache, w, |w.names|)
  }

  /** A new entry leaves the cache coherent if and only if it was and the inode is the one to which the path of the entry leads. */
  method Enter(cache: Dcache, entry: Node?, name: Name, inode: nat, ghost t: Tree, ghost strays: iset<Stray>)
    returns (e: Node?)
    requires cache.Valid() && (entry == null || entry in cache.nodes) && cache.root.inode != 0
    requires TreeOk(t) && NoZero(name) && inode != 0
    modifies cache, cache.nodes`childs, cache.nodes`siblings
    ensures cache.Valid() && (e == null <==> TooLong(name)) && (e != null ==> e in cache.nodes && e.inode == inode)
    ensures Coherent(cache, t) <==>
      old(Coherent(cache, t)) && (!TooLong(name) ==> inode == Find(t, Resolve(t, cache.Parent(entry).path), name))
    ensures old(Sound(cache, t, strays)) && (TooLong(name) || Accounted(old(cache.Parent(entry).inode), cache.Parent(entry) == cache.root, name, inode, t, strays)) ==>
              Sound(cache, t, strays)
    ensures !TooLong(name) && entry == null ==> Heads(cache, name, inode)
    ensures fresh(cache.nodes - old(cache.nodes))
  {
    ghost var p := cache.Parent(entry);
    e := cache.Insert(entry, name, inode);
    ResolveChild(t, p.path, name);
    if old(Sound(cache, t, strays)) && (e != null ==> Accounted(old(p.inode), p == cache.root, name, inode, t, strays)) {
      forall n | n in cache.nodes ensures SoundAt(n, cache.root, cache.nodes, t, strays) {
        assert n != e ==> old(SoundAt(n, cache.root, cache.nodes, t, strays));
      }
    }
    if Coherent(cache, t) {
      forall n | n in old(cache.nodes) ensures old(Right(n, t)) { assert Right(n, t); }
      assert e != null ==> Right(e, t);
    } else if old(Coherent(cache, t)) {
      var n :| n in cache.nodes && !Right(n, t);
      assert n != e ==> old(Right(n, t));
    }
  }

  /** Enters a component that was found into the cache. */
  method Remember(cache: Dcache, entry: Node?, inode: nat, name: Name, ghost w: Way, ghost k: nat, ghost past: Past)
    returns (e: Node?)
    requires cache.Valid() && w.Ok() && w.first <= k < |w.names| && Reached(cache, entry, w, k, past)
    requires Fits(w, past)
    requires name == w.names[k] && NoZero(name) && inode == w.Inode(k + 1) != 0
    modifies cache, cache.nodes`childs, cache.nodes`siblings
    ensures cache.Valid() && Reached(cache, e, w, k + 1, past)
    ensures fresh(cache.nodes - old(cache.nodes))
  {
    ghost var p := cache.Parent(entry);
    assert Coherent(cache, w.t) ==> Right(p, w.t);
    assert Detached(w.names, k) ==> p == cache.root && Stray(name, inode) in past.strays;
    assert !(k > 0 && TooLong(w.names[k - 1])) ==> inode == Find(w.t, p.inode, name);
    assert TooLong(name) || Accounted(p.inode, p == cache.root, name, inode, w.t, past.strays);
    e := Enter(cache, entry, name, inode, w.t, past.strays);
    MisplacedIff(w, k, past.coherent);
  }

  /** All names on the way to where the walk starts fit into entries, and the strays that the walk makes are accounted for. */
  ghost predicate Fits(w: Way, past: Past) {
    && w.Ok()
    && (forall i {:trigger TooLong(w.names[i])} :: 0 <= i < w.first ==> !TooLong(w.names[i]))
    && (forall j {:trigger Detached(w.names, j)} :: w.first <= j < |w.names| && Detached(w.names, j) ==>
          Stray(w.names[j], w.Inode(j + 1)) in past.strays)
  }

  lemma MisplacedIff(w: Way, k: nat, coherent: bool)
    requires w.Ok() && w.first <= k < |w.names| && (coherent ==> StartsRight(w)) && w.Inode(k + 1) != 0
    ensures coherent ==> (SafeTo(w.t, w.names, k + 1) <==>
              SafeTo(w.t, w.names, k) && (Detached(w.names, k) ==> w.Inode(k + 1) == Find(w.t, ROOT_INODE_N, w.names[k])))
  {
    if coherent { w.PartOfWalk(k + 1); }
    assert SafeTo(w.t, w.names, k + 1) <==> SafeTo(w.t, w.names, k) && (k > 0 ==> !Misplaced(w.t, w.names, k));
  }

  /** Goes one component further, unless the directory does not have it. */
  method Step(cache: Dcache, d: Disk, dctx: DirContext, entry: Node?, inodeIdx: nat, name: Name,
              ghost w: Way, ghost blocks: map<nat, Blocks>, ghost k: nat, ghost past: Past)
    returns (e: Node?, idx: nat)
    requires cache.Valid() && w.Ok() && Stores(d, w.t, blocks) && Fits(w, past) && w.Walkable()
    requires w.first <= k < |w.names| && Reached(cache, entry, w, k, past)
    requires inodeIdx == w.Inode(k) != 0 && name == w.names[k] && NoZero(name)
    requires dctx.buf.Length == d.fs.volume.blockSize
    modifies cache, cache.nodes`childs, cache.nodes`siblings, dctx, dctx.buf
    ensures cache.Valid() && idx == w.Inode(k + 1)
    ensures if idx == 0 then w.End() == 0 && Settled(cache, w, past) else Reached(cache, e, w, k + 1, past)
    ensures fresh(cache.nodes - old(cache.nodes))
  {
    assert w.GoesOn(k) && StoresAt(d, w.t, blocks, inodeIdx) && DirectoryOk(w.t, inodeIdx);
    var inode := d.inodes[inodeIdx];
    e := entry;
    idx := FindEntry(d.fs, inode, name, dctx, w.t[inodeIdx], blocks[inodeIdx]);
    if idx == 0 {
      SafeWhenFailed(w, k, past.coherent);
    } else if inode.isDirectory {
      e := Remember(cache, entry, idx, name, w, k, past);
    }
  }

  /** Goes on with the next component; the walk ends where there is none, or it is not found, or no slash follows. */
  method Advance(cache: Dcache, d: Disk, dctx: DirContext, path: seq<byte>, from: nat, entry: Node?, inodeIdx: nat,
                 ghost w: Way, ghost blocks: map<nat, Blocks>, ghost k: nat, ghost past: Past)
    returns (more: bool, at: nat, e: Node?, idx: nat)
    requires cache.Valid() && w.Ok() && Stores(d, w.t, blocks) && Fits(w, past) && w.Walkable()
    requires PathOk(path) && w.names == Components(path, 0) && w.first <= k <= |w.names| && Parsed(path, k, from)
    requires Reached(cache, entry, w, k, past) && inodeIdx == w.Inode(k) != 0
    requires dctx.buf.Length == d.fs.volume.blockSize
    modifies cache, cache.nodes`childs, cache.nodes`siblings, dctx, dctx.buf
    ensures cache.Valid() && fresh(cache.nodes - old(cache.nodes))
    ensures more ==> k < |w.names| && Parsed(path, k + 1, at) && Reached(cache, e, w, k + 1, past) && idx == w.Inode(k + 1) != 0
    ensures !more ==> idx == w.End() && Settled(cache, w, past)
  {
    var len;
    at, len := NextComponent(path, from, w.names, k);
    assert Reached(cache, entry, w, k, past);
    if len == 0 {
      return false, at, entry, inodeIdx;
    }
    e, idx := Step(cache, d, dctx, entry, inodeIdx, path[at..at + len], w, blocks, k, past);
    if idx == 0 {
      return false, at, e, idx;
    }
    var slash := Strchr(path, at);
    return slash.Some?, slash.GetOr(at), e, idx;
  }

  /** Walks on from where the cache ended. */
  method WalkOn(cache: Dcache, d: Disk, dctx: DirContext, path: seq<byte>, from: nat, entry: Node?,
                ghost w: Way, ghost blocks: map<nat, Blocks>, ghost past: Past)
    returns (inodeIdx: nat)
    requires cache.Valid() && w.Ok() && Stores(d, w.t, blocks) && Fits(w, past) && w.Walkable()
    requires PathOk(path) && w.names == Components(path, 0) && Parsed(path, w.first, from)
    requires Reached(cache, entry, w, w.first, past) && cache.GetInode(entry) == w.start != 0
    requires dctx.buf.Length == d.fs.volume.blockSize
    modifies cache, cache.nodes`childs, cache.nodes`siblings, dctx, dctx.buf
    ensures cache.Valid() && inodeIdx == w.End() && Settled(cache, w, past)
    ensures fresh(cache.nodes - old(cache.nodes))
  {
    inodeIdx := cache.GetInode(entry);
    var at, dcEntry, more := from, entry, true;
    ghost var k := w.first;
    while more
      invariant cache.Valid() && fresh(cache.nodes - old(cache.nodes)) && w.first <= k
      invariant more ==> k <= |w.names| && Parsed(path, k, at) && Reached(cache, dcEntry, w, k, past) && inodeIdx == w.Inode(k) != 0
      invariant !more ==> inodeIdx == w.End() && Settled(cache, w, past)
      decreases more, |w.names| - k
    {
      more, at, dcEntry, inodeIdx := Advance(cache, d, dctx, path, at, dcEntry, inodeIdx, w, blocks, k, past);
      k := k + 1;
    }
  }

  // ----- A whole lookup

  lemma {:induction false} FirstNamedIn(ring: seq<Node>, name: Name, from: nat) returns (i: nat)
    requires from <= |ring| && FirstNamed(ring, name, from).Some?
    ensures i < |ring| && FirstNamed(ring, name, from) == Some(ring[i]) && ring[i].Name() == name
    decreases |ring| - from
  {
    i := from;
    if ring[from].Name() != name { i := FirstNamedIn(ring, name, from + 1); }
  }

  /** The descent arrives at the entry whose path is the names followed. */
  lemma {:induction false} DescendPath(rings: Rings, root: Node, names: seq<Name>, k: nat)
    requires IsTree(rings, root) && k <= |names| && Descend(rings, root, names, k).Some?
    ensures var n := Descend(rings, root, names, k).value;
            n in rings && |n.path| == k && forall i :: 0 <= i < k ==> n.path[i] == names[i]
  {
    if k > 0 {
      DescendPath(rings, root, names, k - 1);
      var p := Descend(rings, root, names, k - 1).value;
      var i := FirstNamedIn(rings[p], names[k - 1], 0);
      assert rings[p][i].ChildOf(p);
    }
  }

  /** Wherever the cache leads, the walk from there goes on in directories. */
  ghost predicate Follows(cache: Dcache, t: Tree, names: seq<Name>)
    requires TreeOk(t)
    reads cache, cache.nodes
  {
    forall k: nat, n {:trigger Descend(cache.rings, cache.root, names, k), n in cache.nodes} ::
      k <= |names| && n in cache.nodes && Descend(cache.rings, cache.root, names, k) == Some(n) ==> Way(t, names, k, n.inode).Walkable()
  }

  /** A coherent cache leads only to where the walk from the root comes by. */
  lemma CoherentFollows(cache: Dcache, t: Tree, names: seq<Name>)
    requires cache.Valid() && TreeOk(t) && Coherent(cache, t) && Walkable(t, names)
    ensures Follows(cache, t, names)
  {
    forall k: nat, n | k <= |names| && n in cache.nodes && Descend(cache.rings, cache.root, names, k) == Some(n)
      ensures Way(t, names, k, n.inode).Walkable()
    {
      var w := Way(t, names, k, n.inode);
      DescendPath(cache.rings, cache.root, names, k);
      WalkAlike(t, n.path, names, k);
      assert Right(n, t);
      WalkableFrom(w);
    }
  }

  lemma WalkableFrom(w: Way)
    requires w.Ok() && StartsRight(w) && Walkable(w.t, w.names)
    ensures w.Walkable()
  {
    var v := Way(w.t, w.names, 0, ROOT_INODE_N);
    forall k: nat | w.first <= k < |w.names| ensures w.GoesOn(k) {
      w.PartOfWalk(k);
      v.PartOfWalk(k);
      assert v.GoesOn(k);
    }
  }

  /** The components of a walk that are entered under the root because the one before does not fit. */
  ghost function StraysOf(w: Way): iset<Stray>
    requires w.Ok()
  {
    iset x: Stray | IsStray(w, x)
  }

  ghost predicate IsStray(w: Way, x: Stray)
    requires w.Ok()
  {
    exists j :: w.first <= j < |w.names| && Detached(w.names, j) && x == Stray(w.names[j], w.Inode(j + 1))
  }

  /** The part of a lookup that the cache does: where it ends, and the walk that is left. */
  method CachedWay(cache: Dcache, path: seq<byte>, ghost t: Tree, ghost strays: iset<Stray>)
    returns (entry: Node?, at: nat, ghost w: Way, ghost past: Past)
    requires TreeOk(t) && cache.Valid() && cache.root.inode == ROOT_INODE_N && Sound(cache, t, strays) && PathOk(path)
    modifies cache`rings, cache.nodes`childs
    ensures cache.Valid() && w.Ok() && w.t == t && w.names == Components(path, 0) && Parsed(path, w.first, at) && Fits(w, past)
    ensures past == Past(old(Coherent(cache, t)), strays + StraysOf(w))
    ensures Reached(cache, entry, w, w.first, past) && cache.GetInode(entry) == w.start != 0
    ensures Descend(old(cache.rings), cache.root, w.names, w.first) == Some(cache.Parent(entry))
    ensures Ends(old(cache.rings), cache.root, path, w.names, w.first, at)
  {
    ghost var names, k := Components(path, 0), 0;
    ghost var coherent := Coherent(cache, t);
    entry, at, k := GetCachedInodeNum(cache, path, names);
    ghost var from := cache.Parent(entry);
    w := Way(t, names, k, from.inode);
    past := Past(coherent, strays + StraysOf(w));
    assert old(SoundAt(from, cache.root, cache.nodes, t, strays)) && (coherent ==> old(Right(from, t)));
    WalkAlike(t, from.path, names, k);
    forall n | n in cache.nodes
      ensures SoundAt(n, cache.root, cache.nodes, t, past.strays) && (Right(n, t) <==> old(Right(n, t)))
    {
      assert old(SoundAt(n, cache.root, cache.nodes, t, strays));
    }
    assert Coherent(cache, t) <==> coherent;
    forall j {:trigger Detached(names, j)} | k <= j < |names| && Detached(names, j) ensures Stray(names[j], w.Inode(j + 1)) in past.strays {
      assert IsStray(w, Stray(names[j], w.Inode(j + 1)));
    }
  }

  /** The walk starts at the entry to which the cache leads; without two slashes in a row it leads no further. */
  ghost predicate CameFrom(r: Rings, root: Node, path: seq<byte>, w: Way, from: Node)
    requires w.Ok()
    reads from
  {
    && Descend(r, root, w.names, w.first) == Some(from) && w.start == from.inode
    && (w.first < |w.names| && (forall i :: 0 <= i < |path| ==> !DoubleSlash(path, i)) ==>
          Descend(r, root, w.names, w.first + 1) == None)
  }

  /**
   * Looks a path up: through the cache as far as that goes, then in the directories, which fills the cache.
   * Whatever the cache holds, the result is that of the walk `w` from the entry `from` to which it leads.
   */
  method LookupWith(cache: Dcache, d: Disk, dctx: DirContext, path: seq<byte>, ghost t: Tree, ghost blocks: map<nat, Blocks>, ghost strays: iset<Stray>)
    returns (inodeIdx: nat, ghost w: Way, ghost from: Node)
    requires Stores(d, t, blocks) && cache.Valid() && cache.root.inode == ROOT_INODE_N && Sound(cache, t, strays)
    requires PathOk(path) && Follows(cache, t, Components(path, 0)) && dctx.buf.Length == d.fs.volume.blockSize
    modifies cache, cache.nodes`childs, cache.nodes`siblings, dctx, dctx.buf
    ensures cache.Valid() && fresh(cache.nodes - old(cache.nodes))
    ensures w.t == t && w.names == Components(path, 0) && w.Ok() && inodeIdx == w.End()
    ensures from in old(cache.nodes) && CameFrom(old(cache.rings), cache.root, path, w, from)
    ensures Settled(cache, w, Past(old(Coherent(cache, t)), strays + StraysOf(w)))
    ensures old(Coherent(cache, t)) ==> inodeIdx == Resolve(t, w.names)
  {
    var dcEntry, at;
    ghost var past;
    dcEntry, at, w, past := CachedWay(cache, path, t, strays);
    from := cache.Parent(dcEntry);
    inodeIdx := WalkOn(cache, d, dctx, path, at, dcEntry, w, blocks, past);
    if past.coherent { w.PartOfWalk(|w.names|); }
  }

  /** A lookup, with a buffer of its own. */
  method InodeGetIdxByPath(cache: Dcache, d: Disk, path: seq<byte>, ghost t: Tree, ghost blocks: map<nat, Blocks>, ghost strays: iset<Stray>)
    returns (inodeIdx: nat, ghost w: Way, ghost from: Node)
    requires Stores(d, t, blocks) && cache.Valid() && cache.root.inode == ROOT_INODE_N && Sound(cache, t, strays)
    requires PathOk(path) && Follows(cache, t, Components(path, 0))
    modifies cache, cache.nodes`childs, cache.nodes`siblings
    ensures cache.Valid() && fresh(cache.nodes - old(cache.nodes))
    ensures w.t == t && w.names == Components(path, 0) && w.Ok() && inodeIdx == w.End()
    ensures forall k: nat :: w.first <= k < |w.names| ==> w.GoesThere(k)
    ensures from in old(cache.nodes) && CameFrom(old(cache.rings), cache.root, path, w, from)
    ensures Settled(cache, w, Past(old(Coherent(cache, t)), strays + StraysOf(w)))
    ensures old(Coherent(cache, t)) ==> inodeIdx == Resolve(t, w.names)
  {
    var dctx := new DirContext(d.fs.volume.blockSize);
    forall n | n in cache.nodes
      ensures SoundAt(n, cache.root, cache.nodes, t, strays) && (Right(n, t) <==> old(Right(n, t)))
    {
      assert old(SoundAt(n, cache.root, cache.nodes, t, strays));
    }
    assert Coherent(cache, t) <==> old(Coherent(cache, t));
    inodeIdx, w, from := LookupWith(cache, d, dctx, path, t, blocks, strays);
    w.StepsGoThere();
  }

  // ----- What later lookups give

  /** Below the root's children, the entries to which the cache leads are those to which the directories do. */
  lemma {:induction false} DescendLaw(cache: Dcache, t: Tree, strays: iset<Stray>, names: seq<Name>, k: nat)
    requires TreeOk(t) && cache.Valid() && Sound(cache, t, strays) && 0 < k <= |names|
    requires Descend(cache.rings, cache.root, names, k).Some?
    ensures Descend(cache.rings, cache.root, names, 1).Some?
    ensures var c, n := Descend(cache.rings, cache.root, names, 1).value, Descend(cache.rings, cache.root, names, k).value;
            n.inode == Way(t, names, 1, c.inode).Inode(k)
  {
    if k > 1 {
      DescendLaw(cache, t, strays, names, k - 1);
      DescendPath(cache.rings, cache.root, names, k - 1);
      var p := Descend(cache.rings, cache.root, names, k - 1).value;
      var i := FirstNamedIn(cache.rings[p], names[k - 1], 0);
      var n := cache.rings[p][i];
      assert n.ChildOf(p) && SoundAt(n, cache.root, cache.nodes, t, strays);
    }
  }

  /** A child of the root holds the inode of its name, or that of a stray. */
  lemma FirstChild(cache: Dcache, t: Tree, strays: iset<Stray>, names: seq<Name>)
    requires TreeOk(t) && cache.Valid() && cache.root.inode == ROOT_INODE_N && Sound(cache, t, strays)
    requires names != [] && Descend(cache.rings, cache.root, names, 1).Some?
    ensures var c := Descend(cache.rings, cache.root, names, 1).value;
            c in cache.nodes && Accounted(ROOT_INODE_N, true, names[0], c.inode, t, strays)
  {
    var root := cache.root;
    assert Descend(cache.rings, root, names, 0) == Some(root);
    var i := FirstNamedIn(cache.rings[root], names[0], 0);
    var n := cache.rings[root][i];
    assert n.ChildOf(root) && SoundAt(n, root, cache.nodes, t, strays);
  }

  /** Two walks on the same way end alike. */
  lemma {:induction false} SameWay(v: Way, w: Way, k: nat)
    requires v.Ok() && w.Ok() && v.t == w.t && v.names == w.names && v.first <= w.first <= k <= |w.names|
    requires w.start == v.Inode(w.first)
    ensures w.Inode(k) == v.Inode(k)
  {
    if k > w.first { SameWay(v, w, k - 1); }
  }

  /**
   * A lookup without two slashes in a row, through the cache that any history leaves.  The first child of the
   * root with the first name decides: the result is that of the walk from its inode, or, if there is
   * none, of the walk from the root.  That inode is the right one unless the name is that of a stray.
   */
  method LookupThroughRoot(cache: Dcache, d: Disk, path: seq<byte>, ghost t: Tree, ghost blocks: map<nat, Blocks>, ghost strays: iset<Stray>)
    returns (inode: nat, ghost child: Option<Node>)
    requires Stores(d, t, blocks) && cache.Valid() && cache.root.inode == ROOT_INODE_N && Sound(cache, t, strays)
    requires PathOk(path) && Follows(cache, t, Components(path, 0)) && Components(path, 0) != []
    requires forall i :: 0 <= i < |path| ==> !DoubleSlash(path, i)
    modifies cache, cache.nodes`childs, cache.nodes`siblings
    ensures child == old(Descend(cache.rings, cache.root, Components(path, 0), 1))
    ensures var names := Components(path, 0);
            if child.Some? then inode == Way(t, names, 1, child.value.inode).End() else inode == Resolve(t, names)
    ensures child.Some? ==>
              var name := Components(path, 0)[0];
              child.value.inode == Find(t, ROOT_INODE_N, name) || Stray(name, child.value.inode) in strays
    ensures (forall i: nat :: Stray(Components(path, 0)[0], i) !in strays) ==> inode == Resolve(t, Components(path, 0))
  {
    ghost var w, from;
    ghost var names, r := Components(path, 0), cache.rings;
    child := Descend(r, cache.root, names, 1);
    ghost var c := Way(t, names, 1, if child.Some? then child.value.inode else 0);
    forall k: nat {:trigger Descend(r, cache.root, names, k)} | 0 < k <= |names| && Descend(r, cache.root, names, k).Some?
      ensures child.Some? && Descend(r, cache.root, names, k).value.inode == c.Inode(k)
    {
      DescendLaw(cache, t, strays, names, k);
    }
    if child.Some? { FirstChild(cache, t, strays, names); }
    inode, w, from := InodeGetIdxByPath(cache, d, path, t, blocks, strays);
    if w.first > 0 {
      assert Descend(r, cache.root, names, w.first) == Some(from) && old(from.inode) == c.Inode(w.first);
    }
    assert child.Some? ==> child.value in old(cache.nodes) && child.value.inode == c.start;
    assert w.first == 0 ==> child.None?;
    WaysAgree(t, names, w, c, child.Some?);
  }

  /** The walk from the cache is that from the root, or that from its child; the child is right if its inode is. */
  lemma WaysAgree(t: Tree, names: seq<Name>, w: Way, c: Way, child: bool)
    requires TreeOk(t) && names != [] && w.Ok() && w.t == t && w.names == names && c == Way(t, names, 1, c.start)
    requires if w.first == 0 then w.start == ROOT_INODE_N && !child else child && w.start == c.Inode(w.first)
    ensures w.End() == if child then c.End() else Resolve(t, names)
    ensures child && c.start == Find(t, ROOT_INODE_N, names[0]) ==> c.End() == Resolve(t, names)
  {
    var v := Way(t, names, 0, ROOT_INODE_N);
    v.PartOfWalk(|names|);
    if w.first == 0 { SameWay(v, w, |names|); } else { SameWay(c, w, |names|); }
    if child && c.start == Find(t, ROOT_INODE_N, names[0]) {
      assert v.Inode(0) == ROOT_INODE_N && v.Inode(1) == c.start;
      SameWay(v, c, |names|);
    }
  }

  ghost predicate Safe(t: Tree, names: seq<Name>)
    requires TreeOk(t)
  {
    Walkable(t, names) && SafeTo(t, names, |names|)
  }

  lemma ShortNamesAreSafe(t: Tree, names: seq<Name>)
    requires TreeOk(t) && Walkable(t, names) && forall i :: 0 <= i < |names| - 1 ==> !TooLong(names[i])
    ensures Safe(t, names)
  {
  }

  /** All lookups from an empty cache on give what the walk without a cache gives. */
  method LookupAll(d: Disk, paths: seq<seq<byte>>, ghost t: Tree, ghost blocks: map<nat, Blocks>) returns (inodes: seq<nat>)
    requires Stores(d, t, blocks)
    requires forall i :: 0 <= i < |paths| ==> PathOk(paths[i]) && Safe(t, Components(paths[i], 0))
    ensures |inodes| == |paths| && forall i :: 0 <= i < |paths| ==> inodes[i] == Resolve(t, Components(paths[i], 0))
    ensures forall i :: 0 <= i < |paths| ==> LeadsTo(t, Components(paths[i], 0), inodes[i])
  {
    inodes := [];
    var cache := new Dcache();
    var ok := cache.InitRoot(ROOT_INODE_N);
    assert Right(cache.root, t) && SoundAt(cache.root, cache.root, cache.nodes, t, Anything());
    for i := 0 to |paths|
      invariant cache.Valid() && cache.root.inode == ROOT_INODE_N && Coherent(cache, t) && Sound(cache, t, Anything())
      invariant fresh(cache) && fresh(cache.nodes)
      invariant |inodes| == i && forall j :: 0 <= j < i ==> inodes[j] == Resolve(t, Components(paths[j], 0))
    {
      var inode := LookupCoherent(cache, d, paths[i], t, blocks);
      inodes := inodes + [inode];
    }
    forall i | 0 <= i < |paths| ensures LeadsTo(t, Components(paths[i], 0), inodes[i]) {
      var way := ResolveLeads(t, Components(paths[i], 0));
    }
  }

  /** Going from inode 2 to what each directory has under the next name ends at this inode. */
  ghost predicate LeadsTo(t: Tree, names: seq<Name>, inode: nat)
    requires TreeOk(t)
  {
    exists way: seq<nat> :: Leads(t, names, way) && way[|names|] == inode
  }

  ghost function Anything(): iset<Stray> {
    iset x: Stray {:trigger x.name} | true
  }

  /** A lookup through a coherent cache. */
  method LookupCoherent(cache: Dcache, d: Disk, path: seq<byte>, ghost t: Tree, ghost blocks: map<nat, Blocks>) returns (inode: nat)
    requires Stores(d, t, blocks) && cache.Valid() && cache.root.inode == ROOT_INODE_N && Coherent(cache, t) && Sound(cache, t, Anything())
    requires PathOk(path) && Walkable(t, Components(path, 0))
    modifies cache, cache.nodes`childs, cache.nodes`siblings
    ensures cache.Valid() && cache.root.inode == ROOT_INODE_N && fresh(cache.nodes - old(cache.nodes)) && Sound(cache, t, Anything())
    ensures inode == Resolve(t, Components(path, 0))
    ensures var names := Components(path, 0);
            && (Coherent(cache, t) <==> SafeTo(t, names, |names|))
            && (names != [] && Detached(names, |names| - 1) && inode != 0 ==> Heads(cache, names[|names| - 1], inode))
  {
    ghost var w, from;
    ghost var names := Components(path, 0);
    CoherentFollows(cache, t, names);
    inode, w, from := InodeGetIdxByPath(cache, d, path, t, blocks, Anything());
    assert Anything() + StraysOf(w) == Anything();
  }

  // ----- Where the cache goes wrong

  /** The first child of the root is what the cache answers for its name. */
  lemma HeadAnswers(cache: Dcache, name: Name, inode: nat)
    requires Heads(cache, name, inode)
    ensures Descend(cache.rings, cache.root, [name], 1) == Some(cache.rings[cache.root][0])
  {
    assert Descend(cache.rings, cache.root, [name], 0) == Some(cache.root);
  }

  /** In the root, a single name can always be looked up. */
  lemma RootFollows(cache: Dcache, t: Tree, name: Name)
    requires cache.root.inode == ROOT_INODE_N && TreeOk(t) && ROOT_INODE_N in t
    ensures Follows(cache, t, [name]) && Walkable(t, [name])
  {
    var w := Way(t, [name], 0, ROOT_INODE_N);
    assert w.GoesOn(0);
  }

  /**
   * Looks a path up whose components so far are safe, and then its last name in the root.  The second
   * answer is that of the walk without a cache if and only if the last component was not misplaced.
   */
  method LookupBelowThenInRoot(cache: Dcache, d: Disk, path: seq<byte>, again: seq<byte>, ghost t: Tree, ghost blocks: map<nat, Blocks>)
    returns (below: nat, inRoot: nat)
    requires Stores(d, t, blocks) && cache.Valid() && cache.root.inode == ROOT_INODE_N && Coherent(cache, t) && Sound(cache, t, Anything())
    requires PathOk(path) && PathOk(again) && Walkable(t, Components(path, 0))
    requires var names := Components(path, 0);
             |names| > 1 && SafeTo(t, names, |names| - 1) && !TooLong(names[|names| - 1]) && Components(again, 0) == [names[|names| - 1]]
    requires forall i :: 0 <= i < |again| ==> !DoubleSlash(again, i)
    modifies cache, cache.nodes`childs, cache.nodes`siblings
    ensures var names := Components(path, 0);
            && below == Resolve(t, names)
            && (inRoot == Resolve(t, [names[|names| - 1]]) <==> !Misplaced(t, names, |names| - 1))
  {
    ghost var names := Components(path, 0);
    ghost var n, last := |names| - 1, names[|names| - 1];
    below := LookupCoherent(cache, d, path, t, blocks);
    assert Way(t, names, 0, ROOT_INODE_N).GoesOn(0);
    if Misplaced(t, names, n) { HeadAnswers(cache, last, below); }
    inRoot := LookupInRoot(cache, d, again, last, below, t, blocks);
    assert Resolve(t, [last]) == Find(t, ROOT_INODE_N, last) by {
      assert Walk(t, [last], 0) == ROOT_INODE_N;
    }
    assert SafeTo(t, names, n + 1) <==> !Misplaced(t, names, n);
  }

  /** Looks a name up in the root: a first child of that name answers, and otherwise a coherent cache is right. */
  method LookupInRoot(cache: Dcache, d: Disk, path: seq<byte>, ghost name: Name, ghost inode: nat,
                      ghost t: Tree, ghost blocks: map<nat, Blocks>) returns (r: nat)
    requires Stores(d, t, blocks) && ROOT_INODE_N in t && cache.Valid() && cache.root.inode == ROOT_INODE_N && Sound(cache, t, Anything())
    requires PathOk(path) && Components(path, 0) == [name] && forall i :: 0 <= i < |path| ==> !DoubleSlash(path, i)
    modifies cache, cache.nodes`childs, cache.nodes`siblings
    ensures old(Heads(cache, name, inode)) ==> r == inode
    ensures old(Coherent(cache, t)) ==> r == Resolve(t, [name])
  {
    ghost var w, from;
    RootFollows(cache, t, name);
    if Heads(cache, name, inode) { HeadAnswers(cache, name, inode); }
    r, w, from := InodeGetIdxByPath(cache, d, path, t, blocks, Anything());
    assert w.first == 1 ==> w.End() == w.start;
  }

  /** The root has a directory with a name of 40 bytes and a file s; the directory has another file s. */
  ghost function LongNameTree(long: Name, s: Name): Tree {
    map[2 := Directory(map[0 := Dentry(11, 48, long), 48 := Dentry(12, 4048, s)], 4096),
        11 := Directory(map[0 := Dentry(13, 4096, s)], 4096)]
  }

  /** In this tree, the s below the long name is misplaced: a lookup of it makes s in the root that file, too. */
  lemma LongNameMisleads(long: Name, s: Name)
    requires |long| == 40 && |s| == 1
    ensures var t := LongNameTree(long, s);
            TreeOk(t) && Walkable(t, [long, s]) && Resolve(t, [long, s]) == 13 && Resolve(t, [s]) == 12 && Misplaced(t, [long, s], 1)
  {
    var t, names := LongNameTree(long, s), [long, s];
    assert Linked(t[2].entries, 4096) && Linked(t[11].entries, 4096);
    assert Find(t, 2, long) == 11 && Find(t, 11, s) == 13;
    assert HasNext(t[2].entries, 4096, 0);
    assert EntryNamed(t[2].entries, 4096, 0, s) == EntryNamed(t[2].entries, 4096, 48, s);
    assert Find(t, 2, s) == 12;
    assert Walk(t, names, 0) == 2 && Walk(t, names, 1) == 11 && Walk(t, names, 2) == 13;
    assert Walk(t, [s], 0) == 2 && [s][0] == s && Walk(t, [s], 1) == 12;
    assert Misplaced(t, names, 1);
  }


  /** The calls that walking /long/s and then looking /s up make to the cache: the second gets the inode of the first. */
  method LongNameServed(cache: Dcache, long: Name, directory: nat, s: Name, inode: nat) returns (served: nat)
    requires cache.Valid() && cache.root.inode != 0 && NoZero(long) && NoZero(s) && TooLong(long) && !TooLong(s)
    modifies cache, cache.nodes`childs, cache.nodes`siblings
    ensures cache.Valid() && served == inode
  {
    var entry := cache.Insert(null, long, directory);
    entry := cache.Insert(entry, s, inode);
    ghost var ring := cache.rings[cache.root];
    assert ring[0] == entry && ring[0].Name() == s;
    ghost var k;
    var found;
    found, k := cache.Lookup(null, s);
    assert k == 0;
    served := cache.GetInode(found);
  }
}
