/** Paths: the walk from the root, component by component, that starts where the cache leads. */
module Ext4Path {
  import opened Bytes
  import opened Ext4Dir
  import opened Ext4Dcache

  const ROOT_INODE_N: nat := 2
  const SLASH: byte := 47
  const NAME_MAX: nat := 255

  // ----- What a path means

  datatype Directory = Directory(entries: Layout, size: nat)

  /** The directories of a file system by inode number. */
  type Tree = map<nat, Directory>

  ghost predicate TreeOk(t: Tree) {
    0 !in t && forall n {:trigger DirectoryOk(t, n)} :: n in t ==> DirectoryOk(t, n)
  }

  ghost predicate DirectoryOk(t: Tree, n: nat)
    requires n in t
  {
    Linked(t[n].entries, t[n].size) && t[n].size < TWO_32
  }

  /** The inode of the first entry in use with this name, from an offset on; 0 if there is none. */
  ghost function EntryNamed(m: Layout, size: nat, offset: nat, name: Name): nat
    requires Linked(m, size) && (offset == size || offset in m)
    decreases size - offset
  {
    if offset == size then 0
    else
      assert HasNext(m, size, offset);
      if m[offset].inode != 0 && m[offset].name == name then m[offset].inode
      else EntryNamed(m, size, offset + m[offset].recLen, name)
  }

  /** The entry at `at`, on the way from `from` on, is in use and has this name. */
  ghost predicate NamedAt(m: Layout, size: nat, from: nat, at: nat, name: Name)
    requires Linked(m, size) && (from == size || from in m)
  {
    Reaches(m, size, from, at) && at in m && m[at].inode != 0 && m[at].name == name
  }

  /** `inode` is that of the first entry in use with this name; 0 if and only if there is none. */
  ghost predicate FirstInode(m: Layout, size: nat, from: nat, name: Name, inode: nat)
    requires Linked(m, size) && (from == size || from in m)
  {
    && (inode == 0 <==> forall at: nat :: !NamedAt(m, size, from, at, name))
    && (inode != 0 ==> exists at: nat :: NamedAt(m, size, from, at, name) && m[at].inode == inode &&
                         forall b: nat :: b < at ==> !NamedAt(m, size, from, b, name))
  }

  lemma {:induction false} EntryNamedIsFirst(m: Layout, size: nat, from: nat, name: Name)
    requires Linked(m, size) && (from == size || from in m)
    ensures FirstInode(m, size, from, name, EntryNamed(m, size, from, name))
    decreases size - from
  {
    if from != size {
      assert HasNext(m, size, from);
      var next := from + m[from].recLen;
      EntryNamedIsFirst(m, size, next, name);
      forall at: nat | Reaches(m, size, from, at) ensures from <= at {
        ReachesAhead(m, size, from, at);
      }
      forall at: nat ensures NamedAt(m, size, from, at, name) <==>
                               (at == from && m[from].inode != 0 && m[from].name == name) || NamedAt(m, size, next, at, name) {}
      assert NamedAt(m, size, from, from, name) <==> m[from].inode != 0 && m[from].name == name;
    }
  }

  /** `inode` is what directory `n` has under a name; 0 if it has nothing there, or is no directory. */
  ghost predicate HasUnder(t: Tree, n: nat, name: Name, inode: nat)
    requires TreeOk(t)
  {
    if n in t then (assert DirectoryOk(t, n); FirstInode(t[n].entries, t[n].size, 0, name, inode)) else inode == 0
  }

  lemma FindIsUnder(t: Tree, n: nat, name: Name)
    requires TreeOk(t)
    ensures HasUnder(t, n, name, Find(t, n, name))
  {
    if n in t {
      assert DirectoryOk(t, n);
      EntryNamedIsFirst(t[n].entries, t[n].size, 0, name);
    }
  }

  ghost function Find(t: Tree, n: nat, name: Name): nat
    requires TreeOk(t)
  {
    if n in t then
      assert DirectoryOk(t, n);
      EntryNamed(t[n].entries, t[n].size, 0, name)
    else 0
  }

  /** The walk without a cache along the first `k` names; 0 if it fails. */
  ghost function Walk(t: Tree, names: seq<Name>, k: nat): nat
    requires TreeOk(t) && k <= |names|
  {
    if k == 0 then ROOT_INODE_N else Find(t, Walk(t, names, k - 1), names[k - 1])
  }

  ghost function Resolve(t: Tree, names: seq<Name>): nat
    requires TreeOk(t)
  {
    Walk(t, names, |names|)
  }

  /** Step by step, the walk from inode 2 goes to what each directory has under the next name. */
  ghost predicate Leads(t: Tree, names: seq<Name>, inodes: seq<nat>)
    requires TreeOk(t)
  {
    && |inodes| == |names| + 1 && inodes[0] == 2
    && forall k: nat :: k < |names| ==> HasUnder(t, inodes[k], names[k], inodes[k + 1])
  }

  /** That is what a path resolves to. */
  lemma ResolveLeads(t: Tree, names: seq<Name>) returns (inodes: seq<nat>)
    requires TreeOk(t)
    ensures Leads(t, names, inodes) && inodes[|names|] == Resolve(t, names)
  {
    inodes := seq(|names| + 1, k requires 0 <= k <= |names| => Walk(t, names, k));
    forall k: nat | k < |names| ensures HasUnder(t, inodes[k], names[k], inodes[k + 1]) {
      FindIsUnder(t, Walk(t, names, k), names[k]);
    }
  }

  lemma {:induction false} WalkAlike(t: Tree, a: seq<Name>, b: seq<Name>, k: nat)
    requires TreeOk(t) && k <= |a| && k <= |b| && forall i :: 0 <= i < k ==> a[i] == b[i]
    ensures Walk(t, a, k) == Walk(t, b, k)
  {
    if k > 0 { WalkAlike(t, a, b, k - 1); }
  }

  lemma ResolveChild(t: Tree, names: seq<Name>, name: Name)
    requires TreeOk(t)
    ensures Resolve(t, names + [name]) == Find(t, Resolve(t, names), name)
  {
    WalkAlike(t, names + [name], names, |names|);
  }

  // ----- Walks that start anywhere

  /** The walk along the names from `first` on that starts at an inode. */
  datatype Way = Way(t: Tree, names: seq<Name>, first: nat, start: nat) {
    ghost predicate Ok() {
      TreeOk(t) && first <= |names|
    }

    /** Where the walk is after `k` names. */
    ghost function Inode(k: nat): nat
      requires Ok() && first <= k <= |names|
    {
      if k == first then start else Find(t, Inode(k - 1), names[k - 1])
    }

    ghost function End(): nat
      requires Ok()
    {
      Inode(|names|)
    }

    /** Wherever the walk goes on, it is in a directory. */
    ghost predicate Walkable()
      requires Ok()
    {
      forall k: nat :: first <= k < |names| ==> GoesOn(k)
    }

    ghost predicate GoesOn(k: nat)
      requires Ok() && first <= k < |names|
    {
      Inode(k) == 0 || Inode(k) in t
    }

    /** Step `k` of the walk goes to what the directory has under the name. */
    ghost predicate GoesThere(k: nat)
      requires Ok() && first <= k < |names|
    {
      HasUnder(t, Inode(k), names[k], Inode(k + 1))
    }

    lemma StepsGoThere()
      requires Ok()
      ensures forall k: nat :: first <= k < |names| ==> GoesThere(k)
    {
      forall k: nat | first <= k < |names| ensures GoesThere(k) {
        FindIsUnder(t, Inode(k), names[k]);
      }
    }

    lemma {:induction false} Failed(k: nat, j: nat)
      requires Ok() && first <= k <= j <= |names| && Inode(k) == 0
      ensures Inode(j) == 0
      decreases j
    {
      if k < j { Failed(k, j - 1); }
    }

    /** A walk that starts where the walk from the root comes by is part of it. */
    lemma {:induction false} PartOfWalk(k: nat)
      requires Ok() && first <= k <= |names| && start == Walk(t, names, first)
      ensures Inode(k) == Walk(t, names, k)
    {
      if k > first { PartOfWalk(k - 1); }
    }
  }

  /** Wherever the walk from the root goes on, it is in a directory. */
  ghost predicate Walkable(t: Tree, names: seq<Name>)
    requires TreeOk(t)
  {
    Way(t, names, 0, ROOT_INODE_N).Walkable()
  }

  // ----- The components of a path

  function SkipSlashes(path: seq<byte>, at: nat): (r: nat)
    requires at <= |path|
    ensures at <= r <= |path| && (r < |path| ==> path[r] != SLASH)
    decreases |path| - at
  {
    if at < |path| && path[at] == SLASH then SkipSlashes(path, at + 1) else at
  }

  function TokenEnd(path: seq<byte>, at: nat): (r: nat)
    requires at <= |path|
    ensures at <= r <= |path| && (r < |path| ==> path[r] == SLASH)
    decreases |path| - at
  {
    if at == |path| || path[at] == SLASH then at else TokenEnd(path, at + 1)
  }

  ghost function Components(path: seq<byte>, at: nat): seq<Name>
    requires at <= |path|
    decreases |path| - at
  {
    var b := SkipSlashes(path, at);
    if b == |path| then [] else [path[b..TokenEnd(path, b)]] + Components(path, TokenEnd(path, b))
  }

  predicate IsName(s: seq<byte>) {
    s != [] && forall i :: 0 <= i < |s| ==> s[i] != 47
  }

  /** A path in which so many slashes come before each name, and after the last one. */
  function Joined(names: seq<Name>, slashes: seq<nat>): seq<byte>
    requires |slashes| == |names| + 1
  {
    seq(slashes[0], i => 47) + if names == [] then [] else names[0] + Joined(names[1..], slashes[1..])
  }

  lemma {:induction false} SkipsTo(path: seq<byte>, at: nat, b: nat)
    requires at <= b <= |path| && (forall i :: at <= i < b ==> path[i] == SLASH) && (b < |path| ==> path[b] != SLASH)
    ensures SkipSlashes(path, at) == b
    decreases b - at
  {
    if at < b { SkipsTo(path, at + 1, b); }
  }

  lemma {:induction false} EndsAt(path: seq<byte>, at: nat, e: nat)
    requires at <= e && Stops(path, e) && forall i :: at <= i < e ==> path[i] != SLASH
    ensures TokenEnd(path, at) == e
    decreases e - at
  {
    if at < e { EndsAt(path, at + 1, e); }
  }

  /** The components of a path are the names it was made of, whatever the slashes. */
  lemma {:induction false} JoinedComponents(before: seq<byte>, names: seq<Name>, slashes: seq<nat>)
    requires |slashes| == |names| + 1 && forall i :: 0 <= i < |names| ==> IsName(names[i])
    requires forall i :: 0 < i < |names| ==> slashes[i] > 0
    ensures Components(before + Joined(names, slashes), |before|) == names
    decreases |names|
  {
    var path, b := before + Joined(names, slashes), |before| + slashes[0];
    assert path[|before|..b] == seq(slashes[0], i => 47);
    forall i | |before| <= i < b ensures path[i] == 47 {
      assert path[i] == path[|before|..b][i - |before|];
    }
    if names != [] {
      var rest, e := Joined(names[1..], slashes[1..]), b + |names[0]|;
      assert path == before + seq(slashes[0], i => 47) + names[0] + rest;
      assert path[b..e] == names[0] && path[..e] + rest == path;
      SkipsTo(path, |before|, b);
      EndsAt(path, b, e);
      JoinedComponents(path[..e], names[1..], slashes[1..]);
    } else {
      SkipsTo(path, |before|, b);
    }
  }

  ghost predicate PathOk(path: seq<byte>) {
    NoZero(path) && |path| > 0 && path[0] == SLASH && forall i: nat :: i <= |path| ==> ShortToken(path, i)
  }

  ghost predicate ShortToken(path: seq<byte>, at: nat)
    requires at <= |path|
  {
    TokenEnd(path, at) - at <= NAME_MAX
  }

  method GetPathTokenLen(path: seq<byte>, at: nat) returns (len: nat)
    requires at <= |path| && ShortToken(path, at)
    ensures at + len == TokenEnd(path, at)
  {
    len := 0;
    while at + len < |path| && path[at + len] != SLASH
      invariant at + len <= |path| && TokenEnd(path, at + len) == TokenEnd(path, at)
    {
      len := (len + 1) % 256;
    }
  }

  /** No 8-bit length stops the loop in a longer component: it goes round for ever. */
  lemma TokenLenStopsIff(path: seq<byte>, at: nat)
    requires at <= |path|
    ensures ShortToken(path, at) <==> exists i :: at <= i < at + 256 && Stops(path, i)
  {
    if ShortToken(path, at) {
      assert Stops(path, TokenEnd(path, at));
    }
    forall i | at <= i < at + 256 && Stops(path, i) ensures TokenEnd(path, at) <= i {
      TokenEndFirst(path, at, i);
    }
  }

  predicate Stops(path: seq<byte>, i: nat) {
    i == |path| || (i < |path| && path[i] == SLASH)
  }

  lemma {:induction false} TokenEndFirst(path: seq<byte>, at: nat, i: nat)
    requires at <= i && Stops(path, i)
    ensures TokenEnd(path, at) <= i
    decreases i - at
  {
    if at < i && path[at] != SLASH { TokenEndFirst(path, at + 1, i); }
  }

  method SkipTrailingBackslash(path: seq<byte>, at: nat) returns (r: nat)
    requires at <= |path|
    ensures r == SkipSlashes(path, at)
  {
    r := at;
    while r < |path| && path[r] == SLASH
      invariant at <= r <= |path| && SkipSlashes(path, r) == SkipSlashes(path, at)
    {
      r := r + 1;
    }
  }

  /** The first slash from `at` on. */
  function Strchr(path: seq<byte>, at: nat): Option<nat>
    requires at <= |path|
  {
    if TokenEnd(path, at) < |path| then Some(TokenEnd(path, at)) else None
  }

  /** Where component `k`, counted from `at`, begins; the end of the path if there is none. */
  ghost function Start(path: seq<byte>, at: nat, k: nat): (r: nat)
    requires at <= |path|
    ensures r <= |path|
    decreases k
  {
    var b := SkipSlashes(path, at);
    if k == 0 || b == |path| then b else Start(path, TokenEnd(path, b), k - 1)
  }

  lemma {:induction false} StartNext(path: seq<byte>, at: nat, k: nat)
    requires at <= |path|
    ensures Start(path, at, k + 1) == SkipSlashes(path, TokenEnd(path, Start(path, at, k)))
    decreases k
  {
    var b := SkipSlashes(path, at);
    if k > 0 && b < |path| { StartNext(path, TokenEnd(path, b), k - 1); }
  }

  lemma {:induction false} StartOf(path: seq<byte>, at: nat, k: nat)
    requires at <= |path| && k <= |Components(path, at)|
    ensures Start(path, at, k) == |path| <==> k == |Components(path, at)|
    ensures k < |Components(path, at)| ==> Components(path, at)[k] == path[Start(path, at, k)..TokenEnd(path, Start(path, at, k))]
    decreases k
  {
    var b := SkipSlashes(path, at);
    if k > 0 { StartOf(path, TokenEnd(path, b), k - 1); }
  }

  /** The next component at or after `at` is component `k`. */
  ghost predicate Parsed(path: seq<byte>, k: nat, at: nat) {
    at <= |path| && SkipSlashes(path, at) == Start(path, 0, k)
  }

  predicate DoubleSlash(path: seq<byte>, at: nat) {
    at + 1 < |path| && path[at] == SLASH && path[at + 1] == SLASH
  }

  /** The component after at most one slash; none if there are two. */
  method NextToken(path: seq<byte>, at: nat, ghost names: seq<Name>, ghost k: nat) returns (b: nat, len: nat)
    requires PathOk(path) && names == Components(path, 0) && k <= |names| && Parsed(path, k, at)
    ensures at <= b && Parsed(path, k, b) && b + len <= |path| && NoZero(path[b..b + len])
    ensures len > 0 ==> k < |names| && names[k] == path[b..b + len] && Parsed(path, k + 1, b + len)
    ensures len == 0 && k < |names| ==> b > 0 && DoubleSlash(path, b - 1)
  {
    b := at;
    if b < |path| && path[b] == SLASH {
      b := b + 1;
    }
    len := GetPathTokenLen(path, b);
    assert len > 0 ==> SkipSlashes(path, b) == b;
    StartNext(path, 0, k);
    StartOf(path, 0, k);
  }

  /** The component after any number of slashes. */
  method NextComponent(path: seq<byte>, at: nat, ghost names: seq<Name>, ghost k: nat) returns (b: nat, len: nat)
    requires PathOk(path) && names == Components(path, 0) && k <= |names| && Parsed(path, k, at)
    ensures b + len <= |path| && NoZero(path[b..b + len]) && b + len == TokenEnd(path, b)
    ensures len == 0 ==> k == |names|
    ensures len > 0 ==> k < |names| && names[k] == path[b..b + len] && Parsed(path, k + 1, b + len)
    ensures len > 0 && b + len == |path| ==> k + 1 == |names|
  {
    b := SkipTrailingBackslash(path, at);
    len := GetPathTokenLen(path, b);
    StartNext(path, 0, k);
    StartOf(path, 0, k);
    if k < |names| {
      StartOf(path, 0, k + 1);
    }
  }
}
