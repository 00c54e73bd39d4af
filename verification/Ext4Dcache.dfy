/** The directory-entry cache: a tree on the heap whose sibling lists are rings. */
module Ext4Dcache {
  import opened Bytes

  type Name = seq<byte>

  const DCACHE_ENTRY_NAME_LEN: nat := 40

  predicate NoZero(s: seq<byte>) {
    forall i :: 0 <= i < |s| ==> s[i] != 0
  }

  /** The name field of an entry for `name`. */
  function NameField(name: Name): (field: seq<byte>)
    ensures |field| == DCACHE_ENTRY_NAME_LEN
  {
    seq(DCACHE_ENTRY_NAME_LEN, i requires 0 <= i => if i < |name| then name[i] else 0)
  }

  /** The first `n` bytes from `i` on agree, or all those up to a common zero do. */
  predicate SamePrefix(a: seq<byte>, b: seq<byte>, i: nat, n: nat)
    requires i <= n <= |b| && i < |a| && a[|a| - 1] == 0 && NoZero(b)
    decreases n - i
  {
    i == n || (a[i] == b[i] && SamePrefix(a, b, i + 1, n))
  }

  lemma {:induction false} SamePrefixIff(a: seq<byte>, b: seq<byte>, i: nat, n: nat)
    requires i <= n <= |b| && i < |a| && a[|a| - 1] == 0 && NoZero(b)
    ensures SamePrefix(a, b, i, n) <==> n < |a| && forall k :: i <= k < n ==> a[k] == b[k]
    decreases n - i
  {
    if i < n && a[i] == b[i] {
      SamePrefixIff(a, b, i + 1, n);
    }
  }

  /** The program's test for an entry with this name; it reads no byte beyond the field, however long the name. */
  predicate Matches(field: seq<byte>, name: Name)
    requires |field| == DCACHE_ENTRY_NAME_LEN && field[DCACHE_ENTRY_NAME_LEN - 1] == 0 && NoZero(name)
  {
    SamePrefix(field, name, 0, |name|) && (SamePrefixIff(field, name, 0, |name|); field[|name|] == 0)
  }

  lemma MatchesIff(stored: Name, name: Name)
    requires NoZero(stored) && NoZero(name) && |stored| < DCACHE_ENTRY_NAME_LEN
    ensures Matches(NameField(stored), name) <==> stored == name
  {
    SamePrefixIff(NameField(stored), name, 0, |name|);
    if |name| < |stored| {
      assert NameField(stored)[|name|] == stored[|name|];
    } else if |stored| < |name| {
      assert NameField(stored)[|stored|] == 0;
    }
  }

  class Node {
    var childs: Node?
    var siblings: Node?
    var inode: nat
    const name: seq<byte>

    // The names on the way from the root to this entry, and the entry above it.
    ghost const path: seq<Name>
    ghost const up: Node?

    constructor (name: Name, inode: nat, ghost up: Node?)
      ensures this.name == NameField(name) && this.inode == inode && childs == null && siblings == null
      ensures this.up == up && path == if up == null then [] else up.path + [name]
    {
      this.name, this.inode, childs, siblings := NameField(name), inode, null, null;
      this.up, path := up, if up == null then [] else up.path + [name];
    }

    ghost function Name(): Name {
      if path == [] then [] else path[|path| - 1]
    }

    /** The entry is a child of `n`, and of nobody else. */
    ghost predicate ChildOf(n: Node) {
      up == n && path == n.path + [Name()] && NoZero(Name()) && |Name()| < DCACHE_ENTRY_NAME_LEN && name == NameField(Name())
    }
  }

  // ----- Rings

  ghost predicate Distinct<T>(s: seq<T>) {
    forall i: nat, j: nat :: i < j < |s| ==> s[i] != s[j]
  }

  function Next(i: nat, n: nat): nat {
    if i + 1 == n then 0 else i + 1
  }

  /** The ring `s` with `e` as its new head. */
  ghost function Inserted<T>(s: seq<T>, e: T): seq<T> {
    seq(|s| + 1, i requires 0 <= i < |s| + 1 => if i == 0 then e else if i == |s| then s[0] else s[i])
  }

  /** The ring `s` with its element `k` as the head. */
  ghost function Rotated<T>(s: seq<T>, k: nat): seq<T>
    requires k < |s|
  {
    seq(|s|, i requires 0 <= i < |s| => s[if i + k < |s| then i + k else i + k - |s|])
  }

  lemma InsertedAddsOne<T>(s: seq<T>, e: T)
    ensures multiset(Inserted(s, e)) == multiset(s) + multiset{e}
  {
    if s == [] {
      assert Inserted(s, e) == [e];
    } else {
      assert Inserted(s, e) == [e] + s[1..] + [s[0]];
      assert s == [s[0]] + s[1..];
    }
  }

  lemma RotatedKeepsAll<T>(s: seq<T>, k: nat)
    requires k < |s|
    ensures multiset(Rotated(s, k)) == multiset(s)
  {
    assert Rotated(s, k) == s[k..] + s[..k];
    assert s == s[..k] + s[k..];
  }

  // ----- The tree

  /** Of each entry the children, in ring order from the head. */
  type Rings = map<Node, seq<Node>>

  ghost predicate IsTree(rings: Rings, root: Node) {
    && root in rings && root.path == []
    && (forall n, i: nat {:trigger rings[n][i].ChildOf(n)} :: n in rings && i < |rings[n]| ==> rings[n][i] in rings && rings[n][i].ChildOf(n))
    && (forall n {:trigger Distinct(rings[n])} :: n in rings ==> Distinct(rings[n]))
  }

  ghost function WithChild(rings: Rings, p: Node, e: Node): Rings
    requires p in rings
  {
    rings[p := Inserted(rings[p], e)][e := []]
  }

  lemma WithChildIsTree(rings: Rings, root: Node, p: Node, e: Node)
    requires IsTree(rings, root) && p in rings && e !in rings && e.ChildOf(p)
    ensures IsTree(WithChild(rings, p, e), root)
  {
    var t := WithChild(rings, p, e);
    forall n, i: nat | n in t && i < |t[n]| ensures t[n][i] in t && t[n][i].ChildOf(n) {
      if n == p {
        if i > 0 { assert rings[p][if i == |rings[p]| then 0 else i].ChildOf(p); }
      } else if n != e {
        assert rings[n][i].ChildOf(n);
      }
    }
    assert Distinct(rings[p]);
    forall i: nat | i < |rings[p]| ensures rings[p][i] != e {
      assert rings[p][i].ChildOf(p);
    }
  }

  ghost function Turned(rings: Rings, p: Node, k: nat): Rings
    requires p in rings && k < |rings[p]|
  {
    rings[p := Rotated(rings[p], k)]
  }

  lemma TurnedIsTree(rings: Rings, root: Node, p: Node, k: nat)
    requires IsTree(rings, root) && p in rings && k < |rings[p]|
    ensures IsTree(Turned(rings, p, k), root)
  {
    var t, s := Turned(rings, p, k), rings[p];
    assert Distinct(s);
    forall n, i: nat | n in t && i < |t[n]| ensures t[n][i] in t && t[n][i].ChildOf(n) {
      assert rings[n][if n != p then i else if i + k < |s| then i + k else i + k - |s|].ChildOf(n);
    }
  }

  /** None of the first `k` entries has this name. */
  ghost predicate NoneNamed(ring: seq<Node>, name: Name, k: nat) {
    k <= |ring| && forall i {:trigger ring[i].Name()} :: 0 <= i < k ==> ring[i].Name() != name
  }

  /** `e` is the first entry with this name, `k` places from the head of the ring; null says there is none. */
  ghost predicate Found(ring: seq<Node>, name: Name, e: Node?, k: nat) {
    && NoneNamed(ring, name, k)
    && if e == null then k == |ring| else k < |ring| && e == ring[k] && e.Name() == name
  }

  /** The first entry with this name from the `from`-th on. */
  ghost function FirstNamed(ring: seq<Node>, name: Name, from: nat): Option<Node>
    requires from <= |ring|
    decreases |ring| - from
  {
    if from == |ring| then None else if ring[from].Name() == name then Some(ring[from]) else FirstNamed(ring, name, from + 1)
  }

  lemma {:induction false} FoundIsFirst(ring: seq<Node>, name: Name, e: Node?, k: nat, from: nat)
    requires Found(ring, name, e, k) && from <= k
    ensures FirstNamed(ring, name, from) == if e == null then None else Some(e)
    decreases k - from
  {
    if from < k {
      assert ring[from].Name() != name;
      FoundIsFirst(ring, name, e, k, from + 1);
    }
  }

  class Dcache {
    const root: Node

    ghost var nodes: set<Node>
    ghost var rings: Rings

    /** The pointers of `n` and its children are those of the tree. */
    ghost predicate LinksOf(n: Node, rings: Rings, nodes: set<Node>)
      requires n in rings && n in nodes
      reads nodes
    {
      && n.childs == (if rings[n] == [] then null else rings[n][0])
      && forall i: nat {:trigger Link(rings[n], i, nodes)} :: i < |rings[n]| ==> Link(rings[n], i, nodes)
    }

    ghost predicate Link(ring: seq<Node>, i: nat, nodes: set<Node>)
      requires i < |ring|
      reads nodes
    {
      ring[i] in nodes && ring[i].siblings == ring[Next(i, |ring|)]
    }

    ghost predicate Valid()
      reads this, nodes
    {
      && nodes == rings.Keys && IsTree(rings, root)
      && forall n {:trigger LinksOf(n, rings, nodes)} :: n in nodes ==> LinksOf(n, rings, nodes)
    }

    constructor ()
      ensures Valid() && fresh(nodes) && nodes == {root} && rings == map[root := []] && root.inode == 0
    {
      root := new Node([], 0, null);
      new;
      nodes, rings := {root}, map[root := []];
    }

    /** Sets the inode of the root, once. */
    method InitRoot(n: nat) returns (ok: bool)
      requires Valid() && (root.inode == 0 ==> rings[root] == [])
      modifies root
      ensures Valid() && ok == (old(root.inode) == 0)
      ensures root.inode == if ok then n else old(root.inode)
    {
      if root.inode != 0 {
        return false;
      }
      assert LinksOf(root, rings, nodes);
      root.inode := n;
      root.childs := null;
      forall n | n in nodes ensures LinksOf(n, rings, nodes) {
        assert old(LinksOf(n, rings, nodes));
        forall i: nat | i < |rings[n]| ensures Link(rings[n], i, nodes) {
          assert old(Link(rings[n], i, nodes));
        }
      }
      return true;
    }

    function GetInode(entry: Node?): nat
      reads entry, root
    {
      if entry != null then entry.inode else root.inode
    }

    function Parent(parent: Node?): Node {
      if parent == null then root else parent
    }

    /** Adds a child at the head of the ring; does nothing when the name does not fit. */
    method Insert(parent: Node?, name: Name, inode: nat) returns (e: Node?)
      requires Valid() && (parent == null || parent in nodes) && NoZero(name)
      requires parent == null ==> root.inode != 0
      modifies this, nodes`childs, nodes`siblings
      ensures Valid()
      ensures |name| + 1 > DCACHE_ENTRY_NAME_LEN ==> e == null && nodes == old(nodes) && rings == old(rings)
      ensures |name| + 1 <= DCACHE_ENTRY_NAME_LEN ==>
        && e != null && fresh(e) && e.inode == inode && e.up == Parent(parent) && e.path == Parent(parent).path + [name]
        && nodes == old(nodes) + {e} && Parent(parent) in old(rings) && rings == WithChild(old(rings), Parent(parent), e)
    {
      if |name| + 1 > DCACHE_ENTRY_NAME_LEN {
        return null;
      }
      var p := Parent(parent);
      e := new Node(name, inode, p);
      WithChildIsTree(rings, root, p, e);
      ghost var all, t := nodes + {e}, WithChild(rings, p, e);
      LinkIn(p, e, all, t);
      nodes, rings := all, t;
    }

    /** Links `e` in after the head of the ring and makes it the head: the pointers become those of the larger tree. */
    method LinkIn(p: Node, e: Node, ghost all: set<Node>, ghost t: Rings)
      requires Valid() && p in nodes && e !in nodes && e.childs == null
      requires all == nodes + {e} && t == WithChild(rings, p, e)
      modifies all`childs, all`siblings
      ensures forall n {:trigger LinksOf(n, t, all)} :: n in all ==> n in t && LinksOf(n, t, all)
    {
      assert LinksOf(p, rings, nodes);
      if p.childs == null {
        e.siblings := e;
        p.childs := e;
      } else {
        assert Link(rings[p], 0, nodes);
        e.siblings := p.childs.siblings;
        p.childs.siblings := e;
        p.childs := e;
      }
      ghost var s := rings[p];
      forall n | n in all ensures n in t && LinksOf(n, t, all) {
        if n != e { assert old(LinksOf(n, rings, nodes)); }
        forall i: nat | i < |t[n]| ensures Link(t[n], i, all) {
          if n == p {
            assert s != [] ==> old(Link(s, if i == |s| then 0 else i, nodes));
            assert Distinct(s);
          } else {
            assert old(Link(rings[n], i, nodes));
            assert rings[n][i].ChildOf(n);
            assert s != [] ==> s[0].ChildOf(p);
          }
        }
      }
    }

    /** Makes child `k` the head of its ring. */
    method TurnTo(p: Node, e: Node, ghost k: nat, ghost t: Rings)
      requires Valid() && p in nodes && k < |rings[p]| && e == rings[p][k] && t == Turned(rings, p, k)
      modifies p`childs
      ensures forall n {:trigger LinksOf(n, t, nodes)} :: n in nodes ==> LinksOf(n, t, nodes)
    {
      ghost var s := rings[p];
      p.childs := e;
      forall n | n in nodes ensures LinksOf(n, t, nodes) {
        assert old(LinksOf(n, rings, nodes));
        forall i: nat | i < |t[n]| ensures Link(t[n], i, nodes) {
          assert old(Link(rings[n], if n != p then i else if i + k < |s| then i + k else i + k - |s|, nodes));
        }
      }
    }

    /** Finds a child if and only if there is one with exactly this name, and makes it the head of the ring. */
    method Lookup(parent: Node?, name: Name) returns (e: Node?, ghost k: nat)
      requires Valid() && (parent == null || parent in nodes) && NoZero(name)
      modifies this`rings, nodes`childs
      ensures Valid()
      ensures Parent(parent) in old(rings) && Found(old(rings)[Parent(parent)], name, e, k)
      ensures rings == if e == null then old(rings) else Turned(old(rings), Parent(parent), k)
      ensures e != null ==> e in nodes && e.path == Parent(parent).path + [name] && |name| + 1 <= DCACHE_ENTRY_NAME_LEN
    {
      var p := Parent(parent);
      ghost var s := rings[p];
      k := 0;
      assert LinksOf(p, rings, nodes);
      if p.childs == null {
        return null, k;
      }
      var iter := p.childs;
      while true
        invariant rings == old(rings) && unchanged(nodes)
        invariant k < |s| && iter == s[k] && NoneNamed(s, name, k)
        decreases |s| - k
      {
        assert s[k].ChildOf(p) && Link(s, k, nodes) && Distinct(s);
        MatchesIff(iter.Name(), name);
        if Matches(iter.name, name) {
          TurnedIsTree(rings, root, p, k);
          ghost var t := Turned(rings, p, k);
          TurnTo(p, iter, k, t);
          rings := t;
          return iter, k;
        }
        iter := iter.siblings;
        k := k + 1;
        if iter == p.childs {
          return null, k;
        }
        assert k < |s|;
      }
    }
  }
}
