/**
 * What "least recently used" means, independently of any list.
 *
 * A history is the sequence of block numbers that were asked for, oldest first.
 * `MostRecent` says which sequence of blocks a cache must hold after that history;
 * `Access` is the list surgery that the cache performs for one request.
 */
module XzLru {
  const MAX_NUM_BLOCKS_CACHE: nat := 32

  /** Position of the last request for `b`, or -1 if there was none. */
  ghost function LastUse(history: seq<nat>, b: nat): (r: int)
    ensures -1 <= r < |history|
    ensures r >= 0 ==> history[r] == b
    ensures forall i :: r < i < |history| ==> history[i] != b
  {
    if history == [] then -1
    else if history[|history| - 1] == b then |history| - 1
    else LastUse(history[..|history| - 1], b)
  }

  ghost predicate Used(history: seq<nat>, b: nat) {
    LastUse(history, b) >= 0
  }

  /** Every block of `cache` was used later than the blocks after it. */
  ghost predicate NewestFirst(history: seq<nat>, cache: seq<nat>) {
    forall i, j :: 0 <= i < j < |cache| ==> LastUse(history, cache[i]) > LastUse(history, cache[j])
  }

  /** `cache` lists the most recently used distinct blocks of `history`, newest first. */
  ghost predicate MostRecent(history: seq<nat>, cache: seq<nat>) {
    && |cache| <= MAX_NUM_BLOCKS_CACHE
    && (forall i :: 0 <= i < |cache| ==> Used(history, cache[i]))
    && NewestFirst(history, cache)
    && (forall b :: Used(history, b) && b !in cache ==>
          |cache| == MAX_NUM_BLOCKS_CACHE && LastUse(history, cache[|cache| - 1]) > LastUse(history, b))
  }

  /** Moves the element at `k` to the front; the others keep their order. */
  function MoveToFront<T>(s: seq<T>, k: nat): (r: seq<T>)
    requires k < |s|
    ensures |r| == |s|
    ensures r[0] == s[k]
    ensures forall i :: 0 < i < |s| ==> r[i] == if i <= k then s[i - 1] else s[i]
  {
    seq(|s|, i requires 0 <= i < |s| => if i == 0 then s[k] else if i <= k then s[i - 1] else s[i])
  }

  /** Taking an element out and putting it first is moving it to the front. */
  lemma MoveToFrontInSteps<T>(s: seq<T>, k: nat)
    requires k < |s|
    ensures MoveToFront(s, k) == [s[k]] + (s[..k] + s[k + 1..])
  {
  }

  /** Puts a new element in front, dropping the last one when the cache is full. */
  function PushFront<T>(s: seq<T>, x: T): (r: seq<T>)
    requires |s| <= MAX_NUM_BLOCKS_CACHE
    ensures 1 <= |r| <= MAX_NUM_BLOCKS_CACHE
    ensures |r| == if |s| < MAX_NUM_BLOCKS_CACHE then |s| + 1 else |s|
    ensures r[0] == x
    ensures forall i :: 0 < i < |r| ==> r[i] == s[i - 1]
  {
    seq(if |s| < MAX_NUM_BLOCKS_CACHE then |s| + 1 else |s|, i requires 0 <= i <= |s| => if i == 0 then x else s[i - 1])
  }

  lemma LastUseAppend(history: seq<nat>, b: nat, x: nat)
    ensures LastUse(history + [b], x) == if x == b then |history| else LastUse(history, x)
  {
    assert (history + [b])[..|history|] == history;
  }

  /** Moving to the front keeps every element. */
  lemma FrontMembers<T>(s: seq<T>, k: nat, x: T)
    requires k < |s|
    ensures x in MoveToFront(s, k) <==> x in s
  {
    var r := MoveToFront(s, k);
    if x in s {
      var i :| 0 <= i < |s| && s[i] == x;
      assert r[if i == k then 0 else if i < k then i + 1 else i] == x;
    }
    if x in r {
      var i :| 0 <= i < |r| && r[i] == x;
      assert s[if i == 0 then k else if i <= k then i - 1 else i] == x;
    }
  }

  lemma FrontIsNewestFirst(history: seq<nat>, cache: seq<nat>, k: nat)
    requires NewestFirst(history, cache) && k < |cache|
    ensures NewestFirst(history + [cache[k]], MoveToFront(cache, k))
  {
    var b, cache' := cache[k], MoveToFront(cache, k);
    forall i, j | 0 <= i < j < |cache'|
      ensures LastUse(history + [b], cache'[i]) > LastUse(history + [b], cache'[j])
    {
      LastUseAppend(history, b, cache'[i]);
      LastUseAppend(history, b, cache'[j]);
      var from := if j <= k then j - 1 else j;
      assert cache'[j] == cache[from] && cache[from] != b;
    }
  }

  /** A block found in the cache becomes the newest. */
  lemma HitKeepsMostRecent(history: seq<nat>, cache: seq<nat>, k: nat)
    requires MostRecent(history, cache) && k < |cache|
    ensures MostRecent(history + [cache[k]], MoveToFront(cache, k))
  {
    var b, n, cache' := cache[k], |cache|, MoveToFront(cache, k);
    FrontIsNewestFirst(history, cache, k);
    forall i | 0 <= i < n ensures Used(history + [b], cache'[i]) {
      LastUseAppend(history, b, cache'[i]);
    }
    forall x | Used(history + [b], x) && x !in cache'
      ensures n == MAX_NUM_BLOCKS_CACHE
      ensures LastUse(history + [b], cache'[n - 1]) > LastUse(history + [b], x)
    {
      FrontMembers(cache, k, x);
      LastUseAppend(history, b, x);
      LastUseAppend(history, b, cache'[n - 1]);
    }
  }

  /** A block not in the cache enters it in front, at the expense of the oldest. */
  lemma MissKeepsMostRecent(history: seq<nat>, cache: seq<nat>, b: nat)
    requires MostRecent(history, cache) && b !in cache
    ensures MostRecent(history + [b], PushFront(cache, b))
  {
    var cache' := PushFront(cache, b);
    forall i | 0 <= i < |cache'|
      ensures LastUse(history + [b], cache'[i]) == if i == 0 then |history| else LastUse(history, cache[i - 1])
    {
      LastUseAppend(history, b, cache'[i]);
    }
    forall x | x !in cache' && Used(history + [b], x)
      ensures |cache'| == MAX_NUM_BLOCKS_CACHE
      ensures LastUse(history + [b], cache'[|cache'| - 1]) > LastUse(history + [b], x)
    {
      LastUseAppend(history, b, x);
      assert x != cache'[0];
      assert forall i :: 0 <= i < |cache'| - 1 ==> cache'[i + 1] == cache[i];
    }
  }

  /** History and capacity leave no choice: they determine the contents and their order. */
  lemma MostRecentUnique(history: seq<nat>, c1: seq<nat>, c2: seq<nat>)
    requires MostRecent(history, c1) && MostRecent(history, c2)
    ensures c1 == c2
  {
    forall i | 0 <= i < |c1| && i < |c2| ensures c1[i] == c2[i] {
      MostRecentAt(history, c1, c2, i);
    }
    NoFurtherBlock(history, c1, c2);
    NoFurtherBlock(history, c2, c1);
  }

  lemma NoFurtherBlock(history: seq<nat>, c1: seq<nat>, c2: seq<nat>)
    requires MostRecent(history, c1) && MostRecent(history, c2)
    requires forall i :: 0 <= i < |c1| && i < |c2| ==> c1[i] == c2[i]
    ensures |c1| >= |c2|
  {
    if |c1| < |c2| {
      var x := c2[|c1|];
      assert Used(history, x);
      assert forall i :: 0 <= i < |c1| ==> c1[i] == c2[i] && LastUse(history, c2[i]) > LastUse(history, x);
      assert false;
    }
  }

  lemma {:induction false} MostRecentAt(history: seq<nat>, c1: seq<nat>, c2: seq<nat>, k: nat)
    requires MostRecent(history, c1) && MostRecent(history, c2)
    requires k < |c1| && k < |c2|
    ensures c1[k] == c2[k]
  {
    forall i | 0 <= i < k ensures c1[i] == c2[i] {
      MostRecentAt(history, c1, c2, i);
    }
    AtMostAsRecent(history, c1, c2, k);
    AtMostAsRecent(history, c2, c1, k);
    SameUse(history, c1[k], c2[k]);
  }

  lemma SameUse(history: seq<nat>, x: nat, y: nat)
    requires Used(history, x) && LastUse(history, x) == LastUse(history, y)
    ensures x == y
  {
  }

  lemma AtMostAsRecent(history: seq<nat>, c1: seq<nat>, c2: seq<nat>, k: nat)
    requires MostRecent(history, c1) && MostRecent(history, c2)
    requires k < |c1| && k < |c2|
    requires forall i :: 0 <= i < k ==> c1[i] == c2[i]
    ensures LastUse(history, c1[k]) <= LastUse(history, c2[k])
  {
    var x := c1[k];
    assert Used(history, x);
    if x in c2 {
      var j :| 0 <= j < |c2| && c2[j] == x;
      if j < k { assert false; }
    }
  }

  /** When a full cache admits `b`, the block that leaves is the one used longest ago. */
  lemma EvictedIsLeastRecent(history: seq<nat>, cache: seq<nat>, b: nat, x: nat)
    requires MostRecent(history, cache) && b !in cache
    ensures x in cache && x !in PushFront(cache, b) <==>
            |cache| == MAX_NUM_BLOCKS_CACHE && x in cache &&
            forall y :: y in cache && y != x ==> LastUse(history, x) < LastUse(history, y)
  {
    var n, cache' := |cache|, PushFront(cache, b);
    if x in cache {
      var i :| 0 <= i < n && cache[i] == x;
      if i + 1 < |cache'| {
        assert cache'[i + 1] == x;
        if n == MAX_NUM_BLOCKS_CACHE { assert cache[n - 1] in cache && cache[n - 1] != x; }
      } else {
        assert i == n - 1;
        assert forall j :: 1 <= j < |cache'| ==> cache'[j] == cache[j - 1];
      }
    }
  }

  /** The cache after a whole history, by replaying it. */
  ghost function Replay(history: seq<nat>): (cache: seq<nat>)
    ensures MostRecent(history, cache)
  {
    if history == [] then []
    else
      var n := |history| - 1;
      var cache, b := Replay(history[..n]), history[n];
      assert history[..n] + [b] == history;
      if b in cache then
        var k :| 0 <= k < |cache| && cache[k] == b;
        HitKeepsMostRecent(history[..n], cache, k);
        MoveToFront(cache, k)
      else
        MissKeepsMostRecent(history[..n], cache, b);
        PushFront(cache, b)
  }
}
