/** Bytes, optional values, and copies from one byte sequence into part of another. */
module Bytes {
  type byte = x: int | 0 <= x < 256

  datatype Option<+T> = None | Some(value: T) {
    function GetOr(default: T): T {
      if Some? then value else default
    }
  }

  const TWO_32 := 0x1_0000_0000
  const TWO_64 := 0x1_0000_0000_0000_0000

  /** What a number becomes in a signed 32-bit integer. */
  function Signed32(n: nat): (r: int)
    ensures -TWO_32 / 2 <= r < TWO_32 / 2 && (n - r) % TWO_32 == 0
  {
    if n % TWO_32 < TWO_32 / 2 then n % TWO_32 else n % TWO_32 - TWO_32
  }

  lemma Signed32Iff(n: nat)
    ensures Signed32(n) == n <==> n < TWO_32 / 2
  {
  }

  function Min(a: int, b: int): int {
    if a < b then a else b
  }

  function Sum(s: seq<nat>): nat {
    if s == [] then 0 else Sum(s[..|s| - 1]) + s[|s| - 1]
  }

  /** `n` elements of `s` from `offset` on; nothing, wherever that is, when `n` is 0. */
  function Slice<T>(s: seq<T>, offset: nat, n: nat): (r: seq<T>)
    requires n > 0 ==> offset + n <= |s|
    ensures |r| == n && forall k :: 0 <= k < n ==> r[k] == s[offset + k]
  {
    seq(n, i requires 0 <= i < n => s[offset + i])
  }

  /** `after` is `before` with `n` bytes of `source`, from `offset` on, written at `at`; all else is unchanged. */
  ghost predicate Filled(before: seq<byte>, after: seq<byte>, at: nat, source: seq<byte>, offset: nat, n: nat) {
    && |after| == |before| && at + n <= |before|
    && (n > 0 ==> offset + n <= |source|)
    && forall j :: 0 <= j < |before| ==>
         after[j] == if at <= j < at + n then source[offset + j - at] else before[j]
  }

  lemma FilledTwice(s0: seq<byte>, s1: seq<byte>, s2: seq<byte>, at: nat, source: seq<byte>, offset: nat, n: nat, m: nat)
    requires Filled(s0, s1, at, source, offset, n) && Filled(s1, s2, at + n, source, offset + n, m)
    ensures Filled(s0, s2, at, source, offset, n + m)
  {
  }

  /** Copies `n` bytes of `source` from `offset` on into `target` at `at`. */
  method CopyBytes(source: seq<byte>, offset: nat, n: nat, target: array<byte>, at: nat)
    requires offset + n <= |source| && at + n <= target.Length
    modifies target
    ensures Filled(old(target[..]), target[..], at, source, offset, n)
  {
    for i := 0 to n
      invariant forall j :: 0 <= j < target.Length ==>
        target[j] == if at <= j < at + i then source[offset + j - at] else old(target[j])
    {
      target[at + i] := source[offset + i];
    }
  }
}
