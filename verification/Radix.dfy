/** Division with remainder by a number that is not a constant. */
module Radix {
  lemma QuotientRemainder(n: nat, d: nat)
    requires d > 0
    ensures 0 <= n / d && 0 <= n % d < d && n == (n / d) * d + n % d
  {
    assert n == d * (n / d) + n % d;
  }

  function Div(n: nat, d: nat): (q: nat)
    requires d > 0
  {
    QuotientRemainder(n, d);
    n / d
  }

  function Mod(n: nat, d: nat): (r: nat)
    requires d > 0
    ensures r < d
  {
    QuotientRemainder(n, d);
    n % d
  }

  function Mul(a: nat, b: nat): nat {
    a * b
  }

  lemma ProductBelow(q: nat, d: nat, bound: nat)
    requires q < bound
    ensures q * d + d <= bound * d
  {
    assert (q + 1) * d <= bound * d;
    assert (q + 1) * d == q * d + d;
  }

  lemma UniqueQuotient(q1: nat, r1: nat, q2: nat, r2: nat, d: nat)
    requires r1 < d && r2 < d && q1 * d + r1 == q2 * d + r2
    ensures q1 == q2 && r1 == r2
  {
    if q1 < q2 { ProductBelow(q1, d, q2); }
    if q2 < q1 { ProductBelow(q2, d, q1); }
  }

  lemma QuotientOf(q: nat, r: nat, d: nat)
    requires r < d
    ensures (q * d + r) / d == q && (q * d + r) % d == r
  {
    var n := q * d + r;
    QuotientRemainder(n, d);
    UniqueQuotient(q, r, n / d, n % d, d);
  }

  lemma QuotientBelow(n: nat, d: nat, bound: nat)
    requires d > 0 && n < bound * d
    ensures n / d < bound
  {
    QuotientRemainder(n, d);
    if n / d > bound { ProductBelow(bound, d, n / d); }
  }

  // The same facts about the named operations

  lemma DivMod(n: nat, d: nat)
    requires d > 0
    ensures n == Mul(Div(n, d), d) + Mod(n, d)
  {
    QuotientRemainder(n, d);
  }

  lemma DivOf(q: nat, r: nat, d: nat)
    requires r < d
    ensures Div(Mul(q, d) + r, d) == q && Mod(Mul(q, d) + r, d) == r
  {
    QuotientOf(q, r, d);
  }

  lemma DivBelow(n: nat, d: nat, bound: nat)
    requires d > 0 && n < Mul(bound, d)
    ensures Div(n, d) < bound
  {
    QuotientBelow(n, d, bound);
  }

  lemma DivFrom(n: nat, d: nat, bound: nat)
    requires d > 0 && n >= Mul(bound, d)
    ensures Div(n, d) >= bound
  {
    QuotientRemainder(n, d);
    if n / d < bound { ProductBelow(n / d, d, bound); }
  }

  lemma MulSum(a: nat, b: nat, d: nat)
    ensures Mul(a + b, d) == Mul(a, d) + Mul(b, d)
  {
  }

  lemma MulAtLeast(a: nat, d: nat)
    requires a > 0
    ensures Mul(a, d) >= d && Mul(1, d) == d
  {
    ProductBelow(0, d, a);
  }

  /** `k` units after `l` whole groups. */
  lemma DivAfter(l: nat, k: nat, d: nat)
    requires d > 0
    ensures Div(Mul(l, d) + k, d) == l + Div(k, d) && Mod(Mul(l, d) + k, d) == Mod(k, d)
    ensures Mul(l, d) + k == Mul(l + Div(k, d), d) + Mod(k, d)
  {
    DivMod(k, d);
    MulSum(l, Div(k, d), d);
    DivOf(l + Div(k, d), Mod(k, d), d);
  }
}
