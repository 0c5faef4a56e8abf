/**
 The first primes, each known by how many come before it.
 */
module Primes {

  predicate Divides(d: nat, n: nat)
    requires d > 0
  {
    n % d == 0
  }

  predicate IsPrime(n: nat) {
    n >= 2 && forall d | 2 <= d < n :: !Divides(d, n)
  }

  /** `d` is not a proper divisor. */
  predicate Free(n: nat, d: nat)
    requires d > 0
  {
    n <= d || !Divides(d, n)
  }

  /** No proper divisor up to 17, which below 18 * 18 leaves primes only. */
  predicate Sieved(n: nat) {
    && n >= 2 && Free(n, 2) && Free(n, 3) && Free(n, 4) && Free(n, 5) && Free(n, 6) && Free(n, 7) && Free(n, 8)
    && Free(n, 9) && Free(n, 10) && Free(n, 11) && Free(n, 12) && Free(n, 13) && Free(n, 14) && Free(n, 15)
    && Free(n, 16) && Free(n, 17)
  }

  lemma SievedIsPrime(n: nat)
    requires n < 324
    ensures Sieved(n) <==> IsPrime(n)
  {
    hide Divides;
    forall d | 2 <= d < n && Divides(d, n) ensures !Sieved(n) {
      var e := SmallDivisor(n, d);
      assert e <= 17 by { if e >= 18 { Squares(18, e); } }
      assert e < n by { if e >= n { Squares(2, e); Products(e, 2, e); } }
      assert !Free(n, e);
    }
  }

  lemma Squares(d: nat, e: nat)
    requires d <= e
    ensures d * d <= e * e
  {
    Products(d, d, e);
    Products(e, d, e);
  }

  /** A divisor or its cofactor lies below the square root. */
  lemma SmallDivisor(n: nat, d: nat) returns (e: nat)
    requires 2 <= d < n && Divides(d, n)
    ensures 2 <= e && e * e <= n && Divides(e, n)
  {
    var q := n / d;
    CofactorDivides(n, d);
    if d <= q { e := d; Products(d, d, q); } else { e := q; Products(q, q, d); }
  }

  lemma CofactorDivides(n: nat, d: nat)
    requires 2 <= d < n && Divides(d, n)
    ensures var q := n / d; q >= 2 && n == d * q && n == q * d && Divides(q, n)
  {
    var q := n / d;
    assert n == d * q;
    assert q != 1 && q != 0;
    Multiple(d, q);
  }

  lemma Multiple(d: nat, q: nat)
    requires q > 0
    ensures Divides(q, d * q)
  {
    var n := d * q;
    var k, r := n / q, n % q;
    assert n == q * k + r && 0 <= r < q;
    if k < d { Scaled(q, k, d); }
    if k > d { Scaled(q, d, k); }
  }

  lemma Scaled(q: nat, a: nat, b: nat)
    requires a < b
    ensures q * a + q <= q * b
  {
    Products(q, a + 1, b);
    assert q * (a + 1) == q * a + q;
  }

  lemma Products(a: nat, b: nat, c: nat)
    requires b <= c
    ensures a * b <= a * c
  {
  }

  /** No prime from `m` up to below `p`, and `p` is one. */
  predicate NextFrom(m: nat, p: nat)
    decreases p - m
  {
    if m >= p then m == p && Sieved(p) else !Sieved(m) && NextFrom(m + 1, p)
  }

  lemma {:induction false} NextFromMeans(m: nat, p: nat)
    requires NextFrom(m, p) && p < 324
    ensures m <= p && IsPrime(p) && forall n | m <= n < p :: !IsPrime(n)
    decreases p - m
  {
    SievedIsPrime(m);
    hide Sieved, IsPrime;
    if m < p { NextFromMeans(m + 1, p); }
  }

  /** How many primes there are below `n`. */
  function PrimesBelow(n: nat): nat {
    if n == 0 then 0 else PrimesBelow(n - 1) + if IsPrime(n - 1) then 1 else 0
  }

  /** `p` is the prime with `t` primes before it. */
  predicate IsNthPrime(t: nat, p: nat) {
    IsPrime(p) && PrimesBelow(p) == t
  }

  lemma {:induction false} NoneBetween(m: nat, p: nat)
    requires m <= p && forall n | m <= n < p :: !IsPrime(n)
    ensures PrimesBelow(p) == PrimesBelow(m)
    decreases p - m
  {
    hide IsPrime;
    if m < p { NoneBetween(m, p - 1); }
  }

  lemma NextNthPrime(t: nat, q: nat, p: nat)
    requires IsNthPrime(t, q) && q < p < 324 && NextFrom(q + 1, p)
    ensures IsNthPrime(t + 1, p)
  {
    hide IsPrime, NextFrom;
    NextFromMeans(q + 1, p);
    NoneBetween(q + 1, p);
  }
}
