/** Prime moduli: every number has a prime above it, so the type of moduli is inhabited. */
module Primes {

  predicate Divides(d: nat, n: nat) {
    d != 0 && n % d == 0
  }

  ghost predicate IsPrime(p: nat) {
    2 <= p && forall d: nat :: 2 <= d < p ==> !Divides(d, p)
  }

  function Factorial(n: nat): (f: nat)
    ensures f >= 1
  {
    if n == 0 then 1 else n * Factorial(n - 1)
  }

  lemma {:induction false} ScaleGrows(e: int, d: int)
    requires e >= 1 && d >= 0
    ensures e * d >= d
  {
    assert e * d == (e - 1) * d + d;
  }

  lemma {:induction false} QuotientUnique(e: int, d: int, m: int)
    requires e * d == m && -d < m < d
    ensures e == 0
  {
    if e >= 1 {
      ScaleGrows(e, d);
    } else if e <= -1 {
      ScaleGrows(-e, d);
    }
  }

  lemma {:induction false} MultipleMod(k: int, d: nat, r: nat)
    requires r < d
    ensures (k * d + r) % d == r
  {
    var n := k * d + r;
    var c := n / d;
    assert n == c * d + n % d;
    assert (k - c) * d == n % d - r;
    QuotientUnique(k - c, d, n % d - r);
  }

  lemma {:induction false} DivisorAtMost(d: nat, n: nat)
    requires Divides(d, n) && n > 0
    ensures d <= n
  {
    assert n == (n / d) * d;
  }

  lemma {:induction false} DividesFactorial(n: nat, d: nat)
    requires 1 <= d <= n
    ensures Divides(d, Factorial(n))
  {
    if d == n {
      MultipleMod(Factorial(n - 1), d, 0);
    } else {
      DividesFactorial(n - 1, d);
      DividesProduct(d, Factorial(n - 1), n);
    }
  }

  lemma {:induction false} DividesProduct(d: nat, a: nat, b: nat)
    requires Divides(d, a)
    ensures Divides(d, b * a)
  {
    var k := a / d;
    assert b * a == (b * k) * d + 0;
    MultipleMod(b * k, d, 0);
  }

  lemma {:induction false} LeastDivisorIsPrime(n: nat, p: nat)
    requires 2 <= p && Divides(p, n)
    requires forall c: nat :: 2 <= c < p ==> !Divides(c, n)
    ensures IsPrime(p)
  {
    var q := n / p;
    assert q * p == n;
    forall c: nat | 2 <= c < p
      ensures !Divides(c, p)
    {
      if Divides(c, p) {
        DividesProduct(c, p, q);
      }
    }
  }

  lemma {:induction false} PrimeDivisor(n: nat) returns (p: nat)
    requires 2 <= n
    ensures IsPrime(p) && Divides(p, n)
  {
    p := 2;
    while !Divides(p, n)
      invariant 2 <= p <= n
      invariant forall c: nat :: 2 <= c < p ==> !Divides(c, n)
      decreases n - p
    {
      p := p + 1;
    }
    LeastDivisorIsPrime(n, p);
  }

  /** Euclid: a prime divisor of n! + 1 exceeds n. */
  lemma {:induction false} PrimeAbove(n: nat) returns (p: nat)
    ensures IsPrime(p) && p > n
  {
    p := PrimeDivisor(Factorial(n) + 1);
    if p <= n {
      DividesFactorial(n, p);
      var k := Factorial(n) / p;
      assert Factorial(n) + 1 == k * p + 1;
      MultipleMod(k, p, 1);
    }
  }

  predicate HasDivisorBelow(p: nat, d: nat) {
    exists c: nat | 2 <= c < d :: Divides(c, p)
  }

  /** The least prime above n; `limit` is some prime above n and bounds the search. */
  function Search(n: nat, ghost limit: nat): (p: nat)
    requires n < limit && IsPrime(limit)
    ensures n < p && IsPrime(p)
    decreases limit - n
  {
    if !HasDivisorBelow(n + 1, n + 1) && n >= 1 then n + 1 else Search(n + 1, limit)
  }

  ghost function SomePrimeAbove(n: nat): (p: nat)
    ensures IsPrime(p) && p > n
  {
    assert exists p: nat :: IsPrime(p) && p > n by {
      var p := PrimeAbove(n);
    }
    var p: nat :| IsPrime(p) && p > n;
    p
  }

  function LeastPrimeAbove(n: nat): (p: nat)
    ensures n < p && IsPrime(p)
  {
    ghost var limit := SomePrimeAbove(n);
    Search(n, limit)
  }
}
