/** Divisibility and primality, the specification side of every sieve in the
    repository. */
module Primes {
  import opened Arithmetic

  predicate Divides(d: int, n: int)
    requires 0 < d
  {
    n % d == 0
  }

  predicate IsPrime(n: int) {
    2 <= n && forall d :: 2 <= d < n ==> !Divides(d, n)
  }

  lemma MultipleIsDivisible(d: int, k: int)
    requires 0 < d
    ensures Divides(d, d * k) && (d * k) / d == k
  {
    DivModUnique(d * k, d, k, 0);
  }

  lemma DivisibleIsMultiple(d: int, n: int)
    requires 0 < d && Divides(d, n)
    ensures n == d * (n / d)
  {
  }

  lemma DividesTransitive(a: int, b: int, c: int)
    requires 0 < a && 0 < b
    requires Divides(a, b) && Divides(b, c)
    ensures Divides(a, c)
  {
    DivisibleIsMultiple(a, b);
    DivisibleIsMultiple(b, c);
    assert c == a * ((b / a) * (c / b));
    MultipleIsDivisible(a, (b / a) * (c / b));
  }

  lemma DividesSum(d: int, x: int, y: int)
    requires 0 < d && Divides(d, x)
    ensures Divides(d, x + y) <==> Divides(d, y)
  {
    DivisibleIsMultiple(d, x);
    ModAddMultiple(y, x / d, d);
  }

  lemma EvenCofactor(p: int, m: int, x: int)
    requires p % 2 == 1 && p * m == 2 * x
    ensures m % 2 == 0
  {
    var h := p / 2;
    assert p == 2 * h + 1;
    assert p * m == 2 * (h * m) + m by {
      MulDistributes(m, 2 * h, 1);
      MulAssociates(2, h, m);
    }
  }

  /** An odd divisor of a double divides the half. */
  lemma HalfOfMultiple(p: int, x: int)
    requires 0 < p && p % 2 == 1 && Divides(p, 2 * x)
    ensures Divides(p, x)
  {
    hide Divides;
    var m := (2 * x) / p;
    DivisibleIsMultiple(p, 2 * x);
    EvenCofactor(p, m, x);
    var g := m / 2;
    assert m == 2 * g;
    HalfFactor(p, g, x);
    MultipleIsDivisible(p, g);
  }

  lemma HalfFactor(p: int, g: int, x: int)
    requires 2 * x == p * (2 * g)
    ensures x == p * g
  {
  }

  /** The least divisor of n that exceeds one. */
  lemma LeastFactor(n: int) returns (p: int)
    requires 2 <= n
    ensures 2 <= p <= n && Divides(p, n) && IsPrime(p)
    ensures forall d :: 2 <= d < p ==> !Divides(d, n)
    ensures !IsPrime(n) ==> p * p <= n
  {
    p := 2;
    while !Divides(p, n)
      invariant 2 <= p <= n
      invariant forall d :: 2 <= d < p ==> !Divides(d, n)
      decreases n - p
    {
      if p == n {
        MultipleIsDivisible(n, 1);
      }
      p := p + 1;
    }
    forall d | 2 <= d < p
      ensures !Divides(d, p)
    {
      if Divides(d, p) {
        DividesTransitive(d, p, n);
      }
    }
    if !IsPrime(n) {
      var c := n / p;
      DivisibleIsMultiple(p, n);
      MultipleIsDivisible(c, p);
      assert c * p == n;
      if p == n {
        assert false;
      }
      if c < p {
        if c <= 1 {
          MulMonotone(p, c, 1);
          assert false;
        }
        assert false;
      }
      MulMonotone(p, p, c);
    }
  }

  /** A number with a factor that is neither one nor itself is composite. */
  lemma ProductIsComposite(p: int, m: int)
    requires 2 <= p && 2 <= m
    ensures !IsPrime(p * m)
  {
    MultipleIsDivisible(p, m);
    MulStrictlyMonotone(p, 1, m);
  }

  /** A proper divisor makes a number composite. */
  lemma ProperDivisorIsComposite(d: int, n: int)
    requires 2 <= d < n && Divides(d, n)
    ensures !IsPrime(n)
  {
  }

  /** If no number up to the square root divides n, then n is prime. */
  lemma PrimeBySquareRoot(n: int, d: int)
    requires 2 <= n && 1 <= d && n < d * d
    requires forall e :: 2 <= e < d ==> !Divides(e, n)
    ensures IsPrime(n)
  {
    if !IsPrime(n) {
      var p := LeastFactor(n);
      if d <= p {
        MulMonotone(d, d, p);
        MulMonotone(p, d, p);
      }
      assert false;
    }
  }

  /** The number of primes in [4, n]. */
  ghost function PrimesFrom4(n: int): nat
    decreases if n < 4 then 0 else n
  {
    if n < 4 then 0 else PrimesFrom4(n - 1) + if IsPrime(n) then 1 else 0
  }
}
