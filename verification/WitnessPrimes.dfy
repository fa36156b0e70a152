/** Three explicit primes, far enough apart that between the square root of a
    sieve block's end and the part sieved before it there is always one of them.
    They are what makes the unconditional loop of the block sieve stop.

    Primality is by the order of an element: a modulus exceeds the order of everything
    modulo it, so every divisor of p exceeds 2^n if b^(2^(n-1)) is -1 modulo p (Proth),
    and exceeds a prime q if x^q is 1 while x - 1 is invertible (Pocklington). */
module WitnessPrimes {
  import opened Arithmetic
  import opened Primes

  lemma SquareOfPower(b: int, e: nat)
    ensures Pow(b * b, e) == Pow(b, 2 * e)
  {
    assert Pow(b, 2) == b * b by { assert Pow(b, 1) == b * Pow(b, 0); }
    PowMul(b, 2, e);
  }

  lemma {:induction false} PowerOfOne(e: nat)
    ensures Pow(1, e) == 1
  {
    if e != 0 { PowerOfOne(e - 1); }
  }

  lemma {:induction false} PowerOfMinusOne(e: nat)
    ensures Pow(-1, e) == if e % 2 == 0 then 1 else -1
  {
    if e != 0 { PowerOfMinusOne(e - 1); }
  }

  /** The least positive exponent with b^n = 1 modulo r is n. */
  ghost predicate HasOrder(b: int, n: nat, r: int)
    requires 0 < r
  {
    0 < n && Pow(b, n) % r == 1 && forall e :: 0 < e < n ==> Pow(b, e) % r != 1
  }

  /** If b^(2^(n-1)) = -1 modulo r, no exponent below 2^n gives 1. */
  lemma {:induction false} NoSmallOrder(b: int, e: nat, n: nat, r: int)
    requires 2 < r && 1 <= n && 0 < e < Pow2(n)
    requires Pow(b, Pow2(n - 1)) % r == r - 1
    ensures Pow(b, e) % r != 1
    decreases n
  {
    if e % 2 == 0 {
      var h := e / 2;
      SquareOfPower(b, h);
      SquareOfPower(b, Pow2(n - 2));
      NoSmallOrder(b * b, h, n - 1, r);
    } else if Pow(b, e) % r == 1 {
      var h := Pow2(n - 1);
      PowMul(b, e, h);
      PowMul(b, h, e);
      assert e * h == h * e;
      ModSmall(1, r);
      PowCongruent(Pow(b, e), 1, h, r);
      PowerOfOne(h);
      assert (-1) % r == r - 1 by { DivModUnique(-1, r, -1, r - 1); }
      PowCongruent(Pow(b, h), -1, e, r);
      PowerOfMinusOne(e);
      assert false;
    }
  }

  lemma FullOrder(b: int, n: nat, r: int)
    requires 2 < r && 1 <= n
    requires Pow(b, Pow2(n - 1)) % r == r - 1
    ensures Pow(b, Pow2(n)) % r == 1
  {
    hide Pow;
    var h := Pow2(n - 1);
    PowAdd(b, h, h);
    ModMul(Pow(b, h), Pow(b, h), r);
    MulDistributes(r - 1, r, -1);
    DivModUnique((r - 1) * (r - 1), r, r - 2, 1);
  }

  lemma OrderPowerOfTwo(b: int, n: nat, r: int)
    requires 2 < r && 1 <= n && Pow(b, Pow2(n - 1)) % r == r - 1
    ensures HasOrder(b, Pow2(n), r)
  {
    hide Pow;
    FullOrder(b, n, r);
    forall e | 0 < e < Pow2(n)
      ensures Pow(b, e) % r != 1
    {
      NoSmallOrder(b, e, n, r);
    }
  }

  /** Taking out a factor that is 1 changes nothing. */
  lemma DropOne(x: int, y: int, r: int)
    requires 1 < r && x % r == 1
    ensures (x * y) % r == y % r
  {
    ModSmall(1, r);
    ModMulCongruent(x, 1, y, r);
  }

  lemma {:induction false} PowerGivesOne(b: int, e: nat, k: nat, r: int)
    requires 1 < r && Pow(b, e) % r == 1
    ensures 0 <= e * k && Pow(b, e * k) % r == 1
  {
    hide Pow;
    MulMonotone(e, 0, k);
    PowMul(b, e, k);
    ModSmall(1, r);
    PowCongruent(Pow(b, e), 1, k, r);
    PowerOfOne(k);
  }

  /** Exponents that give 1 are closed under remainders. */
  lemma RemainderGivesOne(b: int, e: nat, n: nat, r: int)
    requires 1 < r && 0 < e && Pow(b, e) % r == 1 && Pow(b, n) % r == 1
    ensures Pow(b, n % e) % r == 1
  {
    hide Pow;
    DivModIdentity(n, e);
    RestGivesOne(b, e, n / e, n % e, n, r);
  }

  lemma RestGivesOne(b: int, e: nat, k: nat, rest: nat, n: nat, r: int)
    requires 1 < r && Pow(b, e) % r == 1 && n == k * e + rest && Pow(b, n) % r == 1
    ensures Pow(b, rest) % r == 1
  {
    hide Pow;
    PowerGivesOne(b, e, k, r);
    PowAdd(b, e * k, rest);
    DropOne(Pow(b, e * k), Pow(b, rest), r);
  }

  /** A prime exponent that gives 1 is the order of every base but 1. */
  lemma {:induction false} NoSmallerThanPrime(b: int, e: nat, q: nat, r: int)
    requires 1 < r && IsPrime(q) && 0 < e < q && Pow(b, q) % r == 1 && b % r != 1
    ensures Pow(b, e) % r != 1
    decreases e
  {
    hide Pow;
    PowOne(b);
    if 1 < e {
      assert !Divides(e, q);
      if Pow(b, e) % r == 1 {
        RemainderGivesOne(b, e, q, r);
        NoSmallerThanPrime(b, q % e, q, r);
      }
    }
  }

  lemma OrderPrime(b: int, q: nat, r: int)
    requires 1 < r && IsPrime(q) && Pow(b, q) % r == 1 && b % r != 1
    ensures HasOrder(b, q, r)
  {
    hide Pow;
    forall e | 0 < e < q
      ensures Pow(b, e) % r != 1
    {
      NoSmallerThanPrime(b, e, q, r);
    }
  }

  ghost function Residues(b: int, r: int, m: nat): set<int>
    requires 0 < r
  {
    set i | 0 <= i < m :: Pow(b, i) % r
  }

  lemma ResiduesGrow(b: int, r: int, m: nat)
    requires 0 < r
    ensures Residues(b, r, m + 1) == Residues(b, r, m) + {Pow(b, m) % r}
  {
    hide Pow;
    var x := Pow(b, m) % r;
    forall y | y in Residues(b, r, m) + {x}
      ensures y in Residues(b, r, m + 1)
    {
      if y == x {
        assert 0 <= m < m + 1 && Pow(b, m) % r == y;
      } else {
        var i :| 0 <= i < m && Pow(b, i) % r == y;
        assert 0 <= i < m + 1;
      }
    }
  }

  /** The powers b^0 .. b^(m-1) are m different residues when the order allows. */
  lemma {:induction false} ResiduesDistinct(b: int, n: nat, r: int, m: nat)
    requires 1 < r && HasOrder(b, n, r) && m <= n
    ensures |Residues(b, r, m)| == m
  {
    hide Pow, HasOrder;
    if m > 0 {
      ResiduesDistinct(b, n, r, m - 1);
      ResiduesGrow(b, r, m - 1);
      var x := Pow(b, m - 1) % r;
      if x in Residues(b, r, m - 1) {
        var i :| 0 <= i < m - 1 && Pow(b, i) % r == x;
        PowersDiffer(b, n, r, i, m - 1);
        assert false;
      }
    }
  }

  /** Equal powers differ by an exponent that gives 1. */
  lemma EqualPowers(b: int, n: nat, r: int, i: nat, j: nat)
    requires 1 < r && Pow(b, n) % r == 1 && i < j <= n && Pow(b, i) % r == Pow(b, j) % r
    ensures Pow(b, j - i) % r == 1
  {
    hide Pow;
    var c := n - i;
    ModMulCongruent(Pow(b, i), Pow(b, j), Pow(b, c), r);
    PowAdd(b, i, c);
    PowAdd(b, j, c);
    PowAdd(b, n, j - i);
    DropOne(Pow(b, n), Pow(b, j - i), r);
  }

  lemma PowersDiffer(b: int, n: nat, r: int, i: nat, j: nat)
    requires 1 < r && HasOrder(b, n, r) && i < j < n
    ensures Pow(b, i) % r != Pow(b, j) % r
  {
    hide Pow;
    if Pow(b, i) % r == Pow(b, j) % r {
      EqualPowers(b, n, r, i, j);
    }
  }

  lemma PowerIsNonZero(b: int, n: nat, r: int, i: nat)
    requires 1 < r && HasOrder(b, n, r) && i < n
    ensures Pow(b, i) % r != 0
  {
    hide Pow;
    if Pow(b, i) % r == 0 {
      PowAdd(b, i, n - i);
      ModMul(Pow(b, i), Pow(b, n - i), r);
      ModSmall(0, r);
      assert false;
    }
  }

  /** The nonzero residues modulo r. */
  ghost function Interval(r: int): (s: set<int>)
    requires 1 <= r
    ensures forall x :: x in s <==> 1 <= x < r
    ensures |s| == r - 1
  {
    if r == 1 then {} else Interval(r - 1) + {r - 1}
  }

  lemma {:induction false} SubsetSize<T>(a: set<T>, b: set<T>)
    requires a <= b
    ensures |a| <= |b|
  {
    assert b == a + (b - a);
  }

  /** A modulus exceeds the order of everything modulo it. */
  lemma ModulusExceedsOrder(b: int, n: nat, r: int)
    requires 1 < r && HasOrder(b, n, r)
    ensures n < r
  {
    hide Pow, HasOrder;
    var s := Residues(b, r, n);
    ResiduesDistinct(b, n, r, n);
    forall x | x in s
      ensures x in Interval(r)
    {
      var i :| 0 <= i < n && Pow(b, i) % r == x;
      PowerIsNonZero(b, n, r, i);
    }
    SubsetSize(s, Interval(r));
  }

  /** A residue of -1 modulo p is a residue of -1 modulo every divisor of p. */
  lemma MinusOneInDivisor(x: int, p: int, r: int)
    requires 0 < r && 0 < p && Divides(r, p) && x % p == p - 1
    ensures x % r == r - 1
  {
    DivisibleIsMultiple(r, p);
    var q := p / r;
    DivModIdentity(x, p);
    assert x == ((x / p) * q + q - 1) * r + (r - 1) by {
      assert (x / p) * (q * r) == ((x / p) * q) * r;
    }
    DivModUnique(x, r, (x / p) * q + q - 1, r - 1);
  }

  /** Proth's criterion: p = k * 2^n + 1 with k < 2^n is prime as soon as some b,
      squared n - 1 times, is -1 modulo p. */
  lemma Proth(p: nat, k: nat, n: nat, b: nat)
    requires 1 <= n && 1 <= k < Pow2(n) && p == k * Pow2(n) + 1
    requires PowerIs(b, Pow2(n - 1), p, p - 1)
    ensures IsPrime(p)
  {
    hide IsPrime, Divides, Pow;
    var t := Pow2(n);
    MulMonotone(t, 1, k);
    if !IsPrime(p) {
      var r := LeastFactor(p);
      OddCandidate(k, n, r);
      MinusOneInDivisor(Pow(b, Pow2(n - 1)), p, r);
      OrderPowerOfTwo(b, n, r);
      ModulusExceedsOrder(b, t, r);
      SquareExceeds(t, k, r);
      assert false;
    }
  }

  lemma OddCandidate(k: nat, n: nat, r: int)
    requires 1 <= n && 2 <= r && Divides(r, k * Pow2(n) + 1)
    ensures 2 < r
  {
    if r == 2 {
      var h := Pow2(n - 1);
      MulAssociates(k, 2, h);
      MulAssociates(2, k, h);
      assert false;
    }
  }

  lemma SquareExceeds(t: int, k: int, r: int)
    requires 0 < k < t < r
    ensures k * t + 1 < r * r
  {
    MulMonotone(t, k, t);
    MulStrictlyMonotone(t, t, r);
    MulStrictlyMonotone(r, t, r);
  }

  /** A residue of 1 modulo p is a residue of 1 modulo every divisor of p above 1. */
  lemma OneInDivisor(x: int, p: int, r: int)
    requires 1 < r && 0 < p && Divides(r, p) && x % p == 1
    ensures x % r == 1
  {
    DivisibleIsMultiple(r, p);
    DivModIdentity(x, p);
    MulAssociates(x / p, p / r, r);
    ModAddMultiple(1, (x / p) * (p / r), r);
    ModSmall(1, r);
  }

  /** x - 1 is invertible modulo p, so x is 1 modulo no divisor of p. */
  lemma NowhereOne(x: int, y: int, p: int, r: int)
    requires 1 < r && 0 < p && Divides(r, p) && ((x - 1) * y) % p == 1
    ensures x % r != 1
  {
    OneInDivisor((x - 1) * y, p, r);
    if x % r == 1 {
      DivModIdentity(x, r);
      DivModUnique(x - 1, r, x / r, 0);
      ModMul(x - 1, y, r);
      ModSmall(0, r);
      assert false;
    }
  }

  /** Pocklington's criterion: p is prime if some x has x^q = 1 modulo p for a prime q
      above the root of p, while x - 1 is invertible, with inverse y. */
  lemma Pocklington(p: nat, q: nat, x: nat, y: nat)
    requires 2 <= p < q * q && IsPrime(q) && PowerIs(x, q, p, 1) && ((x - 1) * y) % p == 1
    ensures IsPrime(p)
  {
    hide IsPrime, Divides, Pow;
    if !IsPrime(p) {
      var r := LeastFactor(p);
      OneInDivisor(Pow(x, q), p, r);
      NowhereOne(x, y, p, r);
      OrderPrime(x, q, r);
      ModulusExceedsOrder(x, q, r);
      MulMonotone(q, q, r);
      MulMonotone(r, q, r);
      assert false;
    }
  }

  /** x^e modulo m is y. */
  ghost predicate PowerIs(x: nat, e: nat, m: nat, y: nat) {
    0 < m && Pow(x, e) % m == y
  }

  /** One step of square-and-multiply for an exponent bit b. */
  lemma PowerStep(x: nat, e: nat, m: nat, y: nat, b: nat)
    requires PowerIs(x, e, m, y) && b <= 1
    ensures PowerIs(x, 2 * e + b, m, if b == 0 then y * y % m else y * y * x % m)
  {
    hide Pow;
    var w := Pow(x, e);
    PowAdd(x, e, e);
    ModMul(w, w, m);
    if b == 1 {
      PowOne(x);
      PowAdd(x, 2 * e, 1);
      ModMul(w * w, x, m);
      ModMul(y * y, x, m);
    }
  }

  lemma PowOne(x: int)
    ensures Pow(x, 1) == x
  {
    assert Pow(x, 1) == x * Pow(x, 0);
  }

  /** Four steps of square-and-multiply with their intermediate values. */
  lemma FourSteps(x: nat, e: nat, m: nat, y: nat,
    b1: nat, y1: nat, b2: nat, y2: nat, b3: nat, y3: nat, b4: nat, y4: nat)
    requires PowerIs(x, e, m, y) && b1 <= 1 && b2 <= 1 && b3 <= 1 && b4 <= 1 && 0 < m
    requires y1 == if b1 == 0 then y * y % m else y * y * x % m
    requires y2 == if b2 == 0 then y1 * y1 % m else y1 * y1 * x % m
    requires y3 == if b3 == 0 then y2 * y2 % m else y2 * y2 * x % m
    requires y4 == if b4 == 0 then y3 * y3 % m else y3 * y3 * x % m
    ensures PowerIs(x, 16 * e + 8 * b1 + 4 * b2 + 2 * b3 + b4, m, y4)
  {
    hide PowerIs;
    PowerStep(x, e, m, y, b1);
    PowerStep(x, 2 * e + b1, m, y1, b2);
    PowerStep(x, 4 * e + 2 * b1 + b2, m, y2, b3);
    PowerStep(x, 8 * e + 4 * b1 + 2 * b2 + b3, m, y3, b4);
  }

  lemma FirstPower(x: nat, m: nat)
    requires x < m
    ensures PowerIs(x, 1, m, x)
  {
    PowOne(x);
    ModSmall(x, m);
  }

  const SMALL_WITNESS: nat := 3329
  const MIDDLE_WITNESS: nat := 786433
  const LARGE_WITNESS: nat := 4395630593

  lemma SmallWitnessIsPrime()
    ensures IsPrime(SMALL_WITNESS)
  {
    hide IsPrime, PowerIs;
    assert Pow2(7) == 128;
    FirstPower(17, 3329);
    FourSteps(17, 1, 3329, 17,
      0, 289, 0, 296, 0, 1062, 0, 2642);
    PowerStep(17, 16, 3329, 2642, 0);
    PowerStep(17, 32, 3329, 2580, 0);
    PowerStep(17, 64, 3329, 1729, 0);
    Proth(SMALL_WITNESS, 13, 8, 17);
  }

  lemma MiddleWitnessIsPrime()
    ensures IsPrime(MIDDLE_WITNESS)
  {
    hide IsPrime, PowerIs;
    assert Pow2(9) == 512 && Pow2(8) == 256;
    Pow2Add(9, 8);
    Pow2Add(9, 9);
    FirstPower(5, 786433);
    FourSteps(5, 1, 786433, 5,
      0, 25, 0, 625, 0, 390625, 0, 227800);
    FourSteps(5, 16, 786433, 227800,
      0, 58495, 0, 681475, 0, 614733, 0, 662562);
    FourSteps(5, 256, 786433, 662562,
      0, 716811, 0, 436305, 0, 440344, 0, 704289);
    FourSteps(5, 4096, 786433, 704289,
      0, 41596, 0, 74616, 0, 388249, 0, 100025);
    PowerStep(5, 65536, 786433, 100025, 0);
    Proth(MIDDLE_WITNESS, 3, 18, 5);
  }

  lemma LargeWitnessPowers()
    ensures PowerIs(164, 4096, LARGE_WITNESS, 2118106989)
  {
    hide PowerIs;
    FirstPower(164, 4395630593);
    FourSteps(164, 1, 4395630593, 164,
      0, 26896, 0, 723394816, 0, 354971834, 0, 1410195125);
    FourSteps(164, 16, 4395630593, 1410195125,
      0, 3307805933, 0, 852531934, 0, 1955910692, 0, 2106306068);
    FourSteps(164, 256, 4395630593, 2106306068,
      0, 2179887577, 0, 2309864058, 0, 677393030, 0, 2118106989);
  }

  lemma LargeWitnessIsPrime()
    ensures IsPrime(LARGE_WITNESS)
  {
    hide IsPrime, PowerIs;
    assert Pow2(8) == 256;
    Pow2Add(8, 8);
    Pow2Add(16, 8);
    Pow2Add(24, 1);
    LargeWitnessPowers();
    FourSteps(164, 4096, 4395630593, 2118106989,
      0, 3891529452, 0, 1890957718, 0, 204049424, 0, 2805004373);
    FourSteps(164, 65536, 4395630593, 2805004373,
      0, 2618557329, 0, 1773810017, 0, 2278555770, 0, 3889797230);
    FourSteps(164, 1048576, 4395630593, 3889797230,
      0, 2450745757, 0, 2507058504, 0, 3522150036, 0, 4395630592);
    Proth(LARGE_WITNESS, 131, 25, 164);
  }
}
