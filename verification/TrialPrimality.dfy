/** The primality test the table generators are built on (bootstrap.c). */
module TrialPrimality {
  import opened Arithmetic
  import opened Primes

  /** Bit t is set when t is prime, for t below 32. */
  const SMALL_PRIME_BITS: nat := 0xa08a28ac

  lemma SmallPrimes(t: nat)
    requires t < 32
    ensures IsPrime(t) <==> SievedBy235(t)
  {
    if 6 <= t && t % 2 != 0 && t % 3 != 0 && t % 5 != 0 {
      forall e | 2 <= e < 6
        ensures !Divides(e, t)
      {
        assert e == 2 || e == 3 || e == 4 || e == 5;
      }
      PrimeBySquareRoot(t, 6);
    } else if 6 <= t {
      assert Divides(2, t) || Divides(3, t) || Divides(5, t);
    } else if t == 4 {
      assert Divides(2, t);
    } else if t == 5 {
      assert !Divides(2, 5) && !Divides(3, 5) && !Divides(4, 5);
    } else if t == 3 {
      assert !Divides(2, 3);
    }
  }

  ghost predicate SievedBy235(t: nat) {
    t in {2, 3, 5} || (2 <= t && t % 2 != 0 && t % 3 != 0 && t % 5 != 0)
  }

  lemma LowPrimeBits(t: nat)
    requires t < 16
    ensures ShiftRight(SMALL_PRIME_BITS, t) % 2 == 1 <==> SievedBy235(t)
  {
    assert ShiftRight(SMALL_PRIME_BITS, 0) == 0xa08a28ac && ShiftRight(SMALL_PRIME_BITS, 1) == 0x50451456;
    assert ShiftRight(SMALL_PRIME_BITS, 2) == 0x28228a2b && ShiftRight(SMALL_PRIME_BITS, 3) == 0x14114515;
    assert ShiftRight(SMALL_PRIME_BITS, 4) == 0xa08a28a && ShiftRight(SMALL_PRIME_BITS, 5) == 0x5045145;
    assert ShiftRight(SMALL_PRIME_BITS, 6) == 0x28228a2 && ShiftRight(SMALL_PRIME_BITS, 7) == 0x1411451;
    assert ShiftRight(SMALL_PRIME_BITS, 8) == 0xa08a28 && ShiftRight(SMALL_PRIME_BITS, 9) == 0x504514;
    assert ShiftRight(SMALL_PRIME_BITS, 10) == 0x28228a && ShiftRight(SMALL_PRIME_BITS, 11) == 0x141145;
    assert ShiftRight(SMALL_PRIME_BITS, 12) == 0xa08a2 && ShiftRight(SMALL_PRIME_BITS, 13) == 0x50451;
    assert ShiftRight(SMALL_PRIME_BITS, 14) == 0x28228 && ShiftRight(SMALL_PRIME_BITS, 15) == 0x14114;
    assert t in {0, 1, 2, 3, 4, 5, 6, 7, 8, 9, 10, 11, 12, 13, 14, 15};
  }

  lemma ShiftedBy16()
    ensures ShiftRight(SMALL_PRIME_BITS, 16) == 0xa08a
  {
    assert ShiftRight(SMALL_PRIME_BITS, 4) == 0xa08a28a && ShiftRight(SMALL_PRIME_BITS, 8) == 0xa08a28;
    assert ShiftRight(SMALL_PRIME_BITS, 12) == 0xa08a2;
  }

  lemma HighPrimeBits(t: nat)
    requires 16 <= t < 32
    ensures ShiftRight(SMALL_PRIME_BITS, t) % 2 == 1 <==> SievedBy235(t)
  {
    ShiftedBy16();
    assert ShiftRight(SMALL_PRIME_BITS, 16) == 0xa08a && ShiftRight(SMALL_PRIME_BITS, 17) == 0x5045;
    assert ShiftRight(SMALL_PRIME_BITS, 18) == 0x2822 && ShiftRight(SMALL_PRIME_BITS, 19) == 0x1411;
    assert ShiftRight(SMALL_PRIME_BITS, 20) == 0xa08 && ShiftRight(SMALL_PRIME_BITS, 21) == 0x504;
    assert ShiftRight(SMALL_PRIME_BITS, 22) == 0x282 && ShiftRight(SMALL_PRIME_BITS, 23) == 0x141;
    assert ShiftRight(SMALL_PRIME_BITS, 24) == 0xa0 && ShiftRight(SMALL_PRIME_BITS, 25) == 0x50;
    assert ShiftRight(SMALL_PRIME_BITS, 26) == 0x28 && ShiftRight(SMALL_PRIME_BITS, 27) == 0x14;
    assert ShiftRight(SMALL_PRIME_BITS, 28) == 0xa && ShiftRight(SMALL_PRIME_BITS, 29) == 0x5;
    assert ShiftRight(SMALL_PRIME_BITS, 30) == 0x2 && ShiftRight(SMALL_PRIME_BITS, 31) == 0x1;
    assert t in {16, 17, 18, 19, 20, 21, 22, 23, 24, 25, 26, 27, 28, 29, 30, 31};
  }

  lemma SmallPrimeBits(t: nat)
    requires t < 32
    ensures ShiftRight(SMALL_PRIME_BITS, t) % 2 == 1 <==> IsPrime(t)
  {
    hide ShiftRight, IsPrime;
    SmallPrimes(t);
    if t < 16 { LowPrimeBits(t); } else { HighPrimeBits(t); }
  }

  /** Nothing in [2, d) divides t. */
  ghost predicate NoDivisorBelow(t: nat, d: nat) {
    forall e :: 2 <= e < d ==> !Divides(e, t)
  }

  lemma CoprimeTo210(t: nat)
    requires t % 2 != 0 && t % 3 != 0 && t % 5 != 0 && t % 7 != 0
    ensures NoDivisorBelow(t, 11)
  {
    hide Divides;
    MultipleNotDivisor(2, 1, t);
    MultipleNotDivisor(2, 2, t);
    MultipleNotDivisor(2, 3, t);
    MultipleNotDivisor(2, 4, t);
    MultipleNotDivisor(2, 5, t);
    MultipleNotDivisor(3, 1, t);
    MultipleNotDivisor(3, 3, t);
    MultipleNotDivisor(5, 1, t);
    MultipleNotDivisor(7, 1, t);
    forall e | 2 <= e < 11
      ensures !Divides(e, t)
    {
      assert e in {2, 3, 4, 5, 6, 7, 8, 9, 10};
    }
  }

  /** What q does not divide, no multiple of q divides. */
  lemma MultipleNotDivisor(q: nat, k: nat, t: nat)
    requires 0 < q && 0 < k && t % q != 0
    ensures 0 < q * k && !Divides(q * k, t)
  {
    MulStrictlyMonotone(q, 0, k);
    MultipleIsDivisible(q, k);
    if Divides(q * k, t) { DividesTransitive(q, q * k, t); }
  }

  /** A multiple of 2 or 3 divides nothing that 2 and 3 do not divide. */
  lemma SkippedCandidate(t: nat, e: nat)
    requires t % 2 != 0 && t % 3 != 0 && 0 < e && (e % 2 == 0 || e % 3 == 0)
    ensures !Divides(e, t)
  {
    if Divides(e, t) {
      DividesTransitive(if e % 2 == 0 then 2 else 3, e, t);
    }
  }

  lemma WheelGaps(d: nat)
    ensures d % 6 == 5 ==> (d + 1) % 2 == 0
    ensures d % 6 == 1 ==> (d + 1) % 2 == 0 && (d + 2) % 3 == 0 && (d + 3) % 2 == 0
  {
    var h := d / 6;
    if d == 6 * h + 5 {
      DivModUnique(d + 1, 2, 3 * h + 3, 0);
    } else if d == 6 * h + 1 {
      DivModUnique(d + 1, 2, 3 * h + 1, 0);
      DivModUnique(d + 2, 3, 2 * h + 1, 0);
      DivModUnique(d + 3, 2, 3 * h + 2, 0);
    }
  }

  lemma ExtendBelow(t: nat, d: nat)
    requires 0 < d && NoDivisorBelow(t, d) && !Divides(d, t)
    ensures NoDivisorBelow(t, d + 1)
  {
    hide Divides;
  }

  lemma AdvanceTwo(t: nat, d: nat)
    requires t % 2 != 0 && t % 3 != 0 && d % 6 == 5 && NoDivisorBelow(t, d) && !Divides(d, t)
    ensures NoDivisorBelow(t, d + 2)
  {
    hide *;
    WheelGaps(d);
    ExtendBelow(t, d);
    SkippedCandidate(t, d + 1);
    ExtendBelow(t, d + 1);
  }

  lemma AdvanceFour(t: nat, d: nat)
    requires t % 2 != 0 && t % 3 != 0 && 0 < d && d % 6 == 1 && NoDivisorBelow(t, d) && !Divides(d, t)
    ensures NoDivisorBelow(t, d + 4)
  {
    hide *;
    WheelGaps(d);
    ExtendBelow(t, d);
    SkippedCandidate(t, d + 1);
    ExtendBelow(t, d + 1);
    SkippedCandidate(t, d + 2);
    ExtendBelow(t, d + 2);
    SkippedCandidate(t, d + 3);
    ExtendBelow(t, d + 3);
  }

  function Quotient(t: nat, d: nat): nat
    requires 0 < d
  {
    t / d
  }

  function Remainder(t: nat, d: nat, q: nat): int {
    t - q * d
  }

  /** What one division step tells about t. */
  lemma DivisionStep(t: nat, d: nat, q: nat, r: int)
    requires 32 <= t && 2 <= d && q == Quotient(t, d) && r == Remainder(t, d, q) && NoDivisorBelow(t, d)
    ensures q < d ==> IsPrime(t)
    ensures d <= q ==> d < t
    ensures d <= q && r == 0 ==> !IsPrime(t)
    ensures r != 0 ==> !Divides(d, t)
  {
    DivModIdentity(t, d);
    if q < d {
      MulMonotone(d, q, d - 1);
      PrimeBySquareRoot(t, d);
    } else {
      MulMonotone(d, 2, q);
      if r == 0 { ProperDivisorIsComposite(d, t); }
    }
  }

  lemma SmallDivisor(t: nat, p: nat)
    requires 2 <= p < t && t % p == 0
    ensures !IsPrime(t)
  {
    assert Divides(p, t);
  }

  /** The walk over 11, 13, 17, 19, 23, ... stops for every t, and answers 1
      exactly on the primes. */
  method TestPrime(t: nat) returns (prime: bool)
    requires t < 0x1_0000_0000_0000_0000
    ensures prime <==> IsPrime(t)
  {
    hide *;
    if t < 32 {
      SmallPrimeBits(t);
      return ShiftRight(SMALL_PRIME_BITS, t) % 2 == 1;
    }
    if t % 2 == 0 { SmallDivisor(t, 2); return false; }
    if t % 3 == 0 { SmallDivisor(t, 3); return false; }
    if t % 5 == 0 { SmallDivisor(t, 5); return false; }
    if t % 7 == 0 { SmallDivisor(t, 7); return false; }
    CoprimeTo210(t);
    var d := 11;
    while true
      invariant 11 <= d && d % 6 == 5
      invariant NoDivisorBelow(t, d)
      decreases t - d
    {
      var q := Quotient(t, d);
      var r := Remainder(t, d, q);
      DivisionStep(t, d, q, r);
      if q < d {
        return true;
      }
      if r == 0 {
        break;
      }
      AdvanceTwo(t, d);
      d := d + 2;
      q := Quotient(t, d);
      r := Remainder(t, d, q);
      DivisionStep(t, d, q, r);
      if q < d {
        return true;
      }
      if r == 0 {
        break;
      }
      AdvanceFour(t, d);
      d := d + 4;
    }
    return false;
  }
}
