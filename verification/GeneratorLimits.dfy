/** Where the generator of nextprime.c and the primes part: two explicit windows near
    2^64, one that drops a prime and one that returns a composite number. */
module GeneratorLimits {
  import opened Arithmetic
  import opened Primes
  import opened Wheel
  import opened WitnessPrimes
  import opened WordArithmetic
  import opened NextPrime

  // ---------------------------------------------------------------- trial division

  /** None of the 32 odd numbers from w on divides n. */
  ghost predicate BlockClear(n: nat, w: nat)
    requires 0 < w
  {
    && n % w != 0 && n % (w + 2) != 0 && n % (w + 4) != 0 && n % (w + 6) != 0
    && n % (w + 8) != 0 && n % (w + 10) != 0 && n % (w + 12) != 0 && n % (w + 14) != 0
    && n % (w + 16) != 0 && n % (w + 18) != 0 && n % (w + 20) != 0 && n % (w + 22) != 0
    && n % (w + 24) != 0 && n % (w + 26) != 0 && n % (w + 28) != 0 && n % (w + 30) != 0
    && n % (w + 32) != 0 && n % (w + 34) != 0 && n % (w + 36) != 0 && n % (w + 38) != 0
    && n % (w + 40) != 0 && n % (w + 42) != 0 && n % (w + 44) != 0 && n % (w + 46) != 0
    && n % (w + 48) != 0 && n % (w + 50) != 0 && n % (w + 52) != 0 && n % (w + 54) != 0
    && n % (w + 56) != 0 && n % (w + 58) != 0 && n % (w + 60) != 0 && n % (w + 62) != 0
  }

  ghost predicate BlocksClear(n: nat, w: nat, k: nat)
    requires 0 < w
    decreases k
  {
    k == 0 || (BlockClear(n, w) && BlocksClear(n, w + 64, k - 1))
  }

  lemma BlockHasNoDivisor(n: nat, w: nat, i: nat)
    requires 0 < w && i < 32 && BlockClear(n, w)
    ensures !Divides(w + 2 * i, n)
  {
    assert i in {0, 1, 2, 3, 4, 5, 6, 7, 8, 9, 10, 11, 12, 13, 14, 15,
      16, 17, 18, 19, 20, 21, 22, 23, 24, 25, 26, 27, 28, 29, 30, 31};
  }

  lemma {:induction false} NoOddDivisor(n: nat, w: nat, k: nat, d: nat)
    requires 0 < w <= d < w + 64 * k && (d - w) % 2 == 0 && BlocksClear(n, w, k)
    ensures !Divides(d, n)
    decreases k
  {
    hide BlockClear, Divides;
    if d < w + 64 {
      var i := (d - w) / 2;
      assert d == w + 2 * i;
      BlockHasNoDivisor(n, w, i);
    } else {
      NoOddDivisor(n, w + 64, k - 1, d);
    }
  }

  /** An odd number without odd divisors below `bound` has no divisors there. */
  lemma NoDivisorBelow(n: nat, bound: nat, d: nat)
    requires n % 2 == 1 && 2 <= d < bound
    requires forall w :: 3 <= w < bound && w % 2 == 1 ==> !Divides(w, n)
    ensures !Divides(d, n)
  {
    if d % 2 == 0 && Divides(d, n) {
      DividesTransitive(2, d, n);
      assert false;
    }
  }

  // ---------------------------------------------------------------- a prime that is dropped

  lemma SmallestLinkIsPrime()
    ensures IsPrime(78497)
  {
    hide BlockClear, Divides, IsPrime;
    SmallestLinkClear();
    forall d | 2 <= d < 323
      ensures !Divides(d, 78497)
    {
      forall w | 3 <= w < 323 && w % 2 == 1
        ensures !Divides(w, 78497)
      {
        NoOddDivisor(78497, 3, 5, w);
      }
      NoDivisorBelow(78497, 323, d);
    }
    PrimeBySquareRoot(78497, 323);
  }

  lemma SmallestLinkClear()
    ensures BlocksClear(78497, 3, 5)
  {
  }

  lemma MiddleLinkIsPrime()
    ensures IsPrime(4304775481)
  {
    hide IsPrime, PowerIs;
    SmallestLinkIsPrime();
    FirstPower(1776843355, 4304775481);
    FourSteps(1776843355, 1, 4304775481, 1776843355,
      0, 608472577, 0, 2229946822, 1, 2447655630, 1, 3559025556);
    FourSteps(1776843355, 19, 4304775481, 3559025556,
      0, 656809373, 0, 1951268660, 1, 1665383563, 0, 3381674577);
    FourSteps(1776843355, 306, 4304775481, 3381674577,
      1, 330678687, 0, 2548651281, 1, 2843586136, 0, 2520195140);
    FourSteps(1776843355, 4906, 4304775481, 2520195140,
      0, 3135957516, 0, 3145247636, 0, 1177126350, 1, 1);
    Pocklington(4304775481, 78497, 1776843355, 3343230203);
  }

  /** The start of a window, 2^64 - 1675320317. */
  const DROPPED: nat := 18446744072034231299

  lemma DroppedPowers()
    ensures PowerIs(15844732214827497162, 4304775481, DROPPED, 1)
  {
    hide PowerIs;
    FirstPower(15844732214827497162, 18446744072034231299);
    FourSteps(15844732214827497162, 1, 18446744072034231299, 15844732214827497162,
      0, 14033559811747717461, 0, 18298814324824619500, 0, 15086099008337461652, 0, 5760813609710612800);
    FourSteps(15844732214827497162, 16, 18446744072034231299, 5760813609710612800,
      0, 17990551481943257164, 0, 11057843474152946695, 0, 9084465460562486179, 0, 8097344814850739584);
    FourSteps(15844732214827497162, 256, 18446744072034231299, 8097344814850739584,
      1, 10454430629202319788, 0, 17496741150868399587, 0, 10609100580656761933, 1, 18031207325040923234);
    FourSteps(15844732214827497162, 4105, 18446744072034231299, 18031207325040923234,
      0, 12600124347356882570, 1, 1599912423362934690, 0, 7139296638860291668, 1, 13538015364957733899);
    FourSteps(15844732214827497162, 65685, 18446744072034231299, 13538015364957733899,
      1, 16399256373091175991, 0, 18326521061511534596, 1, 4218856578418646333, 0, 12266753645125158544);
    FourSteps(15844732214827497162, 1050970, 18446744072034231299, 12266753645125158544,
      1, 10229344609220508426, 0, 9595015285151866643, 0, 8982216646204820184, 1, 14672900725949370142);
    FourSteps(15844732214827497162, 16815529, 18446744072034231299, 14672900725949370142,
      0, 7420233462246466042, 0, 196719402192618105, 1, 2784668380680870108, 1, 9242347742987216823);
    FourSteps(15844732214827497162, 269048467, 18446744072034231299, 9242347742987216823,
      1, 10093899249375482871, 0, 9907210664629526609, 0, 12535218492555179638, 1, 1);
  }

  lemma DroppedIsPrime()
    ensures IsPrime(DROPPED)
  {
    hide IsPrime, PowerIs;
    MiddleLinkIsPrime();
    DroppedPowers();
    Pocklington(DROPPED, 4304775481, 15844732214827497162, 9957448350169916101);
  }

  /** The window at DROPPED fits a word and starts with a prime, and the generator
      skips it: s0 + p is 2^64 for the sieving number p = 1675320317, so entry 0 is
      struck although p does not divide it. */
  lemma GeneratorDropsAPrime()
    ensures StartOf(DROPPED) == DROPPED && Fits(DROPPED) && IsPrime(DROPPED)
    ensures !Divides(1675320317, DROPPED) && StrikeStart(DROPPED, 1675320317) == 0
    ensures Misjudged(DROPPED, DROPPED) && !Generated(DROPPED)
  {
    hide IsPrime, RunsPast, FactorBelow;
    DroppedIsPrime();
    RootLoopOvershoots(DROPPED + 2 * SIEVESIZE - 1);
    PassedEarlier(1675320317, H, DROPPED + 2 * SIEVESIZE - 1);
    StartPastWord(DROPPED, 1675320317);
  }

  lemma PassedEarlier(x: nat, root: nat, end: int)
    requires x <= root && RunsPast(root, end)
    ensures RunsPast(x, end)
  {
    hide Square;
  }

  // ---------------------------------------------------------------- a composite that is returned

  /** 18446744073709549579 = 253103 * 72882360437093, in the last window that fits a word. */
  const RETURNED: nat := 18446744073709549579

  lemma ReturnedClear0()
    ensures BlocksClear(RETURNED, 3, 4)
  {
  }

  lemma ReturnedClear1()
    ensures BlocksClear(RETURNED, 259, 4)
  {
  }

  lemma ReturnedClear2()
    ensures BlocksClear(RETURNED, 515, 4)
  {
  }

  lemma ReturnedClear3()
    ensures BlocksClear(RETURNED, 771, 4)
  {
  }

  lemma ReturnedClear4()
    ensures BlocksClear(RETURNED, 1027, 4)
  {
  }

  lemma ReturnedClear5()
    ensures BlocksClear(RETURNED, 1283, 4)
  {
  }

  lemma ReturnedClear6()
    ensures BlocksClear(RETURNED, 1539, 4)
  {
  }

  lemma ReturnedClear7()
    ensures BlocksClear(RETURNED, 1795, 4)
  {
  }

  lemma NoSmallDivisor(w: nat)
    requires 2 <= w < 2045
    ensures !Divides(w, RETURNED)
  {
    hide Divides, BlocksClear;
    ReturnedClear0();
    ReturnedClear1();
    ReturnedClear2();
    ReturnedClear3();
    ReturnedClear4();
    ReturnedClear5();
    ReturnedClear6();
    ReturnedClear7();
    forall d | 3 <= d < 2045 && d % 2 == 1
      ensures !Divides(d, RETURNED)
    {
      var base := 3 + 256 * ((d - 3) / 256);
      assert base in {3, 259, 515, 771, 1027, 1283, 1539, 1795};
      NoOddDivisor(RETURNED, base, 4, d);
    }
    NoDivisorBelow(RETURNED, 2045, w);
  }

  /** The generator returns a composite number, 253103 times another: in the last window
      s0 + p wraps for every p from 2045 on, and it has no smaller factor. */
  lemma GeneratorReturnsAComposite()
    ensures StartOf(RETURNED) == B - 2045 && Fits(RETURNED) && !IsPrime(RETURNED)
    ensures Misjudged(StartOf(RETURNED), RETURNED) && Generated(RETURNED)
  {
    hide IsPrime, StartDropped;
    assert Divides(253103, RETURNED);
    ProperDivisorIsComposite(253103, RETURNED);
    forall w | 2 <= w < 2045
      ensures !ProperDivisor(w, RETURNED)
    {
      NoSmallDivisor(w);
    }
  }
}
