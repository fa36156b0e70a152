/** One block of the segmented wheel sieve (block_resieve in primesieve.c). */
module BlockSieve {
  import opened Arithmetic
  import opened Primes
  import opened Limbs
  import opened SievePattern
  import opened Progressions

  /** mp_size_t, a signed word. */
  type Size = x: int | -0x8000_0000_0000_0000 <= x < 0x8000_0000_0000_0000

  /** id_to_n: the i-th candidate, counting 5 as the first. */
  function IdToN(i: nat): nat {
    3 * i + 1 + i % 2
  }

  /** The bit of IdToN(i) squared, as block_resieve computes it. */
  function SquareBit(i: nat): int {
    i * (IdToN(i) + 1) - 1 + (if i % 2 == 1 then i + 1 else 0)
  }

  /** The bit of IdToN(i) times the next candidate. */
  function CrossBit(i: nat): nat {
    i * (i * 3 + 6) + i % 2
  }

  lemma IdIsPreviousBit(i: nat)
    requires 0 < i
    ensures IdToN(i) == BitToN(i - 1)
  {
  }

  lemma EvenId(h: nat)
    ensures IdToN(2 * h) == 6 * h + 1 && BitToN(2 * h) == 6 * h + 5
    ensures SquareBit(2 * h) == 2 * (6 * (h * h) + 2 * h - 1) + 1
    ensures CrossBit(2 * h) == 2 * (6 * (h * h) + 6 * h)
  {
    assert 2 * h * (6 * h + 2) == 12 * (h * h) + 4 * h;
    assert 2 * h * (6 * h + 6) == 12 * (h * h) + 12 * h;
  }

  lemma OddId(h: nat)
    ensures IdToN(2 * h + 1) == 6 * h + 5 && BitToN(2 * h + 1) == 6 * h + 7
    ensures SquareBit(2 * h + 1) == 2 * (6 * (h * h) + 10 * h + 3) + 1
    ensures CrossBit(2 * h + 1) == 2 * (6 * (h * h) + 12 * h + 5)
  {
    assert (2 * h + 1) * (6 * h + 6) == 12 * (h * h) + 18 * h + 6;
    assert (2 * h + 1) * (6 * h + 9) == 12 * (h * h) + 24 * h + 9;
  }

  lemma BitToNOdd(x: nat)
    ensures BitToN(2 * x + 1) == 6 * x + 7
    ensures BitToN(2 * x) == 6 * x + 5
  {
  }

  lemma SquareBitCorrect(i: nat)
    requires 0 < i
    ensures 0 <= SquareBit(i)
    ensures BitToN(SquareBit(i)) == IdToN(i) * IdToN(i)
  {
    hide *;
    var h := i / 2;
    if i == 2 * h {
      EvenId(h);
      MulMonotone(h, 1, h);
      BitToNOdd(6 * (h * h) + 2 * h - 1);
      assert (6 * h + 1) * (6 * h + 1) == 36 * (h * h) + 12 * h + 1;
    } else {
      OddId(h);
      MulMonotone(h, 0, h);
      BitToNOdd(6 * (h * h) + 10 * h + 3);
      assert (6 * h + 5) * (6 * h + 5) == 36 * (h * h) + 60 * h + 25;
    }
  }

  lemma CrossBitCorrect(i: nat)
    requires 0 < i
    ensures BitToN(CrossBit(i)) == IdToN(i) * BitToN(i)
  {
    hide *;
    var h := i / 2;
    MulMonotone(h, 0, h);
    if i == 2 * h {
      EvenId(h);
      BitToNOdd(6 * (h * h) + 6 * h);
      assert (6 * h + 1) * (6 * h + 5) == 36 * (h * h) + 36 * h + 5;
    } else {
      OddId(h);
      BitToNOdd(6 * (h * h) + 12 * h + 5);
      assert (6 * h + 5) * (6 * h + 7) == 36 * (h * h) + 72 * h + 35;
    }
  }

  lemma BitToNMonotone(x: nat, y: nat)
    ensures x < y <==> BitToN(x) < BitToN(y)
  {
  }

  lemma TermIsMultiple(p: nat, m0: nat, b0: nat, x: nat) returns (k: nat)
    requires 0 < p && BitToN(b0) == p * m0 && OnProgression(x, b0, 2 * p)
    ensures BitToN(x) == p * (m0 + 6 * k)
  {
    var d := x - b0;
    k := d / (2 * p);
    DivModIdentity(d, 2 * p);
    assert d == 2 * (p * k);
    BitToNAdvance(b0, p * k);
    Rearrange(p, m0, k);
  }

  lemma MultipleIsTerm(p: nat, m0: nat, b0: nat, x: nat, k: nat)
    requires 0 < p && BitToN(b0) == p * m0 && BitToN(x) == p * (m0 + 6 * k)
    ensures OnProgression(x, b0, 2 * p)
  {
    MulMonotone(p, 0, k);
    BitToNAdvance(b0, p * k);
    Rearrange(p, m0, k);
    BitToNMonotone(x, b0 + 2 * (p * k));
    BitToNMonotone(b0 + 2 * (p * k), x);
    assert x - b0 == k * (2 * p);
    DivModUnique(x - b0, 2 * p, k, 0);
  }

  lemma Rearrange(p: int, m: int, k: int)
    ensures p * (m + 6 * k) == p * m + 6 * (p * k)
  {
  }

  lemma TermExceedsSquare(p: nat, m0: nat, k: nat)
    requires 0 < p <= m0
    ensures Divides(p, p * (m0 + 6 * k)) && p * p <= p * (m0 + 6 * k)
  {
    MultipleIsDivisible(p, m0 + 6 * k);
    MulMonotone(p, p, m0 + 6 * k);
  }

  /** The two progressions of the sieving number IdToN(i) cover exactly its
      multiples from its square on. */
  lemma ProgressionsCoverMultiples(i: nat, x: nat)
    requires 0 < i
    ensures 0 <= SquareBit(i)
    ensures
      var p := IdToN(i);
      OnProgression(x, SquareBit(i), 2 * p) || OnProgression(x, CrossBit(i), 2 * p) <==>
        Divides(p, BitToN(x)) && p * p <= BitToN(x)
  {
    hide OnProgression, SquareBit, CrossBit, Divides;
    var p, q := IdToN(i), BitToN(i);
    SquareBitCorrect(i);
    CrossBitCorrect(i);
    if OnProgression(x, SquareBit(i), 2 * p) {
      var k := TermIsMultiple(p, p, SquareBit(i), x);
      TermExceedsSquare(p, p, k);
    }
    if OnProgression(x, CrossBit(i), 2 * p) {
      var k := TermIsMultiple(p, q, CrossBit(i), x);
      TermExceedsSquare(p, q, k);
    }
    if Divides(p, BitToN(x)) && p * p <= BitToN(x) {
      var m := BitToN(x) / p;
      DivisibleIsMultiple(p, BitToN(x));
      if m < p { MulStrictlyMonotone(p, m, p); }
      BitToNCoprimeTo6(x);
      CofactorCoprimeTo6(p, m);
      var k := WheelPosition(i, m);
      if m == p + 6 * k {
        MultipleIsTerm(p, p, SquareBit(i), x, k);
      } else {
        MultipleIsTerm(p, q, CrossBit(i), x, k);
      }
    }
  }

  lemma CofactorCoprimeTo6(p: int, m: int)
    requires (p * m) % 2 == 1 && (p * m) % 3 != 0
    ensures m % 2 == 1 && m % 3 != 0
  {
    NotMultiple(p, m, 2);
    NotMultiple(p, m, 3);
  }

  lemma NotMultiple(p: int, m: int, d: int)
    requires 0 < d && (p * m) % d != 0
    ensures m % d != 0
  {
    if m % d == 0 {
      var k := m / d;
      DivModIdentity(m, d);
      MulAssociates(p, k, d);
      DivModUnique(p * m, d, p * k, 0);
    }
  }

  /** A number prime to 6 and not below IdToN(i) follows it or its successor by sixes. */
  lemma WheelPosition(i: nat, m: int) returns (k: nat)
    requires 0 < i && IdToN(i) <= m && m % 2 == 1 && m % 3 != 0
    ensures m == IdToN(i) + 6 * k || m == BitToN(i) + 6 * k
  {
    hide *;
    var h, t := i / 2, m / 6;
    SixthRoots(m);
    if i == 2 * h {
      EvenId(h);
      k := t - h;
    } else {
      OddId(h);
      k := if m == 6 * t + 5 then t - h else t - h - 1;
    }
  }

  lemma SixthRoots(m: int)
    requires m % 2 == 1 && m % 3 != 0
    ensures m == 6 * (m / 6) + 1 || m == 6 * (m / 6) + 5
  {
    var c := m % 6;
    assert c != 0 && c != 2 && c != 3 && c != 4;
  }

  // ---------------------------------------------------------------- marking one progression

  /** Where marking starts: the first term, or past `off` by whole steps. */
  function RoundUp(first: nat, step: nat, off: nat): int
    requires 0 < step
  {
    if first < off then first + step * ((off - first - 1) / step + 1) else first
  }

  /** Rounding up reaches the first term that is not below `off`. */
  lemma RoundUpToBlock(first: nat, step: nat, off: nat)
    requires 0 < step
    ensures off <= RoundUp(first, step, off)
    ensures first <= RoundUp(first, step, off)
    ensures RoundUp(first, step, off) < off + step || RoundUp(first, step, off) == first
    ensures OnProgression(RoundUp(first, step, off), first, step)
    ensures NoTermIn(off, RoundUp(first, step, off), first, step)
  {
    var start := RoundUp(first, step, off);
    if first < off {
      var q := (off - first - 1) / step;
      DivModIdentity(off - first - 1, step);
      assert start - first == (q + 1) * step;
      DivModUnique(start - first, step, q + 1, 0);
      forall x: nat | off <= x < start
        ensures !OnProgression(x, first, step)
      {
        if OnProgression(x, first, step) {
          var k := (x - first) / step;
          DivModIdentity(x - first, step);
          if k <= q { MulMonotone(step, k, q); } else { MulMonotone(step, q + 1, k); }
          assert false;
        }
      }
    } else {
      DivModUnique(0, step, 0, 0);
    }
  }

  /** The limb at index l after the terms below `next` are marked. */
  ghost predicate MarkedLimb(now: Limb, was: Limb, l: nat, first: nat, step: nat, next: nat)
    requires 0 < step
  {
    forall k :: 0 <= k < 64 ==> now[k] == (was[k] || Reached(64 * l + k, first, step, next))
  }

  lemma UnmarkedLimb(x: Limb, l: nat, first: nat, step: nat, off: nat, start: nat)
    requires 0 < step && off <= 64 * l && NoTermIn(off, start, first, step)
    ensures MarkedLimb(x, x, l, first, step, start)
  {
    hide OnProgression;
  }

  lemma MarkOne(now: Limb, was: Limb, l: nat, first: nat, step: nat, base: nat, lindex: nat)
    requires 0 < step && OnProgression(64 * base + lindex, first, step)
    requires MarkedLimb(now, was, l, first, step, 64 * base + lindex)
    ensures MarkedLimb(if l == base + lindex / 64 then Or(now, OneHot(lindex % 64)) else now,
                       was, l, first, step, 64 * base + lindex + step)
  {
    hide OnProgression;
    var next := 64 * base + lindex;
    NextTerm(first, step, next);
    var after := if l == base + lindex / 64 then Or(now, OneHot(lindex % 64)) else now;
    forall k | 0 <= k < 64
      ensures after[k] == (was[k] || Reached(64 * l + k, first, step, next + step))
    {
      assert after[k] == (now[k] || 64 * l + k == next);
    }
  }

  lemma NextMask(lindex: nat, step: nat)
    requires step % 64 != 0
    ensures RotateLeft(OneHot(lindex % 64), step % 64) == OneHot((lindex + step) % 64)
  {
    hide OneHot, RotateLeft;
    RotateOneHot(lindex % 64, step % 64);
    DivModIdentity(lindex, 64);
    DivModIdentity(step, 64);
    ModAddMultiple(lindex % 64 + step % 64, lindex / 64 + step / 64, 64);
  }

  lemma MarkedPastEnd(now: Limb, was: Limb, l: nat, first: nat, step: nat, next: nat, end: nat)
    requires 0 < step && 64 * l + 64 <= end <= next
    requires MarkedLimb(now, was, l, first, step, next)
    ensures MarkedLimb(now, was, l, first, step, end)
  {
  }

  /** Marks every term of the progression that falls into the block. `lmask` is the
      one-bit mask of the next term at all times, and the index never leaves a word. */
  method Mark(a: array<Limb>, base: nat, limbs: nat, first: nat, step: nat)
    requires base + limbs <= a.Length && 0 < limbs
    requires 0 < step && step % 64 != 0
    requires 64 * (base + limbs) + step <= 0x8000_0000_0000_0000 && first < 0x8000_0000_0000_0000
    modifies a
    ensures forall l :: base <= l < base + limbs ==> MarkedLimb(a[l], old(a[l]), l, first, step, 64 * (base + limbs))
    ensures forall l :: 0 <= l < base || base + limbs <= l < a.Length ==> a[l] == old(a[l])
  {
    hide *;
    var off, bits := 64 * base, 64 * limbs - 1;
    var maskrot := step % 64;
    RoundUpToBlock(first, step, off);
    var lindex: Size := RoundUp(first, step, off);
    forall l | base <= l < base + limbs
      ensures MarkedLimb(a[l], a[l], l, first, step, lindex)
    {
      UnmarkedLimb(a[l], l, first, step, off, lindex);
    }
    lindex := lindex - off;
    var lmask := OneHot(lindex % 64);
    while lindex <= bits
      invariant 0 <= lindex && OnProgression(off + lindex, first, step)
      invariant lmask == OneHot(lindex % 64)
      invariant forall l :: base <= l < base + limbs ==>
        MarkedLimb(a[l], old(a[l]), l, first, step, off + lindex)
      invariant forall l :: 0 <= l < base || base + limbs <= l < a.Length ==> a[l] == old(a[l])
      decreases bits - lindex
    {
      NextTerm(first, step, off + lindex);
      NextMask(lindex, step);
      var c := base + lindex / 64;
      forall l | base <= l < base + limbs
        ensures MarkedLimb(if l == c then Or(a[l], lmask) else a[l], old(a[l]), l, first, step, off + lindex + step)
      {
        MarkOne(a[l], old(a[l]), l, first, step, base, lindex);
      }
      a[c] := Or(a[c], lmask);
      lmask := RotateLeft(lmask, maskrot);
      lindex := lindex + step;
    }
    forall l | base <= l < base + limbs
      ensures MarkedLimb(a[l], old(a[l]), l, first, step, 64 * (base + limbs))
    {
      MarkedPastEnd(a[l], old(a[l]), l, first, step, off + lindex, 64 * (base + limbs));
    }
  }

  // ---------------------------------------------------------------- sieving a block

  /** Limb l of the finished sieve: a bit is set exactly for a composite number. */
  ghost predicate SievedLimb(x: Limb, l: nat) {
    forall k :: 0 <= k < 64 ==> x[k] == !IsPrime(BitToN(64 * l + k))
  }

  ghost predicate MultipleOf(n: nat, j: nat) {
    IsPrime(IdToN(j)) && Divides(IdToN(j), n) && IdToN(j) * IdToN(j) <= n
  }

  /** n has a prime factor among the sieving numbers 17 .. IdToN(i), not above its root. */
  ghost predicate FactorUpTo(n: nat, i: nat) {
    exists j :: 5 <= j <= i && MultipleOf(n, j)
  }

  /** Limb l of a block after the sieving numbers up to the i-th are done. */
  ghost predicate PartlySieved(x: Limb, l: nat, i: nat) {
    forall k :: 0 <= k < 64 ==>
      x[k] == (SmallFactor(BitToN(64 * l + k)) || FactorUpTo(BitToN(64 * l + k), i))
  }

  lemma FactorStep(n: nat, i: nat)
    requires 4 <= i
    ensures FactorUpTo(n, i + 1) <==> FactorUpTo(n, i) || MultipleOf(n, i + 1)
  {
    hide MultipleOf;
    if FactorUpTo(n, i) {
      var j :| 5 <= j <= i && MultipleOf(n, j);
      assert 5 <= j <= i + 1;
    }
  }

  lemma StartOfBlock(x: Limb, l: nat)
    requires Filled(x, 64 * l)
    ensures PartlySieved(x, l, 4)
  {
    hide SmallFactor, MultipleOf, BitToN;
  }

  lemma SkipComposite(x: Limb, l: nat, i: nat)
    requires 4 <= i && !IsPrime(IdToN(i + 1)) && PartlySieved(x, l, i)
    ensures PartlySieved(x, l, i + 1)
  {
    hide SmallFactor, IsPrime, Divides, BitToN, FactorUpTo;
    forall k | 0 <= k < 64
      ensures x[k] == (SmallFactor(BitToN(64 * l + k)) || FactorUpTo(BitToN(64 * l + k), i + 1))
    {
      FactorStep(BitToN(64 * l + k), i);
    }
  }

  /** Marking both progressions of a prime completes its step. */
  lemma MarkPrime(x0: Limb, x1: Limb, x2: Limb, l: nat, i: nat, end: nat)
    requires 4 <= i && 64 * l + 64 <= end && IsPrime(IdToN(i + 1)) && 0 <= SquareBit(i + 1)
    requires PartlySieved(x0, l, i)
    requires MarkedLimb(x1, x0, l, SquareBit(i + 1), 2 * IdToN(i + 1), end)
    requires MarkedLimb(x2, x1, l, CrossBit(i + 1), 2 * IdToN(i + 1), end)
    ensures PartlySieved(x2, l, i + 1)
  {
    hide SmallFactor, IsPrime, Divides, BitToN, FactorUpTo, OnProgression, SquareBit, CrossBit;
    var p := IdToN(i + 1);
    forall k | 0 <= k < 64
      ensures x2[k] == (SmallFactor(BitToN(64 * l + k)) || FactorUpTo(BitToN(64 * l + k), i + 1))
    {
      FactorStep(BitToN(64 * l + k), i);
      ProgressionsCoverMultiples(i + 1, 64 * l + k);
      assert x1[k] == (x0[k] || OnProgression(64 * l + k, SquareBit(i + 1), 2 * p));
      assert x2[k] == (x1[k] || OnProgression(64 * l + k, CrossBit(i + 1), 2 * p));
    }
  }

  lemma IdMonotone(i: nat, j: nat)
    requires i < j
    ensures IdToN(i) < IdToN(j)
  {
  }

  lemma IdOfCandidate(p: nat) returns (j: nat)
    requires 2 <= p && p % 2 == 1 && p % 3 != 0
    ensures 1 <= j && IdToN(j) == p
  {
    hide *;
    SixthRoots(p);
    var t := p / 6;
    if p == 6 * t + 1 {
      j := 2 * t;
      EvenId(t);
    } else {
      j := 2 * t + 1;
      OddId(t);
    }
  }

  lemma SmallFactorIsComposite(n: nat)
    requires 13 < n && SmallFactor(n)
    ensures !IsPrime(n)
  {
    assert Divides(5, n) || Divides(7, n) || Divides(11, n) || Divides(13, n);
  }

  lemma FactorIsComposite(n: nat, i: nat)
    requires FactorUpTo(n, i)
    ensures !IsPrime(n)
  {
    hide IsPrime, Divides;
    var j :| 5 <= j <= i && MultipleOf(n, j);
    var p := IdToN(j);
    MulStrictlyMonotone(p, 1, p);
    ProperDivisorIsComposite(p, n);
  }

  lemma CompositeHasFactor(n: nat, i: nat)
    requires 2 <= n && n % 2 == 1 && n % 3 != 0 && !IsPrime(n)
    requires 5 <= i && n < IdToN(i) * IdToN(i)
    ensures SmallFactor(n) || FactorUpTo(n, i - 1)
  {
    hide IsPrime, IdToN, SmallFactor, Divides;
    var p := LeastFactor(n);
    DivisibleIsMultiple(p, n);
    CofactorCoprimeTo6(n / p, p);
    var j := IdOfCandidate(p);
    if i <= j {
      if i < j { IdMonotone(i, j); }
      MulMonotone(IdToN(i), IdToN(i), p);
      MulMonotone(p, IdToN(i), p);
      assert false;
    }
    if j < 5 {
      SmallIds(j, n);
    } else {
      assert MultipleOf(n, j);
    }
  }

  lemma SmallIds(j: nat, n: nat)
    requires 1 <= j < 5 && 0 < IdToN(j) && Divides(IdToN(j), n)
    ensures SmallFactor(n)
  {
    assert j == 1 || j == 2 || j == 3 || j == 4;
  }

  /** When the loop stops, the block is exactly sieved. */
  lemma EndOfBlock(x: Limb, l: nat, i: nat)
    requires 28 <= l && 5 <= i && 64 * l + 64 <= SquareBit(i)
    requires PartlySieved(x, l, i - 1)
    ensures SievedLimb(x, l)
  {
    hide SmallFactor, IsPrime, FactorUpTo, IdToN, SquareBit;
    forall k | 0 <= k < 64
      ensures x[k] == !IsPrime(BitToN(64 * l + k))
    {
      var n := BitToN(64 * l + k);
      SquareBitCorrect(i);
      BitToNMonotone(64 * l + k, SquareBit(i));
      BitToNCoprimeTo6(64 * l + k);
      if SmallFactor(n) { SmallFactorIsComposite(n); }
      if FactorUpTo(n, i - 1) { FactorIsComposite(n, i - 1); }
      if !IsPrime(n) { CompositeHasFactor(n, i); }
    }
  }

  lemma SquareBitMonotone(i: nat, j: nat)
    requires 0 < i <= j
    ensures SquareBit(i) <= SquareBit(j)
  {
    hide *;
    if i < j {
      SquareBitCorrect(i);
      SquareBitCorrect(j);
      IdMonotone(i, j);
      MulMonotone(IdToN(i), IdToN(i), IdToN(j));
      MulMonotone(IdToN(j), IdToN(i), IdToN(j));
      BitToNMonotone(SquareBit(j), SquareBit(i));
    }
  }

  lemma SieveBit(x: Limb, i: nat)
    requires SievedLimb(x, i / 64)
    ensures And(x, OneHot(i % 64)) == Zero() <==> IsPrime(IdToN(i + 1))
  {
    hide IsPrime;
    OneHotDetects(x, i % 64);
    IdIsPreviousBit(i + 1);
    assert 64 * (i / 64) + i % 64 == i;
  }

  lemma NextSieveBit(i: nat)
    ensures RotateLeft(OneHot(i % 64), 1) == OneHot((i + 1) % 64)
    ensures (i + 1) / 64 == i / 64 + if OneHot((i + 1) % 64)[0] then 1 else 0
  {
    RotateOneHot(i % 64, 1);
  }

  lemma StepIsNoMultipleOf64(i: nat)
    ensures 0 < 2 * IdToN(i) && (2 * IdToN(i)) % 64 != 0
  {
  }

  /** The first terms of both progressions and their step stay inside a signed word,
      as long as the square lies inside the block. */
  lemma IndicesFit(i: nat)
    requires 0 < i && SquareBit(i) < 0x6000_0000_0000_0000
    ensures 2 * IdToN(i) < 0x4_0000_0000 && CrossBit(i) < 0x7000_0000_0000_0000
  {
    hide *;
    SquareBitCorrect(i);
    CrossBitCorrect(i);
    var p := IdToN(i);
    CandidateBounds(SquareBit(i));
    CandidateBounds(CrossBit(i));
    NextCandidateBound(i);
    if 0x2_0000_0000 <= p {
      MulMonotone(0x2_0000_0000, 0x2_0000_0000, p);
      MulMonotone(p, 0x2_0000_0000, p);
    }
    MulMonotone(p, BitToN(i), p + 4);
    MulDistributes(p, p, 4);
  }

  lemma CandidateBounds(b: nat)
    ensures 3 * b + 4 <= BitToN(b) <= 3 * b + 5
  {
  }

  lemma NextCandidateBound(i: nat)
    requires 0 < i
    ensures BitToN(i) <= IdToN(i) + 4
  {
  }

  /** block_resieve: sieves the limbs base .. base + limbs - 1, reading the primes
      from the limbs before them. The loop has no exit but the one at a prime whose
      square lies past the block; `w` is the bit of some such prime. */
  method BlockResieve(a: array<Limb>, base: nat, limbs: nat,
                      m: Masks, ghost p1: seq<bool>, ghost p2: seq<bool>, ghost w: nat)
    requires 28 <= base && 0 < limbs && base + limbs <= a.Length
    requires ValidMasks(m, p1, p2)
    requires forall l :: 0 <= l < base ==> SievedLimb(a[l], l)
    requires 4 <= w < 64 * base && IsPrime(BitToN(w)) && 64 * (base + limbs) <= SquareBit(w + 1)
    requires 64 * (base + limbs) < 0x6000_0000_0000_0000 && SquareBit(w + 1) < 0x8000_0000_0000_0000
    modifies a
    ensures forall l :: 0 <= l < base + limbs ==> SievedLimb(a[l], l)
    ensures forall l :: 0 <= l < base || base + limbs <= l < a.Length ==> a[l] == old(a[l])
  {
    hide *;
    var bits := 64 * limbs - 1;
    var off := 64 * base;
    var i := FillBitPattern(a, base, limbs, off, m, p1, p2);
    forall l | base <= l < base + limbs
      ensures PartlySieved(a[l], l, i)
    {
      assert Filled(a[base + (l - base)], off + 64 * (l - base));
      StartOfBlock(a[l], l);
    }
    IdIsPreviousBit(w + 1);
    var mask := OneHot(i % 64);
    var sieve := 0;
    while true
      invariant 4 <= i <= w
      invariant mask == OneHot(i % 64) && sieve == i / 64
      invariant forall l :: base <= l < base + limbs ==> PartlySieved(a[l], l, i)
      invariant forall l :: 0 <= l < base ==> SievedLimb(a[l], l)
      invariant forall l :: 0 <= l < base || base + limbs <= l < a.Length ==> a[l] == old(a[l])
      decreases w - i
    {
      SieveBit(a[sieve], i);
      i := i + 1;
      if And(a[sieve], mask) == Zero() {
        var step := IdToN(i);
        SquareBitMonotone(i, w + 1);
        SquareBitCorrect(i);
        var lindex: Size := SquareBit(i);
        if lindex > bits + off {
          break;
        }
        step := 2 * step;
        StepIsNoMultipleOf64(i);
        IndicesFit(i);
        ghost var before := a[..];
        Mark(a, base, limbs, lindex, step);
        ghost var between := a[..];
        Mark(a, base, limbs, CrossBit(i), step);
        forall l | base <= l < base + limbs
          ensures PartlySieved(a[l], l, i)
        {
          MarkPrime(before[l], between[l], a[l], l, i - 1, 64 * (base + limbs));
        }
      } else {
        forall l | base <= l < base + limbs
          ensures PartlySieved(a[l], l, i)
        {
          SkipComposite(a[l], l, i - 1);
        }
      }
      NextSieveBit(i - 1);
      mask := RotateLeft(mask, 1);
      sieve := sieve + if mask[0] then 1 else 0;
    }
    forall l | base <= l < base + limbs
      ensures SievedLimb(a[l], l)
    {
      EndOfBlock(a[l], l, i);
    }
  }
}
