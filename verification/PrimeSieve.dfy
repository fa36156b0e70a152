/** The whole sieve (gmp_primesieve in primesieve.c) with the generator of its
    presieved table (generate in gen-sieve.c). */
module PrimeSieve {
  import opened Arithmetic
  import opened Primes
  import opened Limbs
  import opened SievePattern
  import opened BlockSieve
  import opened WitnessPrimes
  import TrialPrimality

  const TABLE_LIMBS: nat := 28
  const BLOCK_SIZE: nat := 2048
  const WORD: nat := 0x1_0000_0000_0000_0000

  /** n_fto_bit: the last bit whose number is at most n. */
  function FToBit(n: nat): nat
    requires 4 < n
  {
    (if (n - 5) % 2 == 0 then n - 4 else n - 5) / 3
  }

  lemma FToBitIsLast(n: nat)
    requires 4 < n
    ensures BitToN(FToBit(n)) <= n < BitToN(FToBit(n) + 1)
  {
    hide FToBit, BitToN;
    var h, c := (n - 5) / 6, (n - 5) % 6;
    DivModIdentity(n - 5, 6);
    FToBitValue(n, h, c);
    BitToNOdd(h);
    BitToNOdd(h + 1);
  }

  lemma FToBitValue(n: nat, h: nat, c: nat)
    requires c < 6 && n == 6 * h + 5 + c
    ensures FToBit(n) == 2 * h + if c < 2 then 0 else 1
  {
    var q := 2 * h + if c < 2 then 0 else 1;
    if c == 0 || c == 2 || c == 4 {
      DivModUnique(n - 5, 2, 3 * h + c / 2, 0);
      DivModUnique(n - 4, 3, q, n - 4 - 3 * q);
    } else {
      DivModUnique(n - 5, 2, 3 * h + c / 2, 1);
      DivModUnique(n - 5, 3, q, n - 5 - 3 * q);
    }
  }

  // ---------------------------------------------------------------- the presieved table

  ghost predicate Presieved(table: seq<Limb>) {
    |table| == TABLE_LIMBS && forall l :: 0 <= l < |table| ==> SievedLimb(table[l], l)
  }

  /** generate (64, 64 * 28): one bit at a time from the primality test, flushed
      into the table limb by limb; `maxprime` and `totpc` describe the table. */
  method GenerateTable() returns (table: seq<Limb>, totpc: nat, maxprime: nat)
    ensures Presieved(table)
    ensures totpc == PrimesFrom4(BitToN(64 * TABLE_LIMBS) - 1)
    ensures IsPrime(maxprime) && forall p :: maxprime < p < BitToN(64 * TABLE_LIMBS) ==> !IsPrime(p)
  {
    hide IsPrime, SievedLimb, PrimesFrom4, BitToN;
    var limit := 64 * TABLE_LIMBS;
    table := [];
    var limb: seq<bool> := [];
    var i, pc := 0, 0;
    totpc, maxprime := 0, 3;
    FirstCandidate();
    while i < limit
      invariant 0 <= i <= limit && i == 64 * |table| + |limb| && |limb| < 64
      invariant forall l :: 0 <= l < |table| ==> SievedLimb(table[l], l)
      invariant forall k :: 0 <= k < |limb| ==> limb[k] == !IsPrime(BitToN(64 * |table| + k))
      invariant totpc + pc == PrimesFrom4(BitToN(i) - 1)
      invariant |limb| == 0 ==> pc == 0
      invariant IsPrime(maxprime) && forall p :: maxprime < p < BitToN(i) ==> !IsPrime(p)
    {
      BitToNBound(i);
      var prime := TrialPrimality.TestPrime(BitToN(i));
      CountStep(i);
      GapHasNoPrimes(i);
      if !prime {
        limb := limb + [true];
      } else {
        limb := limb + [false];
        maxprime := BitToN(i);
        pc := pc + 1;
      }
      i := i + 1;
      if |limb| == 64 {
        SievedLimbIntro(limb, |table|);
        table := table + [limb];
        totpc := totpc + pc;
        limb, pc := [], 0;
      }
    }
  }

  lemma SievedLimbIntro(x: Limb, l: nat)
    requires forall k :: 0 <= k < 64 ==> x[k] == !IsPrime(BitToN(64 * l + k))
    ensures SievedLimb(x, l)
  {
  }

  lemma FirstCandidate()
    ensures IsPrime(3) && PrimesFrom4(BitToN(0) - 1) == 0
    ensures forall p :: 3 < p < BitToN(0) ==> !IsPrime(p)
  {
    assert !Divides(2, 3);
    assert Divides(2, 4);
    assert !IsPrime(4);
  }

  // ---------------------------------------------------------------- counting

  /** No prime lies strictly between two neighbouring candidates. */
  lemma GapHasNoPrimes(b: nat)
    ensures forall p :: BitToN(b) < p < BitToN(b + 1) ==> !IsPrime(p)
  {
    hide IsPrime, BitToN;
    var h := b / 2;
    BitToNOdd(h);
    BitToNOdd(h + 1);
    ProductIsComposite(2, 3 * h + 3);
    ProductIsComposite(2, 3 * h + 4);
    ProductIsComposite(3, 2 * h + 3);
    ProductIsComposite(2, 3 * h + 5);
    forall p | BitToN(b) < p < BitToN(b + 1)
      ensures !IsPrime(p)
    {
      if b == 2 * h {
        assert p == 2 * (3 * h + 3);
      } else {
        assert p == 2 * (3 * h + 4) || p == 3 * (2 * h + 3) || p == 2 * (3 * h + 5);
      }
    }
  }

  lemma {:induction false} CountAcrossGap(lo: int, hi: int)
    requires 3 <= lo <= hi && forall p :: lo < p <= hi ==> !IsPrime(p)
    ensures PrimesFrom4(lo) == PrimesFrom4(hi)
    decreases hi - lo
  {
    if lo < hi {
      CountAcrossGap(lo, hi - 1);
    }
  }

  /** One candidate further, the count grows by one exactly at a prime. */
  lemma CountStep(b: nat)
    ensures PrimesFrom4(BitToN(b + 1) - 1) ==
      PrimesFrom4(BitToN(b) - 1) + if IsPrime(BitToN(b)) then 1 else 0
  {
    hide IsPrime;
    GapHasNoPrimes(b);
    CountAcrossGap(BitToN(b), BitToN(b + 1) - 1);
  }

  /** Limb l of the result: set for composites, and for everything past `last`. */
  ghost predicate FinalLimb(x: Limb, l: nat, last: nat) {
    forall k :: 0 <= k < 64 ==> x[k] == (last < 64 * l + k || !IsPrime(BitToN(64 * l + k)))
  }

  /** The number of primes below the candidate of bit b, but not past `last`. */
  ghost function PrimesBelowBit(b: nat, last: nat): nat {
    PrimesFrom4(BitToN(if b <= last then b else last + 1) - 1)
  }

  lemma {:induction false} CountInLimb(x: Limb, l: nat, last: nat, k: nat)
    requires FinalLimb(x, l, last) && k <= 64
    ensures k - PopCount(x[..k]) == PrimesBelowBit(64 * l + k, last) - PrimesBelowBit(64 * l, last)
    decreases k
  {
    hide IsPrime, PrimesFrom4, BitToN;
    if k == 0 {
      assert x[..0] == [];
    } else {
      CountInLimb(x, l, last, k - 1);
      assert x[..k][..k - 1] == x[..k - 1] && x[..k][k - 1] == x[k - 1];
      CountStep(64 * l + k - 1);
    }
  }

  /** mpn_popcount */
  function PopCountAll(s: seq<Limb>): nat {
    if |s| == 0 then 0 else PopCountAll(s[..|s| - 1]) + PopCount(s[|s| - 1])
  }

  lemma {:induction false} CountInLimbs(s: seq<Limb>, last: nat)
    requires forall l :: 0 <= l < |s| ==> FinalLimb(s[l], l, last)
    ensures 64 * |s| - PopCountAll(s) == PrimesBelowBit(64 * |s|, last)
  {
    hide FinalLimb, PopCount, IsPrime;
    if |s| == 0 {
      FirstCandidate();
    } else {
      var l := |s| - 1;
      CountInLimbs(s[..l], last);
      CountInLimb(s[l], l, last, 64);
      assert s[l][..64] == s[l];
    }
  }

  // ---------------------------------------------------------------- the exit of the block loop

  /** A prime in the sieved part whose square lies past the block, but not so far that
      its bit would leave a signed word. */
  ghost predicate Witness(w: nat, base: nat, limbs: nat) {
    && 4 <= w < 64 * base && IsPrime(BitToN(w))
    && 64 * (base + limbs) <= SquareBit(w + 1) < 0x8000_0000_0000_0000
  }

  lemma WitnessFromPrime(w: nat, p: nat, base: nat, limbs: nat)
    requires 4 <= w < 64 * base && BitToN(w) == p && IsPrime(p)
    requires BitToN(64 * (base + limbs)) <= p * p < 0x1_8000_0000_0000_0000
    ensures Witness(w, base, limbs)
  {
    hide IsPrime, SquareBit;
    IdIsPreviousBit(w + 1);
    SquareBitCorrect(w + 1);
    BitToNMonotone(SquareBit(w + 1), 64 * (base + limbs));
    CandidateBounds(SquareBit(w + 1));
  }

  /** For every block of every sieve of a one-limb n, one of the three explicit
      primes is already sieved and has its square past the block. */
  lemma WitnessExists(base: nat, limbs: nat) returns (w: nat)
    requires base == TABLE_LIMBS ==> base + limbs <= 2 * BLOCK_SIZE
    requires base != TABLE_LIMBS ==> BLOCK_SIZE <= base && limbs == BLOCK_SIZE
    requires 192 * (base + limbs) < WORD + 192
    ensures Witness(w, base, limbs)
  {
    hide IsPrime, Witness, SquareBit;
    var end := BitToN(64 * (base + limbs));
    assert end <= 192 * (base + limbs) + 5;
    if end <= 3329 * 3329 {
      w := 1108;
      SmallWitnessIsPrime();
      WitnessFromPrime(w, SMALL_WITNESS, base, limbs);
    } else if end <= 786433 * 786433 {
      w := 262143;
      MiddleWitnessIsPrime();
      WitnessFromPrime(w, MIDDLE_WITNESS, base, limbs);
    } else {
      w := 1465210196;
      LargeWitnessIsPrime();
      WitnessFromPrime(w, LARGE_WITNESS, base, limbs);
    }
  }

  // ---------------------------------------------------------------- the sieve

  /** primesieve_size */
  function SieveSize(n: nat): nat
    requires 4 < n
  {
    FToBit(n) / 64 + 1
  }

  lemma FullLimbIsFinal(x: Limb, l: nat, last: nat)
    requires SievedLimb(x, l) && 64 * l + 63 <= last
    ensures FinalLimb(x, l, last)
  {
    hide IsPrime, BitToN;
  }

  lemma MaskedLimbIsFinal(x: Limb, l: nat, last: nat)
    requires SievedLimb(x, l) && l == last / 64 && (last + 1) % 64 != 0
    ensures FinalLimb(Or(x, Shl(AllOnes(), (last + 1) % 64)), l, last)
  {
    hide IsPrime, BitToN;
    var y := Or(x, Shl(AllOnes(), (last + 1) % 64));
    assert last == 64 * l + (last + 1) % 64 - 1;
  }

  lemma SizeBound(n: nat)
    requires 4 < n < WORD
    ensures 192 * SieveSize(n) < WORD + 192
  {
  }

  /** The split into a first block and whole blocks of BLOCK_SIZE limbs. */
  function FirstBlockEnd(size: nat): nat {
    if size > 2 * BLOCK_SIZE then BLOCK_SIZE + size % BLOCK_SIZE else size
  }

  lemma BlocksTile(size: nat) returns (k: nat)
    requires size > TABLE_LIMBS
    ensures TABLE_LIMBS < FirstBlockEnd(size) <= 2 * BLOCK_SIZE && FirstBlockEnd(size) <= size
    ensures size == FirstBlockEnd(size) + BLOCK_SIZE * k
    ensures FirstBlockEnd(size) < size ==> BLOCK_SIZE <= FirstBlockEnd(size)
  {
    k := if size > 2 * BLOCK_SIZE then size / BLOCK_SIZE - 1 else 0;
  }

  /** The last step: everything past the last candidate counts as composite. */
  method MaskTail(a: array<Limb>, size: nat, bits: nat)
    requires size == bits / 64 + 1 <= a.Length
    requires forall l :: 0 <= l < size ==> SievedLimb(a[l], l)
    modifies a
    ensures forall l :: 0 <= l < size ==> FinalLimb(a[l], l, bits)
    ensures forall l :: size <= l < a.Length ==> a[l] == old(a[l])
  {
    hide *;
    forall l | 0 <= l < size && (l < size - 1 || (bits + 1) % 64 == 0)
      ensures FinalLimb(a[l], l, bits)
    {
      FullLimbIsFinal(a[l], l, bits);
    }
    if (bits + 1) % 64 != 0 {
      MaskedLimbIsFinal(a[size - 1], size - 1, bits);
      a[size - 1] := Or(a[size - 1], Shl(AllOnes(), (bits + 1) % 64));
    }
  }

  /** gmp_primesieve: for every n, a bit is zero exactly for a prime up to n, every
      bit past n in the last limb is set, no other limb changes, and the result is
      the number of primes in [4, n]. */
  method GmpPrimeSieve(a: array<Limb>, n: nat, presieved: seq<Limb>,
                       m: Masks, ghost p1: seq<bool>, ghost p2: seq<bool>)
    returns (count: int)
    requires 4 < n < WORD && SieveSize(n) <= a.Length
    requires Presieved(presieved) && ValidMasks(m, p1, p2)
    modifies a
    ensures forall l :: 0 <= l < SieveSize(n) ==> FinalLimb(a[l], l, FToBit(n))
    ensures forall l :: SieveSize(n) <= l < a.Length ==> a[l] == old(a[l])
    ensures count == PrimesFrom4(n)
  {
    hide IsPrime, SievedLimb, FinalLimb, ValidMasks, Or, Shl, FToBit, FirstBlockEnd, PrimesFrom4,
      BitToN, PopCountAll, SquareBit, PrimesBelowBit;
    var bits := FToBit(n);
    var size := bits / 64 + 1;
    var lim := if size < TABLE_LIMBS then size else TABLE_LIMBS;
    var j := 0;
    while j < lim
      invariant 0 <= j <= lim
      invariant forall l :: 0 <= l < j ==> SievedLimb(a[l], l)
      invariant forall l :: size <= l < a.Length ==> a[l] == old(a[l])
    {
      a[j] := presieved[j];
      j := j + 1;
    }
    if size > TABLE_LIMBS {
      SizeBound(n);
      ghost var k := BlocksTile(size);
      var off := FirstBlockEnd(size);
      ghost var w := WitnessExists(TABLE_LIMBS, off - TABLE_LIMBS);
      BlockResieve(a, TABLE_LIMBS, off - TABLE_LIMBS, m, p1, p2, w);
      while off < size
        invariant TABLE_LIMBS < off <= size && size == off + BLOCK_SIZE * k
        invariant off < size ==> BLOCK_SIZE <= off
        invariant forall l :: 0 <= l < off ==> SievedLimb(a[l], l)
        invariant forall l :: size <= l < a.Length ==> a[l] == old(a[l])
      {
        w := WitnessExists(off, BLOCK_SIZE);
        BlockResieve(a, off, BLOCK_SIZE, m, p1, p2, w);
        off, k := off + BLOCK_SIZE, k - 1;
      }
    }
    MaskTail(a, size, bits);
    CountInLimbs(a[..size], bits);
    CountUpTo(n);
    count := size * 64 - PopCountAll(a[..size]);
  }

  lemma CountUpTo(n: nat)
    requires 4 < n
    ensures PrimesBelowBit(64 * SieveSize(n), FToBit(n)) == PrimesFrom4(n)
  {
    hide IsPrime, PrimesFrom4, BitToN, FToBit;
    var b := FToBit(n);
    FToBitIsLast(n);
    GapHasNoPrimes(b);
    BitToNBound(b);
    CountAcrossGap(n, BitToN(b + 1) - 1);
  }

  /** The sieve on the tables its generators produce: nothing is left to assume. */
  method SieveFromScratch(n: nat) returns (a: array<Limb>, count: int)
    requires 4 < n < WORD
    ensures fresh(a) && a.Length == SieveSize(n)
    ensures forall l :: 0 <= l < a.Length ==> FinalLimb(a[l], l, FToBit(n))
    ensures count == PrimesFrom4(n)
  {
    hide *;
    a := new Limb[SieveSize(n)];
    var table, totpc, maxprime := GenerateTable();
    var m, p1, p2 := GenSieveMasks();
    count := GmpPrimeSieve(a, n, table, m, p1, p2);
  }
}
