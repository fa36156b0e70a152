/** The generator of the trial-division tables (gen-trialdivtab.c), for 64-bit limbs:
    primes are multiplied together in groups, and the two passes over the primes,
    one for each table, must group them alike. */
module TrialDivisionTables {
  import opened Arithmetic
  import opened Primes
  import opened WordArithmetic
  import opened InvariantDivision
  import BinaryInverse
  import TrialPrimality

  // ---------------------------------------------------------------- residues of powers of B

  /** B^i modulo b, each from the one before. */
  function Residue(b: nat, i: nat): nat
    requires 0 < b
  {
    if i == 0 then 1 % b else (Residue(b, i - 1) * B) % b
  }

  lemma {:induction false} ResidueIsPower(b: nat, i: nat)
    requires 0 < b
    ensures Residue(b, i) == Pow(B, i) % b && Residue(b, i) < b
  {
    hide Pow;
    if i == 0 {
      PowZero(B);
    } else {
      ResidueIsPower(b, i - 1);
      PowStep(B, i);
      NextResidue(Residue(b, i - 1), Pow(B, i - 1), B, b);
    }
  }

  lemma NextResidue(r: int, p: int, x: int, b: int)
    requires 0 < b && r == p % b
    ensures (r * x) % b == (p * x) % b && 0 <= (r * x) % b < b
  {
    ModSmall(r, b);
    ModMulCongruent(p, r, x, b);
  }

  lemma PowZero(x: int)
    ensures Pow(x, 0) == 1
  {
  }

  lemma PowStep(x: int, i: nat)
    requires 0 < i
    ensures Pow(x, i) == Pow(x, i - 1) * x
  {
  }

  /** The five residues the tables hold. */
  function Residues(b: nat): seq<nat>
    requires 0 < b
  {
    [Residue(b, 1), Residue(b, 2), Residue(b, 3), Residue(b, 4), Residue(b, 5)]
  }

  function Sum(a: seq<nat>): nat {
    if |a| == 0 then 0 else Sum(a[..|a| - 1]) + a[|a| - 1]
  }

  /** sumspills: whether the residues add up to a limb or more. */
  method SumSpills(a: seq<nat>) returns (spills: bool)
    requires |a| > 0
    ensures spills <==> B <= Sum(a)
  {
    var s, i := a[0], 1;
    assert a[..1] == [a[0]] && a[..1][..0] == [];
    while i < |a|
      invariant 1 <= i <= |a| && s == Sum(a[..i])
    {
      assert a[..i + 1][..i] == a[..i];
      s := s + a[i];
      i := i + 1;
    }
    assert a[..|a|] == a;
    spills := s >= B;
  }

  /** b needs `bits` binary digits. */
  ghost predicate SizeInBase2(b: nat, bits: nat) {
    1 <= bits && Pow2(bits - 1) <= b < Pow2(bits)
  }

  method Log2(b: nat) returns (bits: nat)
    requires 0 < b < B
    ensures SizeInBase2(b, bits) && bits <= 64
  {
    bits := 1;
    WordSize();
    while Pow2(bits) <= b
      invariant 1 <= bits <= 64 && Pow2(bits - 1) <= b
      decreases 64 - bits
    {
      bits := bits + 1;
    }
  }

  lemma ByteSize()
    ensures Pow2(8) == 256
  {
  }

  lemma WordSize()
    ensures Pow2(64) == B
  {
    hide Pow2;
    ByteSize();
    Pow2Add(8, 8);
    Pow2Add(16, 16);
    Pow2Add(32, 32);
  }

  /** mpn_mod_1s_4p_cps: a reciprocal, a shift count and the five residues. */
  datatype Precomputed = Precomputed(bi: int, cnt: nat, residues: seq<nat>)

  method ModCps(b: nat) returns (pre: Precomputed)
    requires 0 < b < B
    ensures pre.residues == Residues(b) && forall i :: 1 <= i <= 5 ==> pre.residues[i - 1] == Pow(B, i) % b
    ensures pre.cnt < 64 && SizeInBase2(b, 64 - pre.cnt)
    ensures pre.bi == ((Pow2(64 - pre.cnt) - b) * B) / b
    ensures 1 < b && b % 2 == 1 ==>
      var n := b * Pow2(pre.cnt);
      0 <= n < B && Normalized(n) && IsInverse(pre.bi, n)
  {
    var bits := Log2(b);
    hide Pow2, Pow, IsInverse;
    var cnt := 64 - bits;
    var t := Pow2(64 - cnt) - b;
    t := t * B;
    var bi := t / b;
    FirstResidue(b);
    var r1 := B % b;
    var r2 := (r1 * B) % b;
    var r3 := (r2 * B) % b;
    var r4 := (r3 * B) % b;
    var r5 := (r4 * B) % b;
    pre := Precomputed(bi, cnt, [r1, r2, r3, r4, r5]);
    ResiduesArePowers(b);
    if 1 < b && b % 2 == 1 { ReciprocalOfShifted(b, cnt, bi); }
  }

  lemma ResiduesArePowers(b: nat)
    requires 0 < b
    ensures |Residues(b)| == 5 && forall i :: 1 <= i <= 5 ==> Residues(b)[i - 1] == Pow(B, i) % b
  {
    hide Residue, Pow;
    ResidueIsPower(b, 1);
    ResidueIsPower(b, 2);
    ResidueIsPower(b, 3);
    ResidueIsPower(b, 4);
    ResidueIsPower(b, 5);
  }

  lemma FirstResidue(b: nat)
    requires 0 < b
    ensures Residue(b, 1) == B % b
  {
    ModMul(1, B, b);
    ModMul(1 % b, B, b);
    DivModIdentity(1, b);
    ModSmall(1 % b, b);
  }

  // ---------------------------------------------------------------- the reciprocal

  lemma {:induction false} OddDivisorOfPowerOfTwo(b: nat, k: nat)
    requires 0 < b && b % 2 == 1 && Divides(b, Pow2(k))
    ensures b == 1
  {
    hide Divides;
    if k == 0 {
      DivisibleIsMultiple(b, 1);
      if 1 < b { MulMonotone(b, 1 / b, 0); ModSmall(1, b); }
    } else {
      HalfOfMultiple(b, Pow2(k - 1));
      OddDivisorOfPowerOfTwo(b, k - 1);
    }
  }

  /** bi is the reciprocal of b shifted to the top of a limb, in the sense of
      invert_limb, for every odd b above 1. */
  lemma ReciprocalOfShifted(b: nat, cnt: nat, bi: int)
    requires 1 < b && b % 2 == 1 && cnt < 64 && SizeInBase2(b, 64 - cnt)
    requires bi == ((Pow2(64 - cnt) - b) * B) / b
    ensures
      var n := b * Pow2(cnt);
      0 <= n < B && Normalized(n) && IsInverse(bi, n)
  {
    hide Pow2, IsInverse;
    WordSize();
    var p, s := Pow2(64 - cnt), Pow2(cnt);
    Pow2Add(64 - cnt, cnt);
    ShiftedRange(b, cnt);
    var n: Word := b * s;
    var q := (p * B) / b;
    QuotientLessWhole(p, b, bi);
    var r := (p * B) % b;
    DivModIdentity(p * B, b);
    if r == 0 {
      Pow2Add(64 - cnt, 64);
      OddDivisorOfPowerOfTwo(b, 64 - cnt + 64);
    }
    ShiftedGap(p, b, s, q, r);
    InverseGap(bi, n);
  }

  lemma ShiftedGap(p: int, b: int, s: int, q: int, r: int)
    requires p * s == B && p * B == q * b + r && 1 <= r < b && 1 <= s
    ensures 1 <= B * B - q * (b * s) <= b * s
  {
    MulAssociates(q, b, s);
    MulDistributes(s, q * b, r);
    MulAssociates(s, p, B);
    MulMonotone(s, 1, r);
    MulMonotone(s, r, b);
  }

  lemma ShiftedRange(b: nat, cnt: nat)
    requires cnt < 64 && SizeInBase2(b, 64 - cnt)
    ensures 0 <= b * Pow2(cnt) < B <= 2 * (b * Pow2(cnt))
  {
    hide Pow2;
    WordSize();
    var p, s := Pow2(64 - cnt), Pow2(cnt);
    Pow2Add(64 - cnt, cnt);
    HalfPower(64 - cnt);
    MulMonotone(s, 0, b);
    MulStrictlyMonotone(s, b, p);
    MulMonotone(s, p, 2 * b);
    MulAssociates(s, 2, b);
  }

  lemma HalfPower(k: nat)
    requires 0 < k
    ensures Pow2(k) == 2 * Pow2(k - 1)
  {
  }

  lemma QuotientLessWhole(p: int, b: int, bi: int)
    requires 0 < b && bi == ((p - b) * B) / b
    ensures (p * B) / b == bi + B
  {
    var x := (p - b) * B;
    DivModIdentity(x, b);
    assert p * B == (bi + B) * b + x % b by {
      MulDistributes(B, p, -b);
      MulDistributes(b, bi, B);
    }
    DivModUnique(p * B, b, bi + B, x % b);
  }

  // ---------------------------------------------------------------- grouping the primes

  /** The primes in [lo, hi), in order. */
  ghost function PrimesIn(lo: nat, hi: nat): seq<nat>
    decreases hi
  {
    if hi <= lo then [] else PrimesIn(lo, hi - 1) + if IsPrime(hi - 1) then [hi - 1] else []
  }

  ghost function Product(ps: seq<nat>): int {
    if |ps| == 0 then 1 else Product(ps[..|ps| - 1]) * ps[|ps| - 1]
  }

  lemma {:induction false} PrimesJoin(a: nat, b: nat, c: nat)
    requires a <= b <= c
    ensures PrimesIn(a, b) + PrimesIn(b, c) == PrimesIn(a, c)
    decreases c
  {
    hide IsPrime;
    if b < c {
      PrimesJoin(a, b, c - 1);
    }
  }

  /** PrimesIn lists the primes of its range, all of them, in increasing order. */
  lemma {:induction false} PrimesInExactly(lo: nat, hi: nat)
    ensures forall p :: p in PrimesIn(lo, hi) <==> lo <= p < hi && IsPrime(p)
    ensures forall i, j :: 0 <= i < j < |PrimesIn(lo, hi)| ==> PrimesIn(lo, hi)[i] < PrimesIn(lo, hi)[j]
    decreases hi
  {
    hide IsPrime;
    if lo < hi {
      PrimesInExactly(lo, hi - 1);
      var ps := PrimesIn(lo, hi - 1);
      forall i, j | 0 <= i < j < |PrimesIn(lo, hi)|
        ensures PrimesIn(lo, hi)[i] < PrimesIn(lo, hi)[j]
      {
        assert ps[i] in ps;
      }
    }
  }

  lemma ProductOfMore(ps: seq<nat>, p: nat)
    ensures Product(ps + [p]) == Product(ps) * p
  {
    assert (ps + [p])[..|ps|] == ps;
  }

  /** Whether the prime t no longer fits into a group with product ppp. */
  ghost predicate Stops(ppp: int, t: nat) {
    ppp * t <= 0 || B <= 2 * (ppp * t) || B <= Sum(Residues(ppp * t))
  }

  /** Where the open group starts once the primes below t are grouped. */
  ghost function GroupStart(t: nat): nat {
    if t <= 3 then 3
    else
      var s := GroupStart(t - 1);
      if IsPrime(t - 1) && Stops(Product(PrimesIn(s, t - 1)), t - 1) then t - 1 else s
  }

  lemma {:induction false} GroupStartRange(t: nat)
    ensures 3 <= GroupStart(t) && (3 <= t ==> GroupStart(t) <= t)
    ensures 3 < t ==> GroupStart(t) < t
  {
    hide IsPrime, Stops, PrimesIn, Product;
    if 3 < t { GroupStartRange(t - 1); }
  }

  /** The first prime of a group is its start. */
  lemma {:induction false} GroupStartIsPrime(t: nat)
    ensures IsPrime(GroupStart(t))
  {
    hide Stops, PrimesIn, Product;
    if 3 < t {
      hide IsPrime;
      GroupStartIsPrime(t - 1);
    } else {
      assert !Divides(2, 3);
    }
  }

  /** No prime between lo and hi stops the group that starts at lo. */
  ghost predicate Open(lo: nat, hi: nat) {
    forall t :: lo < t < hi && IsPrime(t) ==> !Stops(Product(PrimesIn(lo, t)), t)
  }

  /** The primes from lo on form a group that stops at the prime hi, and not before. */
  ghost predicate Closed(lo: nat, hi: nat) {
    lo < hi && IsPrime(lo) && IsPrime(hi) && Open(lo, hi) && Stops(Product(PrimesIn(lo, hi)), hi)
  }

  lemma {:induction false} GroupIsOpen(t: nat)
    ensures Open(GroupStart(t), t)
  {
    hide IsPrime, Stops, PrimesIn, Product;
    if 3 < t { GroupIsOpen(t - 1); }
  }

  /** Where a group stops is determined by where it starts. */
  lemma StopIsUnique(lo: nat, hi: nat, hi': nat)
    requires Closed(lo, hi)
    ensures Closed(lo, hi') ==> hi == hi'
    ensures Open(lo, hi') ==> hi' <= hi
  {
    hide IsPrime, Stops, PrimesIn, Product;
  }

  /** A group product can be used for trial division: odd, and its residues do not
      spill out of a limb. */
  ghost predicate Usable(ppp: int) {
    0 < ppp < B && ppp % 2 == 1 && Sum(Residues(ppp)) < B
  }

  lemma SumOfFive(a: nat, b: nat, c: nat, d: nat, e: nat)
    ensures Sum([a, b, c, d, e]) == a + b + c + d + e
  {
    assert [a, b, c, d, e][..4] == [a, b, c, d] && [a, b, c, d][..3] == [a, b, c];
    assert [a, b, c][..2] == [a, b] && [a, b][..1] == [a] && [a][..0] == [];
    assert Sum([a]) == a && Sum([a, b]) == a + b && Sum([a, b, c]) == a + b + c;
  }

  lemma SinglePrimeUsable(p: nat)
    requires 0 < p && p % 2 == 1 && 5 * p < B
    ensures Usable(p)
  {
    hide Residue, Sum;
    ResidueIsPower(p, 1);
    ResidueIsPower(p, 2);
    ResidueIsPower(p, 3);
    ResidueIsPower(p, 4);
    ResidueIsPower(p, 5);
    SumOfFive(Residue(p, 1), Residue(p, 2), Residue(p, 3), Residue(p, 4), Residue(p, 5));
  }

  /** A prime that does not stop the group leaves it usable. */
  lemma GrownUsable(ppp: int, t: nat)
    requires ppp % 2 == 1 && t % 2 == 1 && !Stops(ppp, t)
    ensures Usable(ppp * t)
  {
    hide Residues, Sum;
    ModMul(ppp, t, 2);
  }

  /** With a usable product, one multiply-add pass over six limbs stays below B^2
      and keeps the residue. */
  lemma SixLimbs(ppp: int, a0: Word, a1: Word, a2: Word, a3: Word, a4: Word, a5: Word)
    requires Usable(ppp)
    ensures
      var s := a0 + a1 * Residue(ppp, 1) + a2 * Residue(ppp, 2) + a3 * Residue(ppp, 3)
               + a4 * Residue(ppp, 4) + a5 * Residue(ppp, 5);
      && 0 <= s < B * B
      && s % ppp == (a0 + a1 * Pow(B, 1) + a2 * Pow(B, 2) + a3 * Pow(B, 3)
                     + a4 * Pow(B, 4) + a5 * Pow(B, 5)) % ppp
  {
    hide Residue, Pow, Sum;
    var s, x := a0 as int, a0 as int;
    s, x := OneLimb(ppp, a1, 1, s, x);
    s, x := OneLimb(ppp, a2, 2, s, x);
    s, x := OneLimb(ppp, a3, 3, s, x);
    s, x := OneLimb(ppp, a4, 4, s, x);
    s, x := OneLimb(ppp, a5, 5, s, x);
    SixLimbsFit(ppp, a0, a1, a2, a3, a4, a5);
  }

  lemma SixLimbsFit(ppp: int, a0: Word, a1: Word, a2: Word, a3: Word, a4: Word, a5: Word)
    requires Usable(ppp)
    ensures 0 <= a0 + a1 * Residue(ppp, 1) + a2 * Residue(ppp, 2) + a3 * Residue(ppp, 3)
            + a4 * Residue(ppp, 4) + a5 * Residue(ppp, 5) < B * B
  {
    hide Residue, Sum;
    LimbTimes(a1, Residue(ppp, 1));
    LimbTimes(a2, Residue(ppp, 2));
    LimbTimes(a3, Residue(ppp, 3));
    LimbTimes(a4, Residue(ppp, 4));
    LimbTimes(a5, Residue(ppp, 5));
    SumOfFive(Residue(ppp, 1), Residue(ppp, 2), Residue(ppp, 3), Residue(ppp, 4), Residue(ppp, 5));
  }

  lemma LimbTimes(a: Word, r: nat)
    ensures 0 <= a * r <= (B - 1) * r
  {
    MulMonotone(r, 0, a);
    MulMonotone(r, a, B - 1);
  }

  lemma OneLimb(ppp: int, a: Word, i: nat, s: int, x: int) returns (s': int, x': int)
    requires 0 < ppp && s % ppp == x % ppp
    ensures s' == s + a * Residue(ppp, i) && x' == x + a * Pow(B, i) && s' % ppp == x' % ppp
  {
    hide Residue, Pow;
    var r, p := Residue(ppp, i), Pow(B, i);
    s', x' := s + a * r, x + a * p;
    TermResidue(ppp, a, i);
    AddToBoth(s, x, a * r, ppp);
    AddToBoth(a * r, a * p, x, ppp);
  }

  lemma TermResidue(ppp: int, a: Word, i: nat)
    requires 0 < ppp
    ensures (a * Residue(ppp, i)) % ppp == (a * Pow(B, i)) % ppp
  {
    hide Residue, Pow;
    ResidueIsPower(ppp, i);
    NextResidue(Residue(ppp, i), Pow(B, i), a, ppp);
  }

  lemma AddToBoth(s: int, x: int, u: int, m: int)
    requires 0 < m && s % m == x % m
    ensures (s + u) % m == (x + u) % m
  {
    var k := EqualResidues(s, x, m);
    ModAddMultiple(x + u, k, m);
  }

  // ---------------------------------------------------------------- the two passes

  /** Decides for one prime, as both passes do. */
  method TestGroup(ppp: nat, t: nat) returns (acc: nat, stop: bool)
    requires 0 < ppp && 0 < t
    ensures acc == ppp * t && 0 < acc
    ensures stop <==> Stops(ppp, t)
    ensures stop <==>
      B <= 2 * acc || B <= Pow(B, 1) % acc + Pow(B, 2) % acc + Pow(B, 3) % acc + Pow(B, 4) % acc + Pow(B, 5) % acc
  {
    MulStrictlyMonotone(ppp, 0, t);
    StopsInNumbers(ppp, t);
    acc := ppp * t;
    stop := 2 * acc >= B;
    if !stop {
      var pre := ModCps(acc);
      hide Residues, Sum, Pow2, Pow;
      stop := SumSpills(pre.residues);
    }
  }

  /** One more number: a non-prime changes nothing. */
  lemma SkipNonPrime(lo: nat, t: nat)
    requires lo <= t && 3 <= t && !IsPrime(t)
    ensures PrimesIn(lo, t + 1) == PrimesIn(lo, t) && GroupStart(t + 1) == GroupStart(t)
  {
    hide Stops, Product;
  }

  lemma EvenSkipped(t: nat)
    requires 3 < t && t % 2 == 0
    ensures !IsPrime(t)
  {
    assert Divides(2, t);
  }

  /** A prime is appended to the open group, or opens a new one. */
  lemma NextPrimeGrouped(t: nat)
    requires 3 <= t && IsPrime(t)
    ensures
      var s := GroupStart(t);
      && s <= t && PrimesIn(s, t + 1) == PrimesIn(s, t) + [t] && PrimesIn(3, t + 1) == PrimesIn(3, t) + [t]
      && (Stops(Product(PrimesIn(s, t)), t) ==> GroupStart(t + 1) == t)
      && (!Stops(Product(PrimesIn(s, t)), t) ==> GroupStart(t + 1) == s)
      && PrimesIn(3, s) + PrimesIn(s, t) == PrimesIn(3, t) && PrimesIn(t, t + 1) == [t]
  {
    hide Stops, Product, IsPrime;
    GroupStartRange(t);
    PrimesJoin(3, GroupStart(t), t);
    assert PrimesIn(t, t) == [];
  }

  /** The state of both passes before the number t: the open group starts at s and
      has the product ppp. */
  ghost predicate Grouped(t: nat, s: nat, ppp: int) {
    3 <= s <= t && s == GroupStart(t) && ppp == Product(PrimesIn(s, t)) && Usable(ppp)
  }

  lemma GroupedFacts(t: nat, s: nat, ppp: int)
    requires Grouped(t, s, ppp)
    ensures 3 <= s <= t && s == GroupStart(t) && ppp == Product(PrimesIn(s, t)) && 0 < ppp < B && ppp % 2 == 1
  {
    hide GroupStart, Product, PrimesIn, Residues;
  }

  lemma GroupedStart()
    ensures Grouped(3, 3, 1) && PrimesIn(3, 3) == []
  {
    hide Usable;
    SinglePrimeUsable(1);
  }

  lemma GroupedSkip(t: nat, s: nat, ppp: int)
    requires Grouped(t, s, ppp) && !IsPrime(t)
    ensures Grouped(t + 1, s, ppp)
  {
    hide IsPrime, GroupStart, PrimesIn, Product, Usable;
    SkipNonPrime(s, t);
  }

  lemma GroupedGrow(t: nat, s: nat, ppp: int)
    requires Grouped(t, s, ppp) && IsPrime(t) && t % 2 == 1 && !Stops(ppp, t)
    ensures Grouped(t + 1, s, ppp * t)
  {
    GroupedFacts(t, s, ppp);
    hide IsPrime, GroupStart, PrimesIn, Product, Usable, Stops;
    NextPrimeGrouped(t);
    ProductOfMore(PrimesIn(s, t), t);
    GrownUsable(ppp, t);
  }

  lemma GroupedClose(t: nat, s: nat, ppp: int)
    requires Grouped(t, s, ppp) && IsPrime(t) && t % 2 == 1 && 5 * t < B && Stops(ppp, t)
    ensures Grouped(t + 1, t, t) && Closed(s, t)
  {
    GroupedFacts(t, s, ppp);
    hide IsPrime, GroupStart, PrimesIn, Product, Usable, Stops;
    NextPrimeGrouped(t);
    SingleProduct(t);
    SinglePrimeUsable(t);
    GroupStartIsPrime(t);
    GroupIsOpen(t);
    GroupStartRange(t);
    if t == 3 { ThreeFits(); }
  }

  /** The very first prime never stops the empty group. */
  lemma ThreeFits()
    ensures Product(PrimesIn(3, 3)) == 1 && !Stops(1, 3)
  {
    hide Residues, Sum;
    SinglePrimeUsable(3);
  }

  /** One entry of the first table: a prime with its inverse and quotient limit. */
  datatype Entry = Entry(p: nat, inv: Word, limit: nat)

  ghost predicate EntryCorrect(e: Entry, p: nat) {
    e.p == p && 0 < p && (e.inv * p) % B == 1 && e.limit == (B - 1) / p
  }

  ghost predicate EntriesCorrect(dtab: seq<Entry>, ps: seq<nat>) {
    |dtab| == |ps| && forall i :: 0 <= i < |ps| ==> EntryCorrect(dtab[i], ps[i])
  }

  /** The largest quotient of a limb by p. */
  function Limit(p: nat): nat
    requires 0 < p
  {
    (B - 1) / p
  }

  lemma NoEntries(first: nat)
    ensures EntriesCorrect([], PrimesIn(first, first))
  {
  }

  lemma PrimesStep(lo: nat, p: nat)
    requires lo <= p
    ensures IsPrime(p) ==> PrimesIn(lo, p + 1) == PrimesIn(lo, p) + [p]
    ensures !IsPrime(p) ==> PrimesIn(lo, p + 1) == PrimesIn(lo, p)
  {
    hide IsPrime;
  }

  lemma AppendEntry(out: seq<Entry>, ps: seq<nat>, p: nat, inv: Word)
    requires EntriesCorrect(out, ps) && 0 < p && (inv * p) % B == 1
    ensures EntriesCorrect(out + [Entry(p, inv, Limit(p))], ps + [p])
  {
    assert EntryCorrect(Entry(p, inv, Limit(p)), p);
    hide EntryCorrect, Limit;
  }

  /** The inner loop of the first pass: an entry for each prime of the interval. */
  method PrintInterval(first: nat, last: nat) returns (out: seq<Entry>)
    requires 3 <= first && first % 2 == 1 && last < 0x8000_0000 && (last < 3 || last % 2 == 1)
    ensures EntriesCorrect(out, PrimesIn(first, last + 1))
  {
    hide IsPrime, PrimesIn, EntriesCorrect, Limit;
    out := [];
    NoEntries(first);
    var p := first;
    while p <= last
      invariant first <= p && p % 2 == 1 && (p <= last + 2 || p == first)
      invariant EntriesCorrect(out, PrimesIn(first, p))
      decreases last + 2 - p
    {
      var prime := TrialPrimality.TestPrime(p);
      EvenSkipped(p + 1);
      PrimesStep(first, p);
      PrimesStep(first, p + 1);
      if prime {
        var inv := BinaryInverse.BinvertLimb(p);
        AppendEntry(out, PrimesIn(first, p), p, inv);
        out := out + [Entry(p, inv, Limit(p))];
      }
      p := p + 2;
    }
    EmptyOrSame(first, last, p);
  }

  lemma EmptyOrSame(first: nat, last: nat, p: nat)
    requires 3 <= first <= p && last < p && p % 2 == 1 && (p <= last + 2 || p == first) && (last < 3 || last % 2 == 1)
    ensures PrimesIn(first, p) == PrimesIn(first, last + 1)
  {
    hide IsPrime;
    if p == first {
      assert PrimesIn(first, p) == [] && PrimesIn(first, last + 1) == [];
    } else {
      EvenSkipped(last + 1);
    }
  }

  /** The last interval printed covers the primes of the open group below t. */
  ghost predicate Interval(s: nat, last: nat, t: nat) {
    last < t && (last < 3 || last % 2 == 1) && PrimesIn(s, last + 1) == PrimesIn(s, t)
  }

  lemma IntervalSkip(s: nat, last: nat, t: nat)
    requires Interval(s, last, t) && 3 <= s <= t && !IsPrime(t)
    ensures Interval(s, last, t + 1)
  {
    hide IsPrime, PrimesIn, GroupStart;
    SkipNonPrime(s, t);
  }

  lemma IntervalFacts(s: nat, last: nat, t: nat)
    requires Interval(s, last, t)
    ensures last < t && (last < 3 || last % 2 == 1)
  {
  }

  lemma NewInterval(s: nat, t: nat)
    requires 3 <= t && t % 2 == 1
    ensures Interval(s, t, t + 1)
  {
    hide PrimesIn;
  }

  lemma FirstInterval()
    ensures EntriesSoFar([], 3, 0, 3)
  {
    assert PrimesIn(3, 1) == PrimesIn(3, 3) == [];
  }

  /** Closing a group appends the entries of its interval. */
  lemma EntriesUpTo(dtab: seq<Entry>, s: nat, last: nat, t: nat, out: seq<Entry>)
    requires 3 <= s <= t && Interval(s, last, t)
    requires EntriesCorrect(dtab, PrimesIn(3, s)) && EntriesCorrect(out, PrimesIn(s, last + 1))
    ensures EntriesCorrect(dtab + out, PrimesIn(3, t))
  {
    hide PrimesIn, EntriesCorrect;
    EntriesJoin(dtab, PrimesIn(3, s), out, PrimesIn(s, t));
    PrimesJoin(3, s, t);
  }

  /** What the first pass has done before the number t. */
  ghost predicate EntriesSoFar(dtab: seq<Entry>, s: nat, last: nat, t: nat) {
    s % 2 == 1 && Interval(s, last, t) && EntriesCorrect(dtab, PrimesIn(3, s))
  }

  lemma EntriesSkip(dtab: seq<Entry>, s: nat, last: nat, t: nat)
    requires EntriesSoFar(dtab, s, last, t) && 3 <= s <= t && !IsPrime(t)
    ensures EntriesSoFar(dtab, s, last, t + 1)
  {
    hide IsPrime, Interval, EntriesCorrect, PrimesIn;
    IntervalSkip(s, last, t);
  }

  lemma EntriesFacts(dtab: seq<Entry>, s: nat, last: nat, t: nat)
    requires EntriesSoFar(dtab, s, last, t)
    ensures EntriesCorrect(dtab, PrimesIn(3, s))
  {
  }

  /** The first pass for one odd number: a prime joins the open group or closes it. */
  method EntryStep(dtab: seq<Entry>, s: nat, last: nat, t: nat, ppp: nat)
    returns (dtab': seq<Entry>, s': nat, last': nat, ppp': nat)
    requires 3 <= t < 0x8000_0000 && t % 2 == 1 && Grouped(t, s, ppp) && EntriesSoFar(dtab, s, last, t)
    ensures Grouped(t + 1, s', ppp') && EntriesSoFar(dtab', s', last', t + 1)
  {
    GroupedFacts(t, s, ppp);
    hide IsPrime, Stops, Grouped, GroupStart, EntriesCorrect, Interval, PrimesIn, Product, Closed;
    dtab', s', last', ppp' := dtab, s, last, ppp;
    var prime := TrialPrimality.TestPrime(t);
    if !prime {
      GroupedSkip(t, s, ppp);
      IntervalSkip(s, last, t);
      return;
    }
    var acc, stop := TestGroup(ppp, t);
    if stop {
      IntervalFacts(s, last, t);
      var out := PrintInterval(s, last);
      EntriesUpTo(dtab, s, last, t, out);
      GroupedClose(t, s, ppp);
      dtab', s', ppp' := dtab + out, t, t;
    } else {
      GroupedGrow(t, s, ppp);
      ppp' := acc;
    }
    last' := t;
    NewInterval(s', t);
  }

  /** The first pass: an entry for every odd prime below the smallest omitted one. */
  method FirstPass(end_p: nat) returns (dtab: seq<Entry>, omitted_p: nat)
    requires end_p < 0x8000_0000
    ensures omitted_p == GroupStart(if end_p < 3 then 3 else end_p + 1)
    ensures EntriesCorrect(dtab, PrimesIn(3, omitted_p))
  {
    hide IsPrime, Stops, Grouped, GroupStart, EntriesSoFar, EntriesCorrect, PrimesIn, Product;
    var ppp: nat := 1;
    dtab := [];
    var interval_start, interval_end := 3, 0;
    var t := 3;
    GroupedStart();
    FirstInterval();
    while t <= end_p
      invariant 3 <= t && t % 2 == 1 && (t <= end_p + 2 || t == 3)
      invariant Grouped(t, interval_start, ppp) && EntriesSoFar(dtab, interval_start, interval_end, t)
      decreases end_p + 2 - t
    {
      dtab, interval_start, interval_end, ppp := EntryStep(dtab, interval_start, interval_end, t, ppp);
      GroupedFacts(t + 1, interval_start, ppp);
      EvenSkipped(t + 1);
      GroupedSkip(t + 1, interval_start, ppp);
      EntriesSkip(dtab, interval_start, interval_end, t + 1);
      t := t + 2;
    }
    omitted_p := interval_start;
    EntriesFacts(dtab, interval_start, interval_end, t);
    GroupedFacts(t, interval_start, ppp);
    LastStep(t, end_p);
  }

  lemma SingleProduct(t: nat)
    ensures Product([t]) == t
  {
    ProductOfMore([], t);
    assert [] + [t] == [t];
  }

  lemma EntriesJoin(a: seq<Entry>, ps: seq<nat>, b: seq<Entry>, qs: seq<nat>)
    requires EntriesCorrect(a, ps) && EntriesCorrect(b, qs)
    ensures EntriesCorrect(a + b, ps + qs)
  {
    hide EntryCorrect;
  }

  /** The loops end one past the last odd number, which changes no group. */
  lemma LastStep(t: nat, end_p: nat)
    requires 3 <= t && t % 2 == 1 && end_p < t && (t <= end_p + 2 || t == 3)
    ensures GroupStart(t) == GroupStart(if end_p < 3 then 3 else end_p + 1)
  {
    hide IsPrime, Stops, Product;
    if t == end_p + 2 && 3 <= end_p {
      EvenSkipped(end_p + 1);
      SkipNonPrime(3, end_p + 1);
    }
  }

  /** An entry decides divisibility of any limb by its prime. */
  lemma EntryDecides(e: Entry, p: nat, n: Word)
    requires EntryCorrect(e, p) && p < B
    ensures Wrap(n * e.inv) <= e.limit <==> Divides(p, n)
  {
    BinaryInverse.DivisibilityTest(p, e.inv, n);
  }

  /** One row of the second table: a product, its constants, and its window of primes. */
  datatype Row = Row(ppp: nat, pre: Precomputed, start: nat, count: nat)

  ghost predicate ConstantsCorrect(ppp: nat, pre: Precomputed) {
    && Usable(ppp) && pre.residues == Residues(ppp) && pre.cnt < 64
    && var n := ppp * Pow2(pre.cnt);
       0 <= n < B && Normalized(n) && (1 < ppp ==> IsInverse(pre.bi, n))
  }

  ghost predicate RowCorrect(row: Row, ps: seq<nat>) {
    && row.start + row.count <= |ps|
    && row.ppp == Product(ps[row.start..row.start + row.count])
    && ConstantsCorrect(row.ppp, row.pre)
  }

  /** The windows of the rows follow one another and cover the whole list. */
  ghost predicate RowsTile(rows: seq<Row>, ps: seq<nat>) {
    && (forall k :: 0 <= k < |rows| ==> RowCorrect(rows[k], ps))
    && (|rows| > 0 ==> rows[0].start == 0)
    && (forall k :: 0 < k < |rows| ==> rows[k].start == rows[k - 1].start + rows[k - 1].count)
    && |ps| == if |rows| == 0 then 0 else rows[|rows| - 1].start + rows[|rows| - 1].count
  }

  lemma RowStays(row: Row, ps: seq<nat>, qs: seq<nat>)
    requires RowCorrect(row, ps)
    ensures RowCorrect(row, ps + qs)
  {
    hide ConstantsCorrect, Product;
    assert (ps + qs)[row.start..row.start + row.count] == ps[row.start..row.start + row.count];
  }

  lemma NewRow(row: Row, ps: seq<nat>, qs: seq<nat>)
    requires row.start == |ps| && row.count == |qs| && row.ppp == Product(qs) && ConstantsCorrect(row.ppp, row.pre)
    ensures RowCorrect(row, ps + qs)
  {
    hide ConstantsCorrect, Product;
    assert (ps + qs)[row.start..row.start + row.count] == qs;
  }

  /** A row for the primes qs continues a tiling of ps. */
  lemma RowsContinue(rows: seq<Row>, ps: seq<nat>, row: Row, qs: seq<nat>)
    requires RowsTile(rows, ps)
    requires row.start == |ps| && row.count == |qs| && row.ppp == Product(qs) && ConstantsCorrect(row.ppp, row.pre)
    ensures RowsTile(rows + [row], ps + qs)
  {
    hide RowCorrect, ConstantsCorrect, Product;
    NewRow(row, ps, qs);
    forall k | 0 <= k < |rows|
      ensures RowCorrect(rows[k], ps + qs)
    {
      RowStays(rows[k], ps, qs);
    }
    var rows' := rows + [row];
    forall k | 0 < k < |rows'|
      ensures rows'[k].start == rows'[k - 1].start + rows'[k - 1].count
    {
      if k < |rows| { assert rows'[k] == rows[k] && rows'[k - 1] == rows[k - 1]; }
    }
  }

  /** mpn_mod_1s_4p_cps on a usable product gives the constants of a row. */
  method RowConstants(ppp: nat) returns (pre: Precomputed)
    requires Usable(ppp)
    ensures ConstantsCorrect(ppp, pre)
  {
    pre := ModCps(ppp);
    hide Pow2, Pow, SizeInBase2, IsInverse, Residues, Sum;
    ShiftedRange(ppp, pre.cnt);
  }

  /** The rows are the closed groups: row k holds the primes from bounds[k] up to, but
      not including, bounds[k + 1], the prime that stopped it. */
  ghost predicate RowsGrouped(rows: seq<Row>, bounds: seq<nat>) {
    && |bounds| == |rows| + 1 && bounds[0] == 3
    && forall k :: 0 <= k < |rows| ==> RowIsGroup(rows[k], bounds[k], bounds[k + 1])
  }

  ghost predicate RowIsGroup(row: Row, lo: nat, hi: nat) {
    Closed(lo, hi) && row.start == |PrimesIn(3, lo)| && row.count == |PrimesIn(lo, hi)|
  }

  /** What the second pass has done before the number t. */
  ghost predicate RowsSoFar(rows: seq<Row>, bounds: seq<nat>, s: nat, t: nat, np: nat, start_idx: nat) {
    && np == |PrimesIn(3, t)| && start_idx == |PrimesIn(3, s)|
    && RowsTile(rows, PrimesIn(3, s)) && RowsGrouped(rows, bounds) && bounds[|rows|] == s
  }

  lemma RowsStart()
    ensures RowsSoFar([], [3], 3, 3, 0, 0)
  {
    assert PrimesIn(3, 3) == [];
  }

  lemma RowsSkip(rows: seq<Row>, bounds: seq<nat>, s: nat, t: nat, np: nat, start_idx: nat)
    requires RowsSoFar(rows, bounds, s, t, np, start_idx) && 3 <= t && !IsPrime(t)
    ensures RowsSoFar(rows, bounds, s, t + 1, np, start_idx)
  {
    hide IsPrime, PrimesIn, GroupStart, RowsTile, RowsGrouped;
    SkipNonPrime(3, t);
  }

  lemma RowsGrow(rows: seq<Row>, bounds: seq<nat>, s: nat, t: nat, np: nat, start_idx: nat)
    requires RowsSoFar(rows, bounds, s, t, np, start_idx) && 3 <= t && IsPrime(t)
    ensures RowsSoFar(rows, bounds, s, t + 1, np + 1, start_idx)
  {
    hide IsPrime, PrimesIn, GroupStart, RowsTile, RowsGrouped;
    PrimesStep(3, t);
  }

  lemma RowsClose(rows: seq<Row>, bounds: seq<nat>, s: nat, t: nat, np: nat, start_idx: nat, ppp: nat, pre: Precomputed)
    requires RowsSoFar(rows, bounds, s, t, np, start_idx) && 3 <= s <= t && Closed(s, t)
    requires ppp == Product(PrimesIn(s, t)) && ConstantsCorrect(ppp, pre)
    ensures start_idx <= np
    ensures RowsSoFar(rows + [Row(ppp, pre, start_idx, np - start_idx)], bounds + [t], t, t, np, np)
  {
    hide PrimesIn, GroupStart, RowsTile, Closed, ConstantsCorrect, Product;
    PrimesJoin(3, s, t);
    var row := Row(ppp, pre, start_idx, np - start_idx);
    RowsContinue(rows, PrimesIn(3, s), row, PrimesIn(s, t));
  }

  lemma RowsFacts(rows: seq<Row>, bounds: seq<nat>, s: nat, t: nat, np: nat, start_idx: nat)
    requires RowsSoFar(rows, bounds, s, t, np, start_idx)
    ensures RowsTile(rows, PrimesIn(3, s)) && RowsGrouped(rows, bounds) && |bounds| == |rows| + 1 && bounds[|rows|] == s
  {
    hide RowsTile, RowIsGroup, PrimesIn;
  }

  /** A finished group becomes a row of the second table. */
  method CloseRow(rows: seq<Row>, ghost bounds: seq<nat>, ghost s: nat, t: nat, np: nat, start_idx: nat, ppp: nat)
    returns (rows': seq<Row>)
    requires Grouped(t, s, ppp) && RowsSoFar(rows, bounds, s, t, np, start_idx) && Closed(s, t)
    ensures RowsSoFar(rows', bounds + [t], t, t, np, np)
  {
    hide IsPrime, Stops, Grouped, GroupStart, RowsSoFar, Usable, ConstantsCorrect, PrimesIn, Product, Closed;
    GroupedFacts(t, s, ppp);
    GroupedUsable(t, s, ppp);
    var pre := RowConstants(ppp);
    RowsClose(rows, bounds, s, t, np, start_idx, ppp, pre);
    rows' := rows + [Row(ppp, pre, start_idx, np - start_idx)];
  }

  lemma GroupedUsable(t: nat, s: nat, ppp: int)
    requires Grouped(t, s, ppp)
    ensures Usable(ppp)
  {
  }

  /** The second pass for one odd number: a prime joins the open group or closes it. */
  method RowStep(rows: seq<Row>, ghost bounds: seq<nat>, ghost s: nat, t: nat, np: nat, start_idx: nat, ppp: nat)
    returns (rows': seq<Row>, ghost bounds': seq<nat>, ghost s': nat, np': nat, start_idx': nat, ppp': nat)
    requires 3 <= t < 0x8000_0000 && t % 2 == 1
    requires Grouped(t, s, ppp) && RowsSoFar(rows, bounds, s, t, np, start_idx)
    ensures Grouped(t + 1, s', ppp') && RowsSoFar(rows', bounds', s', t + 1, np', start_idx')
  {
    hide IsPrime, Stops, Grouped, GroupStart, RowsSoFar, Usable, PrimesIn, Product, Closed;
    rows', bounds', s', np', start_idx', ppp' := rows, bounds, s, np, start_idx, ppp;
    GroupedFacts(t, s, ppp);
    var prime := TrialPrimality.TestPrime(t);
    if !prime {
      GroupedSkip(t, s, ppp);
      RowsSkip(rows, bounds, s, t, np, start_idx);
      return;
    }
    var acc, stop := TestGroup(ppp, t);
    if stop {
      GroupedClose(t, s, ppp);
      rows' := CloseRow(rows, bounds, s, t, np, start_idx, ppp);
      ppp', s', start_idx', bounds' := t, t, np, bounds + [t];
    } else {
      GroupedGrow(t, s, ppp);
      ppp' := acc;
    }
    RowsGrow(rows', bounds', s', t, np, start_idx');
    np' := np + 1;
  }

  /** The second pass: rows whose windows tile the primes of the first table. `bounds`
      are the primes that start the groups. */
  method SecondPass(end_p: nat) returns (rows: seq<Row>, ghost bounds: seq<nat>)
    requires end_p < 0x8000_0000
    ensures RowsTile(rows, PrimesIn(3, GroupStart(if end_p < 3 then 3 else end_p + 1)))
    ensures RowsGrouped(rows, bounds) && |bounds| == |rows| + 1
    ensures bounds[|rows|] == GroupStart(if end_p < 3 then 3 else end_p + 1)
  {
    hide IsPrime, Stops, Grouped, GroupStart, RowsSoFar, RowsTile, RowsGrouped, Usable, ConstantsCorrect,
      PrimesIn, Product, Closed;
    var ppp: nat := 1;
    rows, bounds := [], [3];
    ghost var interval_start := 3;
    var np, start_idx := 0, 0;
    var t := 3;
    GroupedStart();
    RowsStart();
    while t <= end_p
      invariant 3 <= t && t % 2 == 1 && (t <= end_p + 2 || t == 3)
      invariant Grouped(t, interval_start, ppp)
      invariant RowsSoFar(rows, bounds, interval_start, t, np, start_idx)
      decreases end_p + 2 - t
    {
      rows, bounds, interval_start, np, start_idx, ppp :=
        RowStep(rows, bounds, interval_start, t, np, start_idx, ppp);
      EvenSkipped(t + 1);
      GroupedSkip(t + 1, interval_start, ppp);
      RowsSkip(rows, bounds, interval_start, t + 1, np, start_idx);
      t := t + 2;
    }
    GroupedFacts(t, interval_start, ppp);
    RowsFacts(rows, bounds, interval_start, t, np, start_idx);
    LastStep(t, end_p);
  }

  /** Both tables: the entries are exactly the odd primes below the smallest omitted
      one, the windows of the rows tile them, each row stops exactly where the next
      prime no longer fits, and the primes from the omitted one to end_p are the one
      group still open. */
  method GenerateTables(end_p: nat)
    returns (dtab: seq<Entry>, omitted_p: nat, rows: seq<Row>, ghost bounds: seq<nat>)
    requires end_p < 0x8000_0000
    ensures EntriesCorrect(dtab, PrimesIn(3, omitted_p))
    ensures RowsTile(rows, PrimesIn(3, omitted_p))
    ensures RowsGrouped(rows, bounds) && |bounds| == |rows| + 1 && bounds[|rows|] == omitted_p
    ensures IsPrime(omitted_p) && ClosedChain(bounds, end_p)
    ensures forall k, t ::
      0 <= k < |bounds| && bounds[k] < t <= (if k + 1 < |bounds| then bounds[k + 1] else end_p + 1) ==>
      var x := Product(PrimesIn(bounds[k], t));
      0 < x && 2 * x < B
      && Pow(B, 1) % x + Pow(B, 2) % x + Pow(B, 3) % x + Pow(B, 4) % x + Pow(B, 5) % x < B
    ensures forall k {:trigger rows[k]} :: 0 <= k < |rows| ==>
      && rows[k].ppp == Product(PrimesIn(bounds[k], bounds[k + 1])) && IsPrime(bounds[k + 1])
      && var x := rows[k].ppp * bounds[k + 1];
      0 < x && (B <= 2 * x
      || B <= Pow(B, 1) % x + Pow(B, 2) % x + Pow(B, 3) % x + Pow(B, 4) % x + Pow(B, 5) % x)
  {
    hide *;
    dtab, omitted_p := FirstPass(end_p);
    rows, bounds := SecondPass(end_p);
    var t := if end_p < 3 then 3 else end_p + 1;
    GroupStartIsPrime(t);
    GroupIsOpen(t);
    GroupStartRange(t);
    if end_p < 3 { NothingAbove(omitted_p, end_p + 1); }
    ChainFromRows(rows, bounds, end_p);
    forall k, t | 0 <= k < |bounds| && bounds[k] < t <= (if k + 1 < |bounds| then bounds[k + 1] else end_p + 1)
      ensures
        var x := Product(PrimesIn(bounds[k], t));
        0 < x && 2 * x < B
        && Pow(B, 1) % x + Pow(B, 2) % x + Pow(B, 3) % x + Pow(B, 4) % x + Pow(B, 5) % x < B
    {
      GroupInNumbers(bounds, end_p, k, t);
    }
    forall k {:trigger rows[k]} | 0 <= k < |rows|
      ensures
        && rows[k].ppp == Product(PrimesIn(bounds[k], bounds[k + 1])) && IsPrime(bounds[k + 1])
        && var x := rows[k].ppp * bounds[k + 1];
        0 < x && (B <= 2 * x
        || B <= Pow(B, 1) % x + Pow(B, 2) % x + Pow(B, 3) % x + Pow(B, 4) % x + Pow(B, 5) % x)
    {
      RowInNumbers(rows, bounds, PrimesIn(3, omitted_p), end_p, k);
    }
  }

  /** The products of a group stay below B / 2 and their five residues below B
      together, prime by prime, and up to end_p in the open group. */
  lemma GroupInNumbers(bounds: seq<nat>, end_p: nat, k: nat, t: nat)
    requires end_p < 0x8000_0000 && ClosedChain(bounds, end_p) && k < |bounds|
    requires bounds[k] < t <= if k + 1 < |bounds| then bounds[k + 1] else end_p + 1
    ensures
      var x := Product(PrimesIn(bounds[k], t));
      0 < x && 2 * x < B
      && Pow(B, 1) % x + Pow(B, 2) % x + Pow(B, 3) % x + Pow(B, 4) % x + Pow(B, 5) % x < B
  {
    hide *;
    GroupFrom(bounds, end_p, k, t);
    GroupFits(bounds[k], t);
  }

  /** The prime a row stops at would break one of the two bounds. */
  lemma RowInNumbers(rows: seq<Row>, bounds: seq<nat>, ps: seq<nat>, end_p: nat, k: nat)
    requires end_p < 0x8000_0000 && RowsTile(rows, ps) && RowsGrouped(rows, bounds) && ClosedChain(bounds, end_p)
    requires k < |rows| && |bounds| == |rows| + 1 && ps == PrimesIn(3, bounds[|rows|])
    ensures
      && rows[k].ppp == Product(PrimesIn(bounds[k], bounds[k + 1])) && IsPrime(bounds[k + 1])
      && var x := rows[k].ppp * bounds[k + 1];
      0 < x && (B <= 2 * x
      || B <= Pow(B, 1) % x + Pow(B, 2) % x + Pow(B, 3) % x + Pow(B, 4) % x + Pow(B, 5) % x)
  {
    hide *;
    RowProduct(rows, bounds, ps, end_p, k);
    ClosedFacts(bounds, end_p, k + 1);
    StopsInNumbers(Product(PrimesIn(bounds[k], bounds[k + 1])), bounds[k + 1]);
  }

  lemma ClosedFacts(bounds: seq<nat>, end_p: nat, k: nat)
    requires end_p < 0x8000_0000 && ClosedChain(bounds, end_p) && 1 <= k < |bounds|
    ensures 3 <= bounds[k - 1] && 0 < bounds[k] && IsPrime(bounds[k])
    ensures Product(PrimesIn(bounds[k - 1], bounds[k])) > 0
    ensures Stops(Product(PrimesIn(bounds[k - 1], bounds[k])), bounds[k])
  {
    assert Closed(bounds[k - 1], bounds[k]);
    GroupFrom(bounds, end_p, k - 1, bounds[k]);
    hide *;
    GroupFits(bounds[k - 1], bounds[k]);
  }

  /** Up to any number below its stop a group is open. */
  lemma GroupFrom(bounds: seq<nat>, end_p: nat, k: nat, t: nat)
    requires end_p < 0x8000_0000 && ClosedChain(bounds, end_p) && k < |bounds|
    requires bounds[k] < t <= if k + 1 < |bounds| then bounds[k + 1] else end_p + 1
    ensures 3 <= bounds[k] < 0x8000_0000 && IsPrime(bounds[k]) && Open(bounds[k], t)
  {
    hide IsPrime, Stops, Product, PrimesIn;
    if k > 0 { ChainRises(bounds, end_p, k); }
    if k + 1 < |bounds| { assert Closed(bounds[k + 1 - 1], bounds[k + 1]); }
    ThreeIsPrime();
    if k > 0 { assert Closed(bounds[k - 1], bounds[k]); }
  }

  lemma ThreeIsPrime()
    ensures IsPrime(3)
  {
    assert !Divides(2, 3);
  }

  /** The product of a group that no prime has stopped is below both bounds. */
  lemma {:induction false} GroupFits(lo: nat, t: nat)
    requires 3 <= lo < t && lo < 0x8000_0000 && IsPrime(lo) && Open(lo, t)
    ensures
      var x := Product(PrimesIn(lo, t));
      0 < x && 2 * x < B
      && Pow(B, 1) % x + Pow(B, 2) % x + Pow(B, 3) % x + Pow(B, 4) % x + Pow(B, 5) % x < B
    decreases t
  {
    hide IsPrime, Product, PrimesIn, Stops, Pow;
    PrimesStep(lo, t - 1);
    if t == lo + 1 {
      NoPrimesYet(lo);
      SingleProduct(lo);
      ResidueBounds(lo);
    } else {
      GroupFits(lo, t - 1);
      if IsPrime(t - 1) {
        ProductOfMore(PrimesIn(lo, t - 1), t - 1);
        StopsInNumbers(Product(PrimesIn(lo, t - 1)), t - 1);
      }
    }
  }

  lemma NoPrimesYet(lo: nat)
    ensures PrimesIn(lo, lo) + [lo] == [lo]
  {
  }

  lemma ResidueBounds(x: nat)
    requires 0 < x
    ensures 0 <= Pow(B, 1) % x + Pow(B, 2) % x + Pow(B, 3) % x + Pow(B, 4) % x + Pow(B, 5) % x < 5 * x
  {
    hide Pow;
  }

  /** Stops in numbers. */
  lemma StopsInNumbers(ppp: nat, t: nat)
    requires 0 < ppp && 0 < t
    ensures
      var x := ppp * t;
      0 < x && (Stops(ppp, t) <==> (B <= 2 * x
      || B <= Pow(B, 1) % x + Pow(B, 2) % x + Pow(B, 3) % x + Pow(B, 4) % x + Pow(B, 5) % x))
  {
    hide Pow, Sum, Residue;
    MulStrictlyMonotone(ppp, 0, t);
    SumOfResidues(ppp * t);
  }

  lemma SumOfResidues(x: nat)
    requires 0 < x
    ensures Sum(Residues(x)) == Pow(B, 1) % x + Pow(B, 2) % x + Pow(B, 3) % x + Pow(B, 4) % x + Pow(B, 5) % x
  {
    hide Pow, Sum, Residue;
    ResiduesArePowers(x);
    SumOfFive(Residue(x, 1), Residue(x, 2), Residue(x, 3), Residue(x, 4), Residue(x, 5));
  }

  lemma RowProduct(rows: seq<Row>, bounds: seq<nat>, ps: seq<nat>, end_p: nat, k: nat)
    requires RowsTile(rows, ps) && RowsGrouped(rows, bounds) && ClosedChain(bounds, end_p)
    requires k < |rows| && ps == PrimesIn(3, bounds[|rows|])
    ensures rows[k].ppp == Product(PrimesIn(bounds[k], bounds[k + 1]))
  {
    hide IsPrime, PrimesIn, Product, ConstantsCorrect, Stops, Open;
    var lo, hi, last := bounds[k], bounds[k + 1], bounds[|rows|];
    assert RowIsGroup(rows[k], lo, hi) && RowCorrect(rows[k], ps);
    ChainStarts(bounds, end_p, k);
    ChainRises(bounds, end_p, k + 1);
    PrimesJoin(3, lo, hi);
    PrimesJoin(3, hi, last);
    var a, b, c := PrimesIn(3, lo), PrimesIn(lo, hi), PrimesIn(hi, last);
    assert (a + b + c)[|a|..|a| + |b|] == b;
  }

  lemma NothingAbove(lo: nat, hi: nat)
    requires hi <= lo + 1
    ensures Open(lo, hi)
  {
  }

  lemma ChainFromRows(rows: seq<Row>, bounds: seq<nat>, end_p: nat)
    requires RowsGrouped(rows, bounds) && Open(bounds[|rows|], end_p + 1)
    requires bounds[|rows|] == 3 || bounds[|rows|] <= end_p
    ensures ClosedChain(bounds, end_p)
  {
    hide Closed, Open, PrimesIn;
    forall k | 1 <= k < |bounds|
      ensures Closed(bounds[k - 1], bounds[k])
    {
      assert RowIsGroup(rows[k - 1], bounds[k - 1], bounds[k - 1 + 1]);
    }
  }

  /** The starts of the groups: each group closes at the start of the next, and the
      last one is still open at end_p. */
  ghost predicate ClosedChain(bounds: seq<nat>, end_p: nat) {
    && |bounds| > 0 && bounds[0] == 3
    && (forall k :: 1 <= k < |bounds| ==> Closed(bounds[k - 1], bounds[k]))
    && (bounds[|bounds| - 1] == 3 || bounds[|bounds| - 1] <= end_p) && Open(bounds[|bounds| - 1], end_p + 1)
  }

  lemma {:induction false} ChainRises(bounds: seq<nat>, end_p: nat, k: nat)
    requires ClosedChain(bounds, end_p) && 1 <= k < |bounds|
    ensures 3 < bounds[k] <= bounds[|bounds| - 1] <= end_p
    decreases |bounds| - k
  {
    hide Open, IsPrime, Stops;
    ChainStarts(bounds, end_p, k);
    if k + 1 < |bounds| {
      assert Closed(bounds[k + 1 - 1], bounds[k + 1]);
      ChainRises(bounds, end_p, k + 1);
    }
  }

  lemma {:induction false} ChainStarts(bounds: seq<nat>, end_p: nat, k: nat)
    requires ClosedChain(bounds, end_p) && k < |bounds|
    ensures if k == 0 then bounds[k] == 3 else 3 < bounds[k]
  {
    hide Open, IsPrime, Stops;
    if k > 0 {
      ChainStarts(bounds, end_p, k - 1);
      assert Closed(bounds[k - 1], bounds[k]);
    }
  }

  /** The contract of GenerateTables leaves no choice: the grouping is unique. */
  lemma {:induction false} GroupingIsUnique(bounds: seq<nat>, bounds': seq<nat>, end_p: nat, k: nat)
    requires ClosedChain(bounds, end_p) && ClosedChain(bounds', end_p) && k < |bounds|
    ensures k < |bounds'| && bounds[k] == bounds'[k]
  {
    hide Closed, Open;
    if k > 0 {
      GroupingIsUnique(bounds, bounds', end_p, k - 1);
      ChainRises(bounds, end_p, k);
      var lo := bounds[k - 1];
      if k < |bounds'| {
        assert Closed(bounds'[k - 1], bounds'[k]);
        StopIsUnique(lo, bounds[k], bounds'[k]);
      } else {
        StopIsUnique(lo, bounds[k], end_p + 1);
      }
    }
  }
}
