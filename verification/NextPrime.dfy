/** The incremental prime generator (gmp_init_primesieve and gmp_nextprime in
    nextprime.c): a window of 512 odd numbers that is sieved again whenever it is
    used up. Unsigned longs wrap around modulo 2^64. Windows near 2^64 feel that:
    the root loop overshoots, and a divisor p is not used as intended once s0 + p
    wraps. What the generator returns is characterised for every window that fits a
    word, and compared with the primes. */
module NextPrime {
  import opened Arithmetic
  import opened Primes
  import opened Progressions
  import opened Wheel
  import opened WordArithmetic

  const SIEVESIZE: nat := 512

  /** The square of the largest root whose successor can still be squared in a word. */
  const ROOF: int := 0xffff_ffff * 0xffff_ffff

  /** Its successor squared is -7 modulo 2^64, so the root loop never passes it. */
  const LAST_ROOT: nat := 1852311383259529396

  /** A window that fits a word. Windows start at 3 modulo 1024, so none that fits
      ends in the last seven words. */
  ghost predicate GoodWindow(s0: int) {
    3 <= s0 && s0 % 2 == 1 && s0 + 2 * SIEVESIZE - 1 < B - 7
  }

  // ---------------------------------------------------------------- striking out one divisor

  /** The index where striking out starts. */
  function StrikeStart(s0: Word, p: nat): int
    requires 0 < p
  {
    var i := FirstIndex(Wrap(s0 + p) / 2, p);
    if Wrap(s0 + 2 * i) <= p then i + p else i
  }

  /** The distance from h up to the next multiple of p. */
  function FirstIndex(h: nat, p: nat): int
    requires 0 < p
  {
    var r := h % p;
    if r > 0 then p - r else r
  }

  /** What striking out with p marks: the proper multiples of p while s0 + p fits a
      word, the first entry if s0 + p is exactly 2^64, and nothing past that. */
  ghost predicate Hits(s0: int, p: nat, n: int)
    requires 0 < p
  {
    if s0 + p < B then p < n && Divides(p, n) else s0 + p == B && n == s0
  }

  /** The least index of a multiple of p, as the code finds it with h = (s0 + p) / 2. */
  lemma FirstMultiple(s0: int, p: int, h: int, i: int) returns (c: int)
    requires 3 <= s0 && 3 <= p && 0 <= h && 2 * h == s0 + p && i == FirstIndex(h, p)
    ensures 0 <= i < p && h + i == p * c && 1 <= c && s0 + 2 * i == p * (2 * c - 1)
  {
    DivModIdentity(h, p);
    c := if h % p > 0 then h / p + 1 else h / p;
    MulDistributes(p, h / p, 1);
    if c < 1 { MulMonotone(p, c, 0); }
    MulDistributes(p, 2 * c, -1);
    MulAssociates(p, 2, c);
  }

  /** An index on the progression of the first multiple holds a multiple. */
  lemma TermIsMultiple(s0: int, p: int, h: int, i: int, c: int, j: nat)
    requires 3 <= p && 2 * h == s0 + p && 0 <= i < p && h + i == p * c && OnProgression(j, i, p)
    ensures Divides(p, s0 + 2 * j)
  {
    DivModIdentity(j - i, p);
    hide *;
    SumOfTerms(s0, p, h, i, c, j, (j - i) / p);
  }

  lemma SumOfTerms(s0: int, p: int, h: int, i: int, c: int, j: int, k: int)
    requires 0 < p && 2 * h == s0 + p && h + i == p * c && j - i == p * k
    ensures Divides(p, s0 + 2 * j)
  {
    hide Divides;
    MulDistributes(p, 2 * c - 1, 2 * k);
    MulDistributes(p, 2 * c, -1);
    MulAssociates(p, 2, c);
    MulAssociates(p, 2, k);
    MultipleIsDivisible(p, 2 * c - 1 + 2 * k);
  }

  /** An index that holds a multiple follows the first one by steps of p. */
  lemma MultipleIsTerm(s0: int, p: int, h: int, i: int, c: int, j: nat)
    requires 3 <= p && p % 2 == 1 && 2 * h == s0 + p && 0 <= i < p && h + i == p * c
    requires Divides(p, s0 + 2 * j)
    ensures OnProgression(j, i, p)
  {
    hide Divides;
    MultipleIsDivisible(p, 1);
    DividesSum(p, p, s0 + 2 * j);
    HalfOfMultiple(p, h + j);
    var e := (h + j) / p;
    DivisibleIsMultiple(p, h + j);
    MulDistributes(p, e, -c);
    var k := e - c;
    assert j - i == k * p;
    if k < 0 { MulMonotone(p, k, -1); }
    DivModUnique(j - i, p, k, 0);
  }

  lemma ShiftedProgression(j: nat, i: nat, p: nat)
    requires 0 < p && i < p
    ensures OnProgression(j, i + p, p) <==> OnProgression(j, i, p) && j != i
  {
    if i + p <= j {
      ModAddMultiple(j - i - p, 1, p);
    } else if i < j && OnProgression(j, i, p) {
      ModSmall(j - i, p);
    }
  }

  lemma TermsFollowStart(j: nat, i: nat, p: nat)
    requires 0 < p
    ensures OnProgression(j, i, p) ==> i <= j
  {
  }

  /** s0 + p fits a word: the start is the first multiple, or the next one when the
      first is p itself or lies past the word. */
  lemma StartInWord(s0: Word, p: nat) returns (h: int, i: int, c: int)
    requires 3 <= s0 && s0 % 2 == 1 && 3 <= p && p % 2 == 1 && s0 + p < B
    ensures 2 * h == s0 + p && 0 <= i < p && h + i == p * c && 1 <= c && s0 + 2 * i == p * (2 * c - 1)
    ensures StrikeStart(s0, p) == if s0 + 2 * i <= p || B <= s0 + 2 * i then i + p else i
  {
    hide Wrap, FirstIndex;
    h := (s0 + p) / 2;
    WrapSmall(s0 + p);
    i := FirstIndex(h, p);
    c := FirstMultiple(s0, p, h, i);
    if s0 + 2 * i < B {
      WrapSmall(s0 + 2 * i);
    } else {
      WrapPast(s0 + 2 * i);
    }
  }

  lemma WrapPast(x: int)
    requires B <= x < 2 * B
    ensures Wrap(x) == x - B
  {
    WrapShift(x - B, 1);
    WrapSmall(x - B);
  }

  /** s0 + p wraps: the start is 0 for p = 2^64 - s0, and past the window otherwise. */
  lemma StartPastWord(s0: Word, p: nat)
    requires GoodWindow(s0) && 3 <= p <= LAST_ROOT && p % 2 == 1 && B <= s0 + p
    ensures if s0 + p == B then StrikeStart(s0, p) == 0 else SIEVESIZE <= StrikeStart(s0, p)
  {
    hide Wrap;
    WrapPast(s0 + p);
    var r := (s0 + p - B) / 2;
    ModSmall(r, p);
    if r > 0 {
      assert s0 + 2 * (p - r) == B + p;
      WrapPast(B + p);
    } else {
      WrapSmall(s0);
    }
  }

  /** Starting there and stepping by p meets exactly the entries of Hits. */
  lemma StrikeMeetsHits(s0: Word, p: nat, j: nat)
    requires GoodWindow(s0) && 3 <= p <= LAST_ROOT && p % 2 == 1 && j < SIEVESIZE
    ensures 0 <= StrikeStart(s0, p)
    ensures OnProgression(j, StrikeStart(s0, p), p) <==> Hits(s0, p, s0 + 2 * j)
  {
    hide OnProgression, Divides, StrikeStart;
    if s0 + p < B {
      var h, i, c := StartInWord(s0, p);
      if OnProgression(j, i, p) { TermIsMultiple(s0, p, h, i, c, j); }
      if Divides(p, s0 + 2 * j) { MultipleIsTerm(s0, p, h, i, c, j); }
      TermsFollowStart(j, i, p);
      ShiftedProgression(j, i, p);
      if 2 <= c { MulMonotone(p, 3, 2 * c - 1); }
    } else {
      StartPastWord(s0, p);
      TermsFollowStart(j, StrikeStart(s0, p), p);
      if s0 + p == B { OnlyTheFirst(j, p); }
    }
  }

  lemma OnlyTheFirst(j: nat, p: nat)
    requires j < p
    ensures OnProgression(j, 0, p) <==> j == 0
  {
    ModSmall(j, p);
  }

  /** Marks what p hits in the window, and nothing else. */
  method Strike(s: array<int>, s0: Word, p: nat)
    requires s.Length == SIEVESIZE + 1
    requires GoodWindow(s0) && 3 <= p <= LAST_ROOT && p % 2 == 1
    modifies s
    ensures forall j :: 0 <= j < SIEVESIZE ==> (s[j] != 0 <==> old(s[j]) != 0 || Hits(s0, p, s0 + 2 * j))
    ensures s[SIEVESIZE] == old(s[SIEVESIZE])
  {
    hide Wrap, OnProgression, Hits, StrikeStart, NoTermIn;
    StrikeMeetsHits(s0, p, 0);
    var start := StrikeStart(s0, p);
    var sp := start;
    ProgressionStart(start, p);
    while sp < SIEVESIZE
      invariant start <= sp && OnProgression(sp, start, p)
      invariant forall j :: 0 <= j < SIEVESIZE ==>
        (s[j] != 0 <==> old(s[j]) != 0 || Reached(j, start, p, sp))
      invariant s[SIEVESIZE] == old(s[SIEVESIZE])
      decreases SIEVESIZE - sp
    {
      forall j: nat
        ensures Reached(j, start, p, sp + p) <==> Reached(j, start, p, sp) || j == sp
      {
        ReachedNext(j, start, p, sp);
      }
      s[sp] := 1;
      NextTerm(start, p, sp);
      sp := sp + p;
    }
    forall j | 0 <= j < SIEVESIZE
      ensures s[j] != 0 <==> old(s[j]) != 0 || Hits(s0, p, s0 + 2 * j)
    {
      StrikeMeetsHits(s0, p, j);
    }
  }

  lemma ProgressionStart(start: nat, p: nat)
    requires 0 < p
    ensures OnProgression(start, start, p) && NoTermIn(0, start, start, p)
    ensures forall j :: 0 <= j < start ==> !Reached(j, start, p, start)
  {
    ModSmall(0, p);
  }

  lemma ReachedNext(j: nat, first: nat, step: nat, next: nat)
    requires 0 < step && OnProgression(next, first, step)
    ensures Reached(j, first, step, next + step) <==> Reached(j, first, step, next) || j == next
  {
    hide OnProgression;
    NextTerm(first, step, next);
  }

  // ---------------------------------------------------------------- the root loop

  /** What (sqrt_s0 + 1)^2 leaves in a word. */
  function Square(r: nat): Word {
    Wrap(r * r)
  }

  /** The loop that raises sqrt_s0 runs past every number up to r. */
  ghost predicate RunsPast(r: nat, end: int) {
    forall x :: 1 <= x <= r ==> Square(x) <= end
  }

  /** Where the loop leaves sqrt_s0, from whichever smaller value it starts. */
  ghost predicate StopsAt(root: nat, end: int) {
    RunsPast(root, end) && end < Square(root + 1)
  }

  lemma LastRootStops()
    ensures Square(LAST_ROOT + 1) == B - 7
  {
    DivModUnique((LAST_ROOT + 1) * (LAST_ROOT + 1), B, 185997997632698875, B - 7);
  }

  lemma SquareSmall(r: nat)
    requires r < H
    ensures Square(r) == r * r
  {
    hide Wrap;
    MulMonotone(r, r, H - 1);
    MulMonotone(H - 1, r, H - 1);
    MulMonotone(r, 0, r);
    WrapSmall(r * r);
  }

  /** A number is passed exactly when it is not above the stop. */
  lemma PassedBelowStop(x: nat, root: nat, end: int)
    requires StopsAt(root, end)
    ensures x <= root <==> RunsPast(x, end)
  {
    hide Square;
    if root < x { assert 1 <= root + 1 <= x; }
  }

  /** The true root of the window's end is passed or reached. */
  lemma StopIsNotBelowRoot(q: nat, root: nat, end: Word)
    requires StopsAt(root, end) && q * q <= end
    ensures q <= root
  {
    hide Square, Wrap;
    if root < q {
      MulMonotone(root + 1, root + 1, q);
      MulMonotone(q, root + 1, q);
      MulMonotone(root + 1, 0, root + 1);
      if H <= root + 1 {
        MulMonotone(H, H, root + 1);
        MulMonotone(root + 1, H, root + 1);
      }
      SquareSmall(root + 1);
      assert false;
    }
  }

  ghost predicate IsRoot(root: nat, n: int) {
    root * root <= n < (root + 1) * (root + 1)
  }

  /** The loop's exit test succeeds at the true root exactly when the window ends
      below ROOF; from there on the square wraps to a small number. */
  lemma RootLoopStops(root: nat, end: Word)
    requires IsRoot(root, end)
    ensures end < Square(root + 1) <==> end < ROOF
  {
    hide Wrap, Square;
    if end < ROOF {
      RootInWord(root, end);
      SquareSmall(root + 1);
    } else {
      if root < 0xffff_ffff {
        MulMonotone(root + 1, root + 1, 0xffff_ffff);
        MulMonotone(0xffff_ffff, root + 1, 0xffff_ffff);
      }
      if 0xffff_ffff < root {
        MulMonotone(H, H, root);
        MulMonotone(root, H, root);
      }
      SquareOfH();
    }
  }

  lemma SquareOfH()
    ensures Square(H) == 0
  {
    WrapShift(0, 1);
    WrapSmall(0);
  }

  lemma RootInWord(root: nat, end: int)
    requires root * root <= end < ROOF
    ensures root + 1 < H
  {
    if 0xffff_ffff <= root {
      MulMonotone(0xffff_ffff, 0xffff_ffff, root);
      MulMonotone(root, 0xffff_ffff, root);
    }
  }

  /** From ROOF on the loop overshoots: it runs past 2^32. */
  lemma RootLoopOvershoots(end: int)
    requires ROOF <= end
    ensures RunsPast(H, end)
  {
    hide Square;
    forall x | 1 <= x <= H
      ensures Square(x) <= end
    {
      if x < H {
        SquareSmall(x);
        MulMonotone(x, x, H - 1);
        MulMonotone(H - 1, x, H - 1);
      } else {
        SquareOfH();
      }
    }
  }

  /** sqrt_s0 is raised until its successor's square, as a word, lies past the end. */
  method RaiseRoot(root0: nat, s0: Word) returns (root: nat)
    requires GoodWindow(s0) && root0 <= LAST_ROOT && RunsPast(root0, s0 + 2 * SIEVESIZE - 1)
    ensures StopsAt(root, s0 + 2 * SIEVESIZE - 1) && root <= LAST_ROOT
  {
    hide Square;
    root := root0;
    var end := s0 + 2 * SIEVESIZE - 1;
    LastRootStops();
    while Square(root + 1) <= end
      invariant root <= LAST_ROOT && RunsPast(root, end)
      decreases LAST_ROOT - root
    {
      root := root + 1;
    }
  }

  lemma RunsPastLater(root: nat, end: int, end': int)
    requires RunsPast(root, end) && end <= end'
    ensures RunsPast(root, end')
  {
  }

  // ---------------------------------------------------------------- sieving a window

  /** The divisors the generator strikes out with. */
  ghost predicate SievesWith(w: nat) {
    w == 3 || w == 5 || w == 7 || (11 <= w && PrimeTo210(w))
  }

  ghost predicate StruckBy(s0: int, n: int, w: nat) {
    SievesWith(w) && 0 < w && Hits(s0, w, n)
  }

  /** A sieving divisor below p hits n. */
  ghost predicate Struck(s0: int, n: int, p: nat) {
    exists w :: 3 <= w < p && StruckBy(s0, n, w)
  }

  lemma StruckNext(s0: int, n: int, p: nat, p': nat)
    requires 3 <= p < p' && SievesWith(p) && forall x :: p < x < p' ==> !SievesWith(x)
    ensures Struck(s0, n, p') <==> Struck(s0, n, p) || Hits(s0, p, n)
  {
    hide SievesWith, Hits;
    if Struck(s0, n, p) {
      var w :| 3 <= w < p && StruckBy(s0, n, w);
      assert 3 <= w < p';
    }
    if Hits(s0, p, n) {
      assert StruckBy(s0, n, p);
    }
  }

  lemma SmallSieving()
    ensures SievesWith(3) && SievesWith(5) && SievesWith(7)
    ensures !SievesWith(4) && !SievesWith(6) && forall x :: 7 < x < 11 ==> !SievesWith(x)
  {
  }

  lemma WheelSieving(p: nat, ai: nat)
    requires 11 <= p && OnWheel(p, ai)
    ensures SievesWith(p) && OnWheel(p + Gap(ai), (ai + 1) % 48) && Gap(ai) > 0
    ensures forall x :: p < x < p + Gap(ai) ==> !SievesWith(x)
  {
    hide PrimeTo210, OnWheel;
    WheelStep(p, ai);
  }

  lemma FactorIsSieving(q: nat)
    requires IsPrime(q) && q != 2
    ensures 3 <= q && SievesWith(q)
  {
    assert q == 4 || q == 6 ==> Divides(2, q);
    assert 7 < q ==> !Divides(2, q) && !Divides(3, q) && !Divides(5, q) && !Divides(7, q);
  }

  lemma OddFactor(n: nat, q: int)
    requires n % 2 == 1 && 2 <= q && Divides(q, n)
    ensures q != 2
  {
  }

  /** n has a proper divisor below e. */
  ghost predicate FactorBelow(n: int, e: int) {
    exists w :: 2 <= w < e && ProperDivisor(w, n)
  }

  ghost predicate ProperDivisor(w: int, n: int) {
    0 < w < n && Divides(w, n)
  }

  /** The first entry is struck by the divisor 2^64 - s0, which does not divide it. */
  ghost predicate StartDropped(s0: int) {
    s0 < B && PrimeTo210(B - s0) && RunsPast(B - s0, s0 + 2 * SIEVESIZE - 1)
  }

  /** What a resieve leaves at zero, in terms of numbers only: n has no proper divisor
      p with s0 + p below 2^64, and is not a dropped first entry. */
  ghost predicate Kept(s0: int, n: int) {
    !FactorBelow(n, B - s0) && !(n == s0 && StartDropped(s0))
  }

  /** p is the first sieving number past the root. */
  ghost predicate UpToRoot(p: nat, root: nat) {
    root < p && forall w :: 11 <= w < p && SievesWith(w) ==> w <= root
  }

  lemma StruckIsNotKept(s0: int, n: int, p: nat, root: nat)
    requires GoodWindow(s0) && StopsAt(root, s0 + 2 * SIEVESIZE - 1) && UpToRoot(p, root)
    requires Struck(s0, n, p)
    ensures !Kept(s0, n)
  {
    hide Divides, RunsPast, StopsAt, PrimeTo210;
    var w :| 3 <= w < p && StruckBy(s0, n, w);
    if s0 + w < B {
      assert ProperDivisor(w, n);
    } else {
      PassedBelowStop(w, root, s0 + 2 * SIEVESIZE - 1);
      assert StartDropped(s0);
    }
  }

  lemma DroppedIsStruck(s0: int, p: nat, root: nat)
    requires GoodWindow(s0) && StopsAt(root, s0 + 2 * SIEVESIZE - 1) && root < p && StartDropped(s0)
    ensures Struck(s0, s0, p)
  {
    hide Divides, RunsPast, StopsAt, PrimeTo210;
    PassedBelowStop(B - s0, root, s0 + 2 * SIEVESIZE - 1);
    assert StruckBy(s0, s0, B - s0);
  }

  lemma FactorIsStruck(s0: int, n: int, p: nat, root: nat)
    requires GoodWindow(s0) && StopsAt(root, s0 + 2 * SIEVESIZE - 1) && root < p
    requires s0 <= n < s0 + 2 * SIEVESIZE && n % 2 == 1 && FactorBelow(n, B - s0)
    ensures Struck(s0, n, p)
  {
    hide IsPrime, Divides, StopsAt, SievesWith;
    var w :| 2 <= w < B - s0 && ProperDivisor(w, n);
    ProperDivisorIsComposite(w, n);
    var q := LeastFactor(n);
    OddFactor(n, q);
    FactorIsSieving(q);
    StopIsNotBelowRoot(q, root, s0 + 2 * SIEVESIZE - 1);
    MulStrictlyMonotone(q, 1, q);
    assert StruckBy(s0, n, q);
  }

  /** Once every sieving divisor up to the root is done, what is not struck is kept. */
  lemma StruckExactly(s0: int, n: int, p: nat, root: nat)
    requires GoodWindow(s0) && StopsAt(root, s0 + 2 * SIEVESIZE - 1) && UpToRoot(p, root)
    requires s0 <= n < s0 + 2 * SIEVESIZE && n % 2 == 1
    ensures Struck(s0, n, p) <==> !Kept(s0, n)
  {
    hide StopsAt, Struck, FactorBelow, StartDropped;
    if Struck(s0, n, p) {
      StruckIsNotKept(s0, n, p, root);
    } else if FactorBelow(n, B - s0) {
      FactorIsStruck(s0, n, p, root);
    } else if n == s0 && StartDropped(s0) {
      DroppedIsStruck(s0, p, root);
    }
  }

  /** The window at s0 with the divisors below p struck out. */
  ghost predicate StruckWindow(s: array<int>, s0: nat, p: nat)
    requires s.Length == SIEVESIZE + 1
    reads s
  {
    && s[SIEVESIZE] == 0
    && forall j :: 0 <= j < SIEVESIZE ==> (s[j] != 0 <==> Struck(s0, s0 + 2 * j, p))
  }

  /** The window at s0 with a zero exactly at the kept numbers. */
  ghost predicate SievedWindow(s: array<int>, s0: nat)
    requires s.Length == SIEVESIZE + 1
    reads s
  {
    && s[SIEVESIZE] == 0
    && forall j :: 0 <= j < SIEVESIZE ==> (s[j] == 0 <==> Kept(s0, s0 + 2 * j))
  }

  method StrikeNext(s: array<int>, s0: Word, p: nat, ghost p': nat)
    requires s.Length == SIEVESIZE + 1 && GoodWindow(s0) && StruckWindow(s, s0, p)
    requires 3 <= p <= LAST_ROOT && p % 2 == 1
    requires p < p' && SievesWith(p) && forall x :: p < x < p' ==> !SievesWith(x)
    modifies s
    ensures StruckWindow(s, s0, p')
  {
    hide SievesWith, Struck, Hits;
    Strike(s, s0, p);
    forall j | 0 <= j < SIEVESIZE
      ensures s[j] != 0 <==> Struck(s0, s0 + 2 * j, p')
    {
      StruckNext(s0, s0 + 2 * j, p, p');
    }
  }

  /** Clears the window and strikes out 3, 5, 7 and the wheel up to the root. */
  method SieveWindow(s: array<int>, s0: Word, root: nat)
    requires s.Length == SIEVESIZE + 1 && s[SIEVESIZE] == 0
    requires GoodWindow(s0) && StopsAt(root, s0 + 2 * SIEVESIZE - 1) && root <= LAST_ROOT
    modifies s
    ensures SievedWindow(s, s0) && s[SIEVESIZE] == 0
  {
    hide SievesWith, Struck, OnWheel, Gap, Kept, StopsAt;
    var j := 0;
    while j < SIEVESIZE
      invariant 0 <= j <= SIEVESIZE
      invariant forall k :: 0 <= k < j ==> s[k] == 0
      invariant s[SIEVESIZE] == 0
    {
      s[j] := 0;
      j := j + 1;
    }
    NothingStruck(s0);
    SmallSieving();
    StrikeNext(s, s0, 3, 5);
    StrikeNext(s, s0, 5, 7);
    StrikeNext(s, s0, 7, 11);
    var p, ai := 11, 0;
    WheelStarts();
    while p <= root
      invariant 11 <= p && p % 2 == 1 && 0 <= ai < 48 && OnWheel(p, ai)
      invariant forall w :: 11 <= w < p && SievesWith(w) ==> w <= root
      invariant StruckWindow(s, s0, p)
      decreases root + 11 - p
    {
      WheelSieving(p, ai);
      WheelIsOdd(p + Gap(ai), (ai + 1) % 48);
      StrikeNext(s, s0, p, p + Gap(ai));
      p := p + Gap(ai);
      ai := (ai + 1) % 48;
    }
    forall k | 0 <= k < SIEVESIZE
      ensures s[k] == 0 <==> Kept(s0, s0 + 2 * k)
    {
      StruckExactly(s0, s0 + 2 * k, p, root);
    }
  }

  lemma NothingStruck(s0: int)
    ensures forall n: int :: !Struck(s0, n, 3)
  {
  }

  lemma WheelIsOdd(p: nat, ai: nat)
    requires OnWheel(p, ai)
    ensures p % 2 == 1
  {
    hide OnWheel, Gap;
    WheelStep(p, ai);
  }

  // ---------------------------------------------------------------- kept numbers and primes

  /** A prime is kept unless it is a dropped first entry. */
  lemma PrimeKept(s0: int, n: int)
    requires IsPrime(n)
    ensures Kept(s0, n) <==> !(n == s0 && StartDropped(s0))
  {
    hide StartDropped;
  }

  /** A composite number is kept exactly when its least prime factor is out of reach
      and it is not a dropped first entry. */
  lemma CompositeKept(s0: int, n: int) returns (q: int)
    requires 2 <= n && !IsPrime(n)
    ensures IsPrime(q) && Divides(q, n) && q * q <= n && forall d :: 2 <= d < q ==> !Divides(d, n)
    ensures Kept(s0, n) <==> B <= s0 + q && !(n == s0 && StartDropped(s0))
  {
    hide StartDropped, IsPrime, Divides;
    q := LeastFactor(n);
    MulStrictlyMonotone(q, 1, q);
    if s0 + q < B { assert ProperDivisor(q, n); }
  }

  /** n and the window at s0 go wrong together: a prime first entry is dropped, or a
      composite with no factor p with s0 + p below 2^64 is taken for a prime. */
  ghost predicate Misjudged(s0: int, n: int) {
    if IsPrime(n) then n == s0 && StartDropped(s0)
    else !FactorBelow(n, B - s0) && !(n == s0 && StartDropped(s0))
  }

  lemma KeptExactly(s0: int, n: int)
    ensures (Kept(s0, n) <==> IsPrime(n)) <==> !Misjudged(s0, n)
  {
    hide StartDropped, IsPrime;
    if IsPrime(n) { PrimeKept(s0, n); }
  }

  /** Only in windows that start in the last 2^32 words is a composite number kept. */
  lemma CompositesStruckBelow(s0: int, n: int)
    requires s0 <= B - H && 2 <= n < B && !IsPrime(n)
    ensures !Kept(s0, n)
  {
    hide Kept, IsPrime, StartDropped, Divides;
    var q := CompositeKept(s0, n);
    if H <= q {
      MulMonotone(H, H, q);
      MulMonotone(q, H, q);
    }
  }

  /** No window that ends below ROOF misjudges anything. */
  lemma NothingMisjudgedBelowRoof(s0: int, n: int)
    requires 2 <= n < B && s0 + 2 * SIEVESIZE - 1 < ROOF
    ensures !Misjudged(s0, n)
  {
    hide IsPrime, FactorBelow, Square, PrimeTo210;
    if IsPrime(n) {
      SquareSmall(0xffff_ffff);
      assert !RunsPast(B - s0, s0 + 2 * SIEVESIZE - 1);
    } else {
      CompositesStruckBelow(s0, n);
    }
  }

  // ---------------------------------------------------------------- the generator

  /** The start of the window that holds q; windows start at 3, 1027, 2051, ... */
  ghost function StartOf(q: nat): int {
    3 + 2 * SIEVESIZE * ((q - 3) / (2 * SIEVESIZE))
  }

  /** The window that holds q fits a word. */
  ghost predicate Fits(q: nat) {
    StartOf(q) + 2 * SIEVESIZE - 1 < B
  }

  /** The numbers the generator returns. */
  ghost predicate Generated(q: nat) {
    q == 2 || (3 <= q && q % 2 == 1 && Kept(StartOf(q), q))
  }

  /** p is the first of the numbers after `after`. */
  ghost predicate FirstAfter(p: nat, after: nat, numbers: iset<nat>) {
    p in numbers && after < p && forall q :: after < q < p ==> q !in numbers
  }

  ghost function GeneratedNumbers(): iset<nat> {
    iset q: nat | Generated(q)
  }

  ghost function PrimeNumbers(): iset<nat> {
    iset q: nat | IsPrime(q)
  }

  ghost predicate NoneIn(lo: nat, hi: nat) {
    forall q :: lo <= q < hi ==> !Generated(q)
  }

  ghost predicate StartsWindow(s0: int) {
    3 <= s0 && (s0 - 3) % (2 * SIEVESIZE) == 0
  }

  lemma WindowStarts(s0: int)
    requires StartsWindow(s0)
    ensures StartsWindow(s0 + 2 * SIEVESIZE) && s0 % 2 == 1
    ensures s0 + 2 * SIEVESIZE - 1 < B ==> GoodWindow(s0)
  {
    var k := WindowNumber(s0);
    DivModUnique(s0 - 3 + 1024, 1024, k + 1, 0);
    DivModUnique(s0, 2, 512 * k + 1, 1);
  }

  lemma WindowNumber(s0: int) returns (k: nat)
    requires StartsWindow(s0)
    ensures s0 == 3 + 1024 * k
  {
    k := (s0 - 3) / 1024;
    DivModIdentity(s0 - 3, 1024);
  }

  lemma FirstWindow()
    ensures StartsWindow(3) && GoodWindow(3)
  {
  }

  lemma InItsWindow(s0: int, q: nat)
    requires StartsWindow(s0) && s0 <= q < s0 + 2 * SIEVESIZE
    ensures StartOf(q) == s0
  {
    var k := WindowNumber(s0);
    DivModUnique(q - 3, 1024, k, q - s0);
  }

  lemma EarlierWindowFits(s0: int, q: nat)
    requires StartsWindow(s0) && s0 <= q && Fits(q)
    ensures s0 + 2 * SIEVESIZE - 1 < B
  {
    var k := WindowNumber(s0);
    var c := (q - 3) / 1024;
    DivModIdentity(q - 3, 1024);
  }

  class PrimeGenerator {
    var d: nat
    var s0: Word
    var sqrt_s0: nat
    const s: array<int>
    /** The number returned last, or 1 before the first call. */
    ghost var last: nat

    /** The state before the first call. */
    ghost predicate Fresh()
      reads this
    {
      s0 == 0 && sqrt_s0 == 0 && d == SIEVESIZE && last == 1
    }

    /** The state after 2 was returned: s0 is wrapped below zero by one window. */
    ghost predicate AfterTwo()
      reads this
    {
      s0 == B + 3 - 2 * SIEVESIZE && sqrt_s0 == 0 && d == SIEVESIZE && last == 2
    }

    /** The state inside a window: everything before entry d is used up. */
    ghost predicate InWindow()
      requires s.Length == SIEVESIZE + 1
      reads this, s
    {
      && d <= SIEVESIZE && GoodWindow(s0) && StartsWindow(s0)
      && StopsAt(sqrt_s0, s0 + 2 * SIEVESIZE - 1) && sqrt_s0 <= LAST_ROOT && SievedWindow(s, s0)
      && 2 <= last < s0 + 2 * d && NoneIn(last + 1, s0 + 2 * d)
    }

    ghost predicate Valid()
      reads this, s
    {
      s.Length == SIEVESIZE + 1 && s[SIEVESIZE] == 0 && (Fresh() || AfterTwo() || InWindow())
    }

    /** gmp_init_primesieve */
    constructor ()
      ensures Valid() && fresh(s) && last == 1
    {
      s := new int[SIEVESIZE + 1];
      s0 := 0;
      sqrt_s0 := 0;
      d := SIEVESIZE;
      last := 1;
      new;
      s[SIEVESIZE] := 0;
    }

    /** The first window is sieved, or the next one. */
    method Resieve()
      requires Valid() && !Fresh()
      requires InWindow() ==> s0 + 4 * SIEVESIZE - 1 < B && NoneIn(last + 1, s0 + 2 * SIEVESIZE)
      modifies this, s
      ensures Valid() && !Fresh() && !AfterTwo() && d == 0 && last == old(last)
      ensures s0 == if old(AfterTwo()) then 3 else old(s0) + 2 * SIEVESIZE
    {
      hide Wrap, NoneIn, StopsAt, SievedWindow, StartsWindow, RunsPast;
      FirstWindow();
      if AfterTwo() {
        WrapPast(s0 + 2 * SIEVESIZE);
        EmptyRange(3);
        NothingPassed(3 + 2 * SIEVESIZE - 1);
      } else {
        WrapSmall(s0 + 2 * SIEVESIZE);
        WindowStarts(s0);
        WindowStarts(s0 + 2 * SIEVESIZE);
        StopHasPassed(sqrt_s0, s0 + 2 * SIEVESIZE - 1);
        RunsPastLater(sqrt_s0, s0 + 2 * SIEVESIZE - 1, s0 + 4 * SIEVESIZE - 1);
      }
      s0 := Wrap(s0 + 2 * SIEVESIZE);
      sqrt_s0 := RaiseRoot(sqrt_s0, s0);
      SieveWindow(s, s0, sqrt_s0);
      d := 0;
    }

    /** gmp_nextprime: the first generated number after the one returned last, provided
        that one lies in a window that fits a word. */
    method Next() returns (p: nat)
      requires Valid() && exists q: nat :: last < q && Generated(q) && Fits(q)
      modifies this, s
      ensures Valid() && last == p
      ensures FirstAfter(p, old(last), GeneratedNumbers())
      decreases if 3 <= s0 < B - 2 * SIEVESIZE then B - s0 else B
    {
      hide Kept, Generated, NoneIn, Fits, StopsAt, StartsWindow;
      ghost var q: nat :| last < q && Generated(q) && Fits(q);
      var sp := d;
      while s[sp] != 0
        invariant d <= sp <= SIEVESIZE
        invariant forall j :: d <= j < sp ==> s[j] != 0
        decreases SIEVESIZE - sp
      {
        sp := sp + 1;
      }
      if sp != SIEVESIZE {
        SkipStruck(s, s0, last, d, sp);
        d := sp + 1;
        p := s0 + 2 * sp;
        FoundInWindow(s0, sp);
        IsFirst(p, last);
        last := p;
        return;
      }
      if s0 < 3 {
        s0 := Wrap(3 - 2 * SIEVESIZE);
        WrapShift(3 - 2 * SIEVESIZE, 1);
        TwoIsFirst();
        last := 2;
        return 2;
      }
      if InWindow() {
        SkipStruck(s, s0, last, d, SIEVESIZE);
        PastWindow(s0 + 2 * SIEVESIZE, last, q);
        WindowStarts(s0);
        EarlierWindowFits(s0 + 2 * SIEVESIZE, q);
      }
      Resieve();
      p := Next();
    }
  }

  lemma NothingPassed(end: int)
    ensures RunsPast(0, end)
  {
  }

  lemma StopHasPassed(root: nat, end: int)
    requires StopsAt(root, end)
    ensures RunsPast(root, end)
  {
  }

  lemma EmptyRange(q: nat)
    ensures NoneIn(q, q)
  {
  }

  lemma IsFirst(p: nat, after: nat)
    requires Generated(p) && after < p && NoneIn(after + 1, p)
    ensures FirstAfter(p, after, GeneratedNumbers())
  {
    hide Generated;
  }

  /** Entry sp of a sieved window is zero: its number is generated, the next is even. */
  lemma FoundInWindow(s0: int, sp: nat)
    requires GoodWindow(s0) && StartsWindow(s0) && sp < SIEVESIZE && Kept(s0, s0 + 2 * sp)
    ensures Generated(s0 + 2 * sp) && NoneIn(s0 + 2 * sp + 1, s0 + 2 * sp + 2)
  {
    hide Kept, StartsWindow;
    InItsWindow(s0, s0 + 2 * sp);
  }

  lemma TwoIsFirst()
    ensures FirstAfter(2, 1, GeneratedNumbers())
  {
    hide Kept;
  }

  /** Entries d .. sp - 1 are struck out, so nothing before entry sp is generated. */
  lemma SkipStruck(s: array<int>, s0: nat, last: nat, d: nat, sp: nat)
    requires s.Length == SIEVESIZE + 1 && GoodWindow(s0) && StartsWindow(s0) && SievedWindow(s, s0)
    requires d <= sp <= SIEVESIZE && forall j :: d <= j < sp ==> s[j] != 0
    requires NoneIn(last + 1, s0 + 2 * d)
    ensures NoneIn(last + 1, s0 + 2 * sp)
  {
    hide Kept, StartsWindow, StartOf;
    forall q | last + 1 <= q < s0 + 2 * sp
      ensures !Generated(q)
    {
      if s0 + 2 * d <= q && q % 2 == 1 {
        var j := (q - s0) / 2;
        assert q == s0 + 2 * j;
        assert s[j] != 0;
        InItsWindow(s0, q);
      }
    }
  }

  lemma PastWindow(end: nat, last: nat, q: nat)
    requires NoneIn(last + 1, end) && last < q && Generated(q)
    ensures end <= q
  {
    hide Generated;
  }

  // ---------------------------------------------------------------- whole runs

  /** ps lists the numbers above 1 in order, without gaps. */
  ghost predicate Lists(ps: seq<nat>, numbers: iset<nat>) {
    forall i :: 0 <= i < |ps| ==> FirstAfter(ps[i], if i == 0 then 1 else ps[i - 1], numbers)
  }

  lemma ListedNext(ps: seq<nat>, numbers: iset<nat>, i: nat)
    requires Lists(ps, numbers) && i < |ps|
    ensures FirstAfter(ps[i], if i == 0 then 1 else ps[i - 1], numbers)
  {
  }

  lemma ListedPrefix(ps: seq<nat>, numbers: iset<nat>, n: nat)
    requires Lists(ps, numbers) && n <= |ps|
    ensures Lists(ps[..n], numbers)
  {
    hide FirstAfter;
    forall i | 0 <= i < n
      ensures FirstAfter(ps[..n][i], if i == 0 then 1 else ps[..n][i - 1], numbers)
    {
      ListedNext(ps, numbers, i);
    }
  }

  lemma FirstIsUnique(p: nat, p': nat, after: nat, numbers: iset<nat>)
    requires FirstAfter(p, after, numbers) && FirstAfter(p', after, numbers)
    ensures p == p'
  {
  }

  /** Up to m nothing is misjudged by its window. */
  ghost predicate NothingMisjudgedUpTo(m: nat) {
    forall q :: 3 <= q <= m && q % 2 == 1 ==> !Misjudged(StartOf(q), q)
  }

  /** Generated numbers and primes agree at q exactly when q is not misjudged. */
  lemma AgreeAt(q: nat)
    requires 2 <= q
    ensures (q in GeneratedNumbers() <==> q in PrimeNumbers()) <==>
      (3 <= q && q % 2 == 1 ==> !Misjudged(StartOf(q), q))
  {
    hide Kept, Misjudged, StartOf;
    if q % 2 == 1 {
      hide IsPrime;
      KeptExactly(StartOf(q), q);
    } else {
      assert 2 < q ==> Divides(2, q);
    }
  }

  lemma AgreeUpTo(m: nat)
    ensures NothingMisjudgedUpTo(m) <==>
      forall q :: 2 <= q <= m ==> (q in GeneratedNumbers() <==> q in PrimeNumbers())
  {
    hide GeneratedNumbers, PrimeNumbers, Misjudged, StartOf;
    forall q | 2 <= q <= m
      ensures (q in GeneratedNumbers() <==> q in PrimeNumbers()) <==>
        (3 <= q && q % 2 == 1 ==> !Misjudged(StartOf(q), q))
    {
      AgreeAt(q);
    }
  }

  /** Equal lists have equal members up to their last one. */
  lemma {:induction false} SameListSameMembers(ps: seq<nat>, a: iset<nat>, b: iset<nat>, q: nat)
    requires |ps| > 0 && Lists(ps, a) && Lists(ps, b) && 2 <= q <= ps[|ps| - 1]
    ensures q in a <==> q in b
    decreases |ps|
  {
    var n := |ps| - 1;
    ListedNext(ps, a, n);
    ListedNext(ps, b, n);
    if n > 0 && q <= ps[n - 1] {
      ListedPrefix(ps, a, n);
      ListedPrefix(ps, b, n);
      SameListSameMembers(ps[..n], a, b, q);
    }
  }

  /** Lists of sets that agree up to the last listed number are equal. */
  lemma {:induction false} SameMembersSameList(ps: seq<nat>, qs: seq<nat>, a: iset<nat>, b: iset<nat>)
    requires |ps| == |qs| > 0 && Lists(ps, a) && Lists(qs, b)
    requires forall q :: 2 <= q <= qs[|qs| - 1] ==> (q in a <==> q in b)
    ensures ps == qs
    decreases |ps|
  {
    var n := |ps| - 1;
    ListedNext(ps, a, n);
    ListedNext(qs, b, n);
    if n > 0 {
      ListedPrefix(ps, a, n);
      ListedPrefix(qs, b, n);
      SameMembersSameList(ps[..n], qs[..n], a, b);
      RisesAbove(qs, b, n - 1);
    }
    var after := if n == 0 then 1 else qs[n - 1];
    assert FirstAfter(qs[n], after, a);
    FirstIsUnique(ps[n], qs[n], after, a);
  }

  lemma {:induction false} RisesAbove(qs: seq<nat>, b: iset<nat>, i: nat)
    requires Lists(qs, b) && i < |qs|
    ensures 2 <= qs[i]
  {
    ListedNext(qs, b, i);
    if i > 0 { RisesAbove(qs, b, i - 1); }
  }

  /** The generated numbers start like the primes exactly as long as nothing is
      misjudged. */
  lemma GeneratesPrimes(kept: seq<nat>, primes: seq<nat>)
    requires |kept| == |primes| > 0 && Lists(kept, GeneratedNumbers()) && Lists(primes, PrimeNumbers())
    ensures kept == primes <==> NothingMisjudgedUpTo(primes[|primes| - 1])
  {
    hide Lists, GeneratedNumbers, PrimeNumbers, NothingMisjudgedUpTo;
    var m := primes[|primes| - 1];
    AgreeUpTo(m);
    if kept == primes {
      forall q | 2 <= q <= m
        ensures q in GeneratedNumbers() <==> q in PrimeNumbers()
      {
        SameListSameMembers(primes, GeneratedNumbers(), PrimeNumbers(), q);
      }
    }
    if NothingMisjudgedUpTo(m) {
      SameMembersSameList(kept, primes, GeneratedNumbers(), PrimeNumbers());
    }
  }

  /** From the initial state, the i-th of any number of calls returns the i-th
      generated number, for every run whose windows fit a word. That is the i-th prime
      as long as nothing is misjudged; below ROOF nothing is. */
  method FirstPrimes(k: nat, ghost kept: seq<nat>, ghost primes: seq<nat>) returns (ps: seq<nat>)
    requires |kept| == k && Lists(kept, GeneratedNumbers()) && forall i :: 0 <= i < k ==> Fits(kept[i])
    requires |primes| == k && Lists(primes, PrimeNumbers())
    ensures ps == kept
    ensures k > 0 ==> (ps == primes <==> NothingMisjudgedUpTo(primes[k - 1]))
    ensures k > 0 && StartOf(primes[k - 1]) + 2 * SIEVESIZE - 1 < ROOF ==> ps == primes
  {
    hide Generated, Fits, Lists, PrimeNumbers, NothingMisjudgedUpTo, StartOf;
    var g := new PrimeGenerator();
    ps := [];
    while |ps| < k
      invariant |ps| <= k && ps == kept[..|ps|]
      invariant fresh(g) && fresh(g.s) && g.Valid()
      invariant g.last == if |ps| == 0 then 1 else ps[|ps| - 1]
      decreases k - |ps|
    {
      ghost var q := kept[|ps|];
      ListedNext(kept, GeneratedNumbers(), |ps|);
      assert g.last < q && Generated(q) && Fits(q);
      ghost var before := g.last;
      var p := g.Next();
      FirstIsUnique(p, q, before, GeneratedNumbers());
      ps := ps + [p];
    }
    if k > 0 {
      GeneratesPrimes(kept, primes);
      if StartOf(primes[k - 1]) + 2 * SIEVESIZE - 1 < ROOF { EarlyPrimes(primes[k - 1]); }
    }
  }

  lemma EarlyPrimes(m: nat)
    requires StartOf(m) + 2 * SIEVESIZE - 1 < ROOF
    ensures NothingMisjudgedUpTo(m)
  {
    hide Misjudged;
    forall q | 3 <= q <= m && q % 2 == 1
      ensures !Misjudged(StartOf(q), q)
    {
      NothingMisjudgedBelowRoof(StartOf(q), q);
    }
  }
}
