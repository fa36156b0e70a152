/** The odd-factorial tables and the central binomials that bound them (gen_consts
    in gen-fac.c). Big integers are unbounded. */
module FactorialTables {
  import opened Arithmetic

  // ---------------------------------------------------------------- odd parts

  /** n without its factors of two, as the inner loop computes it. */
  function OddPart(n: nat): nat
    requires 0 < n
  {
    if n % 2 == 0 then OddPart(n / 2) else n
  }

  ghost function Factorial(n: nat): nat
    ensures 0 < Factorial(n)
  {
    if n == 0 then 1 else Product(n, Factorial(n - 1))
  }

  ghost function Product(a: nat, b: nat): (p: nat)
    ensures 0 < a && 0 < b ==> 0 < p
  {
    PositiveProduct(a, b);
    a * b
  }

  lemma PositiveProduct(a: nat, b: nat)
    ensures 0 <= a * b && (0 < a && 0 < b ==> 0 < a * b)
  {
  }

  lemma {:induction false} OddPartIsOdd(n: nat)
    requires 0 < n
    ensures OddPart(n) % 2 == 1 && 0 < OddPart(n) <= n
  {
    if n % 2 == 0 { OddPartIsOdd(n / 2); }
  }

  /** The odd part is the cofactor of a power of two. */
  lemma {:induction false} OddPartDivides(n: nat) returns (e: nat)
    requires 0 < n
    ensures n == OddPart(n) * Pow2(e)
  {
    if n % 2 == 0 {
      var h := n / 2;
      assert n == 2 * h && OddPart(n) == OddPart(h);
      hide OddPart;
      e := OddPartDivides(h);
      DoubleFactor(OddPart(h), Pow2(e), h);
      e := e + 1;
    } else {
      e := 0;
    }
  }

  lemma DoubleFactor(a: int, b: int, h: int)
    requires h == a * b
    ensures 2 * h == a * (2 * b)
  {
  }

  lemma OddPartOfDouble(x: nat)
    requires 0 < x
    ensures OddPart(2 * x) == OddPart(x)
  {
    var y := 2 * x;
    assert y % 2 == 0 && y / 2 == x;
    hide *;
    OddPartUnfolds(y);
  }

  lemma OddPartUnfolds(y: nat)
    requires 0 < y && y % 2 == 0
    ensures 0 < y / 2 && OddPart(y) == OddPart(y / 2)
  {
  }

  lemma {:induction false} OddPartOfProduct(a: nat, b: nat)
    requires 0 < a && 0 < b
    ensures 0 < a * b && OddPart(a * b) == OddPart(a) * OddPart(b)
    decreases a + b
  {
    PositiveProduct(a, b);
    if a % 2 == 0 {
      hide OddPart;
      var h := a / 2;
      assert a == 2 * h;
      MulAssociates(2, h, b);
      OddPartOfProduct(h, b);
      OddPartOfDouble(h);
      OddPartOfDouble(h * b);
    } else if b % 2 == 0 {
      hide OddPart;
      var h := b / 2;
      assert b == 2 * h;
      DoubleFactor(a, h, a * h);
      OddPartOfProduct(a, h);
      OddPartOfDouble(h);
      OddPartOfDouble(a * h);
    } else {
      OddProduct(a, b);
    }
  }

  lemma OddProduct(a: nat, b: nat)
    requires a % 2 == 1 && b % 2 == 1
    ensures (a * b) % 2 == 1
  {
    ModMul(a, b, 2);
  }

  /** n! / 2^t with t as large as possible. */
  ghost function OddFactorial(n: nat): nat {
    OddPart(Factorial(n))
  }

  lemma OddFactorialStep(b: nat)
    requires 0 < b
    ensures OddFactorial(b) == OddFactorial(b - 1) * OddPart(b)
  {
    hide OddPart;
    OddPartOfProduct(b, Factorial(b - 1));
  }

  lemma SmallOddFactorials()
    ensures OddFactorial(0) == 1 && OddFactorial(1) == 1 && OddFactorial(2) == 1
  {
    OddFactorialStep(1);
    OddFactorialStep(2);
    assert OddPart(2) == OddPart(1) == 1;
  }

  // ---------------------------------------------------------------- the first table

  /** More than `numb` bits. */
  predicate TooBig(x: nat, numb: nat) {
    Pow2(numb) <= x
  }

  /** ONE_LIMB_ODD_FACTORIAL_TABLE: entry i is the odd part of i!, for every i up to
      the first whose value has more than numb bits; x and b are left there. */
  method OddFactorials(numb: nat) returns (table: seq<nat>, last: nat, x: nat, b: nat)
    requires 1 <= numb
    ensures 3 <= b == |table| && forall i :: 0 <= i < |table| ==> table[i] == OddFactorial(i)
    ensures forall i :: 2 < i < b ==> OddFactorial(i) < Pow2(numb)
    ensures Pow2(numb) <= x == OddFactorial(b) && last == OddFactorial(b - 1)
  {
    hide OddPart, OddFactorial, Pow2;
    SmallOddFactorials();
    table, last, x := [1, 1, 1], 0, 1;
    b := 3;
    while true
      invariant 3 <= b == |table| && x == OddFactorial(b - 1) && 0 < x
      invariant forall i :: 0 <= i < |table| ==> table[i] == OddFactorial(i)
      invariant forall i :: 2 < i < b ==> OddFactorial(i) < Pow2(numb)
      decreases Pow2(numb) - x, if b % 2 == 0 then 1 else 0
    {
      var a := OddPart(b);
      OddFactorialStep(b);
      Growth(x, b);
      last := x;
      x := last * a;
      if TooBig(x, numb) { break; }
      table := table + [x];
      b := b + 1;
    }
  }

  lemma Growth(x: nat, b: nat)
    requires 0 < x && 3 <= b
    ensures x <= x * OddPart(b) && (b % 2 == 1 ==> x < x * OddPart(b))
  {
    OddPartIsOdd(b);
    MulMonotone(x, 1, OddPart(b));
    if b % 2 == 1 { MulStrictlyMonotone(x, 1, b); }
  }

  // ---------------------------------------------------------------- binomials

  /** Pascal's triangle. */
  function Binomial(n: nat, k: nat): nat {
    if k == 0 then 1
    else if n == 0 then 0
    else Binomial(n - 1, k - 1) + Binomial(n - 1, k)
  }

  lemma {:induction false} BinomialAbove(n: nat, k: nat)
    requires n < k
    ensures Binomial(n, k) == 0
  {
    if n > 0 {
      BinomialAbove(n - 1, k - 1);
      BinomialAbove(n - 1, k);
    }
  }

  /** (k + 1) C(n, k + 1) = (n - k) C(n, k). */
  lemma {:induction false} Absorption(n: nat, k: nat)
    requires k <= n
    ensures (k + 1) * Binomial(n, k + 1) == (n - k) * Binomial(n, k)
    decreases n
  {
    if k == n {
      BinomialAbove(n, k + 1);
    } else {
      var c := Binomial(n - 1, k);
      Absorption(n - 1, k);
      MulDistributes(k + 1, c, Binomial(n - 1, k + 1));
      if k > 0 {
        Absorption(n - 1, k - 1);
        MulDistributes(n - k, Binomial(n - 1, k - 1), c);
        Collect(c, n, k);
      } else {
        Collect(c, n, k);
      }
    }
  }

  lemma Collect(c: int, n: int, k: int)
    ensures (k + 1) * c + (n - 1 - k) * c == n * c == k * c + (n - k) * c
  {
  }

  /** C(2m - 1, m) = C(2m - 1, m - 1), so C(2m, m) is twice either. */
  lemma EvenCentral(m: nat)
    requires 0 < m
    ensures Binomial(2 * m, m) == 2 * Binomial(2 * m - 1, m - 1)
  {
    Absorption(2 * m - 1, m - 1);
    CancelLeft(m, Binomial(2 * m - 1, m), Binomial(2 * m - 1, m - 1));
  }

  lemma CancelLeft(m: int, x: int, y: int)
    requires 0 < m && m * x == m * y
    ensures x == y
  {
    if x < y { MulStrictlyMonotone(m, x, y); }
    if y < x { MulStrictlyMonotone(m, y, x); }
  }

  /** m + 1 divides C(2m, m); the quotient is the Catalan number. */
  lemma CatalanIsWhole(m: nat)
    ensures Binomial(2 * m, m) == (m + 1) * (Binomial(2 * m, m) - Binomial(2 * m, m + 1))
    ensures Binomial(2 * m, m) % (m + 1) == 0
    ensures Binomial(2 * m, m) / (m + 1) == Binomial(2 * m, m) - Binomial(2 * m, m + 1)
  {
    var c: int, d: int := Binomial(2 * m, m), Binomial(2 * m, m + 1);
    Absorption(2 * m, m);
    MulDistributes(m + 1, c, -d);
    MulDistributes(c, m, 1);
    DivModUnique(c, m + 1, c - d, 0);
  }

  /** C(2m + 1, m) = (2m + 1) times the Catalan number. */
  lemma OddCentral(m: nat)
    ensures Binomial(2 * m + 1, m) == Binomial(2 * m, m) / (m + 1) * (2 * m + 1)
  {
    var c := Binomial(2 * m, m);
    var q := c / (m + 1);
    CatalanIsWhole(m);
    assert c == (m + 1) * q;
    if m == 0 {
      assert Binomial(1, 0) == 1 && Binomial(0, 0) == 1;
    } else {
      var e := Binomial(2 * m, m - 1);
      Absorption(2 * m, m - 1);
      assert Binomial(2 * m + 1, m) == e + c;
      OddCentralSum(m, q, c, e);
    }
  }

  lemma OddCentralSum(m: nat, q: int, c: int, e: int)
    requires c == (m + 1) * q && m * c == (m + 1) * e
    ensures e + c == q * (2 * m + 1)
  {
    MulAssociates(m, m + 1, q);
    MulAssociates(m + 1, m, q);
    CancelLeft(m + 1, e, m * q);
    MulDistributes(q, m, m + 1);
  }

  // ---------------------------------------------------------------- the extended table

  function Central(b: nat): nat {
    Binomial(b, b / 2)
  }

  /** mpz_divexact_ui */
  function DivExact(y: nat, k: nat): nat
    requires 0 < k
  {
    y / k
  }

  /** mpz_mul_ui and mpz_and with 2^numb - 1 */
  function TimesModulo(x: nat, a: nat, m: nat): nat
    requires 0 < m
  {
    x * a % m
  }

  lemma TimesModuloStep(x: nat, f: nat, a: nat, m: nat)
    requires 0 < m && x == f % m
    ensures TimesModulo(x, a, m) == (f * a) % m
  {
    ModSmall(x, m);
    ModMulCongruent(f, x, a, m);
  }

  /** One step of the loop takes C(b - 1, .) to C(b, .), and its division is exact. */
  lemma CentralStep(b: nat)
    requires 2 <= b
    ensures b % 2 == 1 ==> Central(b - 1) % (b / 2 + 1) == 0 && Central(b) == DivExact(Central(b - 1), b / 2 + 1) * b
    ensures b % 2 == 0 ==> Central(b) == 2 * Central(b - 1)
  {
    var m := b / 2;
    if b % 2 == 1 {
      assert b == 2 * m + 1;
      CatalanIsWhole(m);
      OddCentral(m);
    } else {
      assert b == 2 * m;
      EvenCentral(m);
    }
  }

  lemma {:induction false} CentralGrows(b: nat)
    requires 3 <= b
    ensures 0 < Central(b - 1) < Central(b)
  {
    hide Binomial;
    if b == 3 {
      SmallCentral();
    } else {
      CentralGrows(b - 1);
      CentralStep(b);
      var m := b / 2;
      if b % 2 == 1 {
        var c := Central(b - 1);
        var q := c / (m + 1);
        DivModIdentity(c, m + 1);
        if q <= 0 { MulMonotone(m + 1, q, 0); }
        MulStrictlyMonotone(q, m + 1, b);
      }
    }
  }

  lemma SmallCentral()
    ensures Central(2) == 2 && Central(3) == 3
  {
    assert Binomial(2, 1) == Binomial(1, 0) + Binomial(1, 1);
    assert Binomial(3, 1) == Binomial(2, 0) + Binomial(2, 1);
  }

  /** The inner loop leaves b unchanged exactly when it is odd. */
  lemma OddPartOfEven(b: nat)
    requires 0 < b
    ensures OddPart(b) == b <==> b % 2 == 1
  {
    if b % 2 == 0 { OddPartIsOdd(b / 2); }
  }

  /** ONE_LIMB_ODD_FACTORIAL_EXTTABLE, continued from where the first table stopped:
      entry i is the odd part of (b0 + i)! modulo 2^numb, as long as the central
      binomial has at most numb bits. */
  method ExtendedTable(numb: nat, x0: nat, b0: nat) returns (table: seq<nat>, y: nat, b: nat)
    requires 1 <= numb && 3 <= b0 && x0 == OddFactorial(b0)
    ensures b0 < b && |table| == b - b0
    ensures forall i :: 0 <= i < |table| ==> table[i] == OddFactorial(b0 + i) % Pow2(numb)
    ensures Pow2(numb) <= y == Central(b)
    ensures forall i :: b0 < i < b ==> Central(i) < Pow2(numb)
  {
    hide OddPart, OddFactorial, Central, Pow2, DivExact, TimesModulo;
    var mask := Pow2(numb);
    b := b0;
    var x := x0 % mask;
    table := [x];
    y := Central(b);
    b := b + 1;
    CentralGrows(b);
    while true
      invariant b0 < b && |table| == b - b0
      invariant y == Central(b - 1) && 0 < y
      invariant x == OddFactorial(b - 1) % mask
      invariant forall i :: 0 <= i < |table| ==> table[i] == OddFactorial(b0 + i) % mask
      invariant forall i :: b0 < i < b ==> Central(i) < Pow2(numb)
      decreases mask - y
    {
      var a := OddPart(b);
      OddPartOfEven(b);
      CentralStep(b);
      CentralGrows(b);
      if a == b {
        y := DivExact(y, a / 2 + 1);
        y := y * a;
      } else {
        y := 2 * y;
      }
      if TooBig(y, numb) { break; }
      OddFactorialStep(b);
      TimesModuloStep(x, OddFactorial(b - 1), a, mask);
      x := TimesModulo(x, a, mask);
      table := table + [x];
      b := b + 1;
    }
  }

  /** Both tables in one run: the first holds odd parts of factorials exactly, up to
      the last of at most numb bits; the second goes on modulo 2^numb without a gap,
      up to the last index whose central binomial has at most numb bits. */
  method GenConsts(numb: nat) returns (table: seq<nat>, ext: seq<nat>, limit: nat, extLimit: nat)
    requires 1 <= numb
    ensures limit + 1 == |table| && extLimit + 1 == |table| + |ext|
    ensures forall i :: 0 <= i <= limit ==> table[i] == OddFactorial(i)
    ensures forall i :: 2 < i <= limit ==> OddFactorial(i) < Pow2(numb)
    ensures 2 <= limit < extLimit && Pow2(numb) <= OddFactorial(limit + 1)
    ensures forall i :: limit < i <= extLimit ==> ext[i - limit - 1] == OddFactorial(i) % Pow2(numb)
    ensures forall i :: limit + 1 < i <= extLimit ==> Binomial(i, i / 2) < Pow2(numb)
    ensures Pow2(numb) <= Binomial(extLimit + 1, (extLimit + 1) / 2)
    ensures forall i :: 0 <= i < |table + ext| ==> (table + ext)[i] % Pow2(numb) == OddFactorial(i) % Pow2(numb)
  {
    hide OddFactorial, Binomial, TooBig, Pow2;
    var last, x, b, y, b';
    table, last, x, b := OddFactorials(numb);
    limit := b - 1;
    ext, y, b' := ExtendedTable(numb, x, b);
    extLimit := b' - 1;
    forall i | limit + 1 < i <= extLimit
      ensures Binomial(i, i / 2) < Pow2(numb)
    {
      assert Central(i) < Pow2(numb);
    }
    forall i | limit < i <= extLimit
      ensures ext[i - limit - 1] == OddFactorial(i) % Pow2(numb)
    {
      assert i == b + (i - limit - 1);
    }
    forall i | 0 <= i < |table + ext|
      ensures (table + ext)[i] % Pow2(numb) == OddFactorial(i) % Pow2(numb)
    {
      if |table| <= i {
        assert (table + ext)[i] == ext[i - |table|] == OddFactorial(b + (i - |table|)) % Pow2(numb);
        ModSmall(OddFactorial(i) % Pow2(numb), Pow2(numb));
      }
    }
  }
}
