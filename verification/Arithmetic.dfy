/** Integer facts shared by every other module: division with remainder for
    variable divisors, monotonicity of products, and powers. */
module Arithmetic {

  lemma MulMonotone(a: int, x: int, y: int)
    requires 0 <= a && x <= y
    ensures a * x <= a * y
  {
    assert a * y - a * x == a * (y - x);
  }

  lemma MulStrictlyMonotone(a: int, x: int, y: int)
    requires 0 < a && x < y
    ensures a * x < a * y
  {
    assert a * y - a * x == a * (y - x);
    MulMonotone(a, 1, y - x);
  }

  lemma MulAssociates(a: int, b: int, c: int)
    ensures a * (b * c) == (a * b) * c
  {
  }

  lemma MulDistributes(a: int, b: int, c: int)
    ensures a * (b + c) == a * b + a * c
    ensures (b + c) * a == b * a + c * a
  {
  }

  /** A representation x = q * d + r with 0 <= r < d is the one `/` and `%` compute. */
  lemma DivModUnique(x: int, d: int, q: int, r: int)
    requires 0 <= r < d
    requires x == q * d + r
    ensures x / d == q && x % d == r
  {
    var q', r' := x / d, x % d;
    assert x == q' * d + r';
    assert d * (q - q') == r' - r;
    if q < q' {
      MulMonotone(d, q - q', -1);
      assert false;
    } else if q' < q {
      MulMonotone(d, 1, q - q');
      assert false;
    }
  }

  lemma DivModIdentity(x: int, d: int)
    requires 0 < d
    ensures x == (x / d) * d + x % d && 0 <= x % d < d
  {
  }

  /** Adding a multiple of the modulus does not change the residue. */
  lemma ModAddMultiple(x: int, k: int, d: int)
    requires 0 < d
    ensures (x + k * d) % d == x % d
  {
    DivModIdentity(x, d);
    assert x + k * d == (x / d + k) * d + x % d;
    DivModUnique(x + k * d, d, x / d + k, x % d);
  }

  /** Equal residues mean a difference that is a multiple of the modulus. */
  lemma EqualResidues(x: int, y: int, d: int) returns (k: int)
    requires 0 < d && x % d == y % d
    ensures x == y + k * d
  {
    k := x / d - y / d;
    DivModIdentity(x, d);
    DivModIdentity(y, d);
    assert k * d == (x / d) * d - (y / d) * d;
  }

  lemma ModMul(x: int, y: int, d: int)
    requires 0 < d
    ensures (x * y) % d == ((x % d) * (y % d)) % d
  {
    var a, b := x % d, y % d;
    var i, j := x / d, y / d;
    DivModIdentity(x, d);
    DivModIdentity(y, d);
    calc {
      x * y;
      (i * d + a) * (j * d + b);
      a * b + (i * (j * d + b) + a * j) * d;
    }
    ModAddMultiple(a * b, i * (j * d + b) + a * j, d);
  }

  lemma ModMulCongruent(x: int, x': int, y: int, d: int)
    requires 0 < d && x % d == x' % d
    ensures (x * y) % d == (x' * y) % d
  {
    ModMul(x, y, d);
    ModMul(x', y, d);
  }

  lemma ModSmall(x: int, d: int)
    requires 0 <= x < d
    ensures x % d == x && x / d == 0
  {
    DivModUnique(x, d, 0, x);
  }

  ghost function Pow(b: int, e: nat): int {
    if e == 0 then 1 else b * Pow(b, e - 1)
  }

  lemma {:induction false} PowAdd(b: int, i: nat, j: nat)
    ensures Pow(b, i + j) == Pow(b, i) * Pow(b, j)
  {
    if i != 0 {
      PowAdd(b, i - 1, j);
      assert b * (Pow(b, i - 1) * Pow(b, j)) == (b * Pow(b, i - 1)) * Pow(b, j);
    }
  }

  lemma {:induction false} PowMul(b: int, i: nat, j: nat)
    ensures Pow(Pow(b, i), j) == Pow(b, i * j)
  {
    if j == 0 {
      assert i * j == 0;
    } else {
      PowMul(b, i, j - 1);
      assert i * j == i + i * (j - 1);
      assert 0 <= i * (j - 1) by { MulMonotone(i, 0, j - 1); }
      PowAdd(b, i, i * (j - 1));
    }
  }

  lemma {:induction false} PowCongruent(x: int, y: int, e: nat, d: int)
    requires 0 < d && x % d == y % d
    ensures Pow(x, e) % d == Pow(y, e) % d
  {
    if e != 0 {
      PowCongruent(x, y, e - 1, d);
      ModMul(x, Pow(x, e - 1), d);
      ModMul(y, Pow(y, e - 1), d);
    }
  }

  function Pow2(e: nat): nat
    ensures Pow2(e) > 0
  {
    if e == 0 then 1 else 2 * Pow2(e - 1)
  }

  lemma {:induction false} Pow2Add(i: nat, j: nat)
    ensures Pow2(i + j) == Pow2(i) * Pow2(j)
  {
    if i != 0 {
      Pow2Add(i - 1, j);
    }
  }

  /** x shifted right by t bits. */
  function ShiftRight(x: nat, t: nat): nat {
    if t == 0 then x else ShiftRight(x, t - 1) / 2
  }

  lemma HalveQuotient(x: nat, d: nat)
    requires 0 < d
    ensures x / (2 * d) == x / d / 2
  {
    var q, r := x / d, x % d;
    var h, c := q / 2, q % 2;
    DivModIdentity(x, d);
    assert q == 2 * h + c;
    MulDistributes(d, 2 * h, c);
    MulAssociates(h, 2, d);
    assert c * d == 0 || c * d == d;
    DivModUnique(x, 2 * d, h, c * d + r);
  }

  lemma {:induction false} ShiftRightIsDivision(x: nat, t: nat)
    ensures ShiftRight(x, t) == x / Pow2(t)
  {
    if t != 0 {
      ShiftRightIsDivision(x, t - 1);
      HalveQuotient(x, Pow2(t - 1));
    }
  }
}
