/** The inverse of an odd limb modulo 2^64 (binvert_limb in gmp-impl.h) and the
    divisibility test the trial-division tables are made for. */
module BinaryInverse {
  import opened Arithmetic
  import opened Primes
  import opened WordArithmetic

  // ---------------------------------------------------------------- the 8-bit table

  /** Row r of binvert_limb_table, eight entries a row. */
  function TableRow(r: nat): seq<int>
    requires r < 16
  {
    match r
    case 0 => [0x01, 0xAB, 0xCD, 0xB7, 0x39, 0xA3, 0xC5, 0xEF]
    case 1 => [0xF1, 0x1B, 0x3D, 0xA7, 0x29, 0x13, 0x35, 0xDF]
    case 2 => [0xE1, 0x8B, 0xAD, 0x97, 0x19, 0x83, 0xA5, 0xCF]
    case 3 => [0xD1, 0xFB, 0x1D, 0x87, 0x09, 0xF3, 0x15, 0xBF]
    case 4 => [0xC1, 0x6B, 0x8D, 0x77, 0xF9, 0x63, 0x85, 0xAF]
    case 5 => [0xB1, 0xDB, 0xFD, 0x67, 0xE9, 0xD3, 0xF5, 0x9F]
    case 6 => [0xA1, 0x4B, 0x6D, 0x57, 0xD9, 0x43, 0x65, 0x8F]
    case 7 => [0x91, 0xBB, 0xDD, 0x47, 0xC9, 0xB3, 0xD5, 0x7F]
    case 8 => [0x81, 0x2B, 0x4D, 0x37, 0xB9, 0x23, 0x45, 0x6F]
    case 9 => [0x71, 0x9B, 0xBD, 0x27, 0xA9, 0x93, 0xB5, 0x5F]
    case 10 => [0x61, 0x0B, 0x2D, 0x17, 0x99, 0x03, 0x25, 0x4F]
    case 11 => [0x51, 0x7B, 0x9D, 0x07, 0x89, 0x73, 0x95, 0x3F]
    case 12 => [0x41, 0xEB, 0x0D, 0xF7, 0x79, 0xE3, 0x05, 0x2F]
    case 13 => [0x31, 0x5B, 0x7D, 0xE7, 0x69, 0x53, 0x75, 0x1F]
    case 14 => [0x21, 0xCB, 0xED, 0xD7, 0x59, 0xC3, 0xE5, 0x0F]
    case _ => [0x11, 0x3B, 0x5D, 0xC7, 0x49, 0x33, 0x55, 0xFF]
  }

  /** binvert_limb_table[i] */
  function Table(i: nat): int
    requires i < 128
  {
    TableRow(i / 8)[i % 8]
  }

  ghost predicate InverseModulo(x: int, n: int, m: int)
    requires 0 < m
  {
    (x * n) % m == 1
  }

  /** x is a byte that inverts n modulo 256. */
  ghost predicate Entry(x: int, n: int) {
    0 <= x < 256 && (x * n) % 256 == 1
  }

  /** The entries of a row invert consecutive odd numbers. */
  ghost predicate RowInverts(row: seq<int>, first: int) {
    && |row| == 8
    && Entry(row[0], first) && Entry(row[1], first + 2) && Entry(row[2], first + 4) && Entry(row[3], first + 6)
    && Entry(row[4], first + 8) && Entry(row[5], first + 10) && Entry(row[6], first + 12) && Entry(row[7], first + 14)
  }

  lemma Row0()
    ensures RowInverts(TableRow(0), 1)
  {
  }

  lemma Row1()
    ensures RowInverts(TableRow(1), 17)
  {
  }

  lemma Row2()
    ensures RowInverts(TableRow(2), 33)
  {
  }

  lemma Row3()
    ensures RowInverts(TableRow(3), 49)
  {
  }

  lemma Row4()
    ensures RowInverts(TableRow(4), 65)
  {
  }

  lemma Row5()
    ensures RowInverts(TableRow(5), 81)
  {
  }

  lemma Row6()
    ensures RowInverts(TableRow(6), 97)
  {
  }

  lemma Row7()
    ensures RowInverts(TableRow(7), 113)
  {
  }

  lemma Row8()
    ensures RowInverts(TableRow(8), 129)
  {
  }

  lemma Row9()
    ensures RowInverts(TableRow(9), 145)
  {
  }

  lemma Row10()
    ensures RowInverts(TableRow(10), 161)
  {
  }

  lemma Row11()
    ensures RowInverts(TableRow(11), 177)
  {
  }

  lemma Row12()
    ensures RowInverts(TableRow(12), 193)
  {
  }

  lemma Row13()
    ensures RowInverts(TableRow(13), 209)
  {
  }

  lemma Row14()
    ensures RowInverts(TableRow(14), 225)
  {
  }

  lemma Row15()
    ensures RowInverts(TableRow(15), 241)
  {
  }

  lemma RowCorrect(r: nat)
    requires r < 16
    ensures RowInverts(TableRow(r), 16 * r + 1)
  {
    hide TableRow, RowInverts;
    Row0();
    Row1();
    Row2();
    Row3();
    Row4();
    Row5();
    Row6();
    Row7();
    Row8();
    Row9();
    Row10();
    Row11();
    Row12();
    Row13();
    Row14();
    Row15();
    assert r in {0, 1, 2, 3, 4, 5, 6, 7, 8, 9, 10, 11, 12, 13, 14, 15};
  }

  lemma RowEntry(row: seq<int>, r: nat, k: nat)
    requires k < 8 && RowInverts(row, 16 * r + 1)
    ensures 0 <= row[k] < 256 && InverseModulo(row[k], 2 * (8 * r + k) + 1, 256)
  {
    assert k in {0, 1, 2, 3, 4, 5, 6, 7};
  }

  lemma TableInverts(i: nat)
    requires i < 128
    ensures 0 <= Table(i) < 256 && InverseModulo(Table(i), 2 * i + 1, 256)
  {
    hide TableRow, RowInverts, InverseModulo;
    var r, k := i / 8, i % 8;
    RowCorrect(r);
    RowEntry(TableRow(r), r, k);
    assert 8 * r + k == i;
  }

  // ---------------------------------------------------------------- Newton steps

  /** 2 x - x x n in one word. */
  function NewtonStep(x: Word, n: Word): Word {
    Wrap(2 * x - x * x * n)
  }

  lemma ReduceModulus(x: int, m: int, c: int)
    requires 0 < m && 0 < c
    ensures (x % (m * c)) % m == x % m
  {
    MulStrictlyMonotone(m, 0, c);
    DivModIdentity(x, m * c);
    var q := x / (m * c);
    assert x == x % (m * c) + (q * c) * m by {
      MulAssociates(q, c, m);
    }
    ModAddMultiple(x % (m * c), q * c, m);
  }

  /** Each step doubles the number of correct low bits. */
  lemma NewtonDoubles(x: Word, n: Word, m: int, c: int)
    requires 1 < m && 0 < c && (m * m) * c == B
    requires InverseModulo(x, n, m)
    ensures InverseModulo(NewtonStep(x, n), n, m * m)
  {
    var mm := m * m;
    MulStrictlyMonotone(m, 1, m);
    var y := NewtonStep(x, n);
    var z := 2 * x - x * x * n;
    ReduceModulus(z, mm, c);
    ModMulCongruent(y, z, n, mm);
    var k := (x * n) / m;
    DivModIdentity(x * n, m);
    NewtonIdentity(x, n, k, m);
    assert z * n == 1 + (-(k * k)) * mm;
    ModAddMultiple(1, -(k * k), mm);
    ModSmall(1, mm);
  }

  lemma NewtonIdentity(x: int, n: int, k: int, m: int)
    requires x * n == k * m + 1
    ensures (2 * x - x * x * n) * n == 1 - (k * k) * (m * m)
  {
    var p := x * n;
    assert (2 * x - x * x * n) * n == 2 * p - p * p;
    assert p * p == (k * k) * (m * m) + 2 * (k * m) + 1;
  }

  lemma TableEntryInverts(n: Word)
    requires n % 2 == 1
    ensures InverseModulo(Table((n / 2) % 128), n, 256) && 0 <= Table((n / 2) % 128) < 256
  {
    hide Table, InverseModulo;
    var i := (n / 2) % 128;
    TableInverts(i);
    OddSplit(n);
    InverseOfShifted(Table(i), 2 * i + 1, n / 2 / 128);
  }

  lemma OddSplit(n: nat)
    requires n % 2 == 1
    ensures 0 <= n / 2 / 128 && n == (2 * ((n / 2) % 128) + 1) + 256 * (n / 2 / 128)
  {
    var h := n / 2;
    assert n == 2 * h + 1;
    DivModIdentity(h, 128);
  }

  /** Higher bytes do not matter to an inverse modulo 256. */
  lemma InverseOfShifted(x: int, low: int, q: int)
    requires InverseModulo(x, low, 256)
    ensures InverseModulo(x, low + 256 * q, 256)
  {
    MulDistributes(x, low, 256 * q);
    MulAssociates(x, q, 256);
    ModAddMultiple(x * low, x * q, 256);
  }

  /** binvert_limb: for every odd limb, its inverse modulo 2^64. */
  method BinvertLimb(n: Word) returns (inv: Word)
    requires n % 2 == 1
    ensures (inv * n) % B == 1
  {
    hide Table, NewtonStep, InverseModulo;
    TableEntryInverts(n);
    inv := Table((n / 2) % 128);
    NewtonDoubles(inv, n, 0x100, 0x1_0000_0000_0000);
    inv := NewtonStep(inv, n);
    NewtonDoubles(inv, n, 0x1_0000, 0x1_0000_0000);
    inv := NewtonStep(inv, n);
    NewtonDoubles(inv, n, 0x1_0000_0000, 1);
    inv := NewtonStep(inv, n);
    Meaning(inv, n, B);
  }

  lemma Meaning(x: int, n: int, m: int)
    requires 0 < m && InverseModulo(x, n, m)
    ensures (x * n) % m == 1
  {
  }

  // ---------------------------------------------------------------- the divisibility test

  /** With inv the inverse of p modulo B, one multiplication and one comparison
      decide divisibility: n inv mod B is at most floor((B - 1) / p) iff p divides n. */
  lemma DivisibilityTest(p: Word, inv: Word, n: Word)
    requires 0 < p && (inv * p) % B == 1
    ensures Wrap(n * inv) <= (B - 1) / p <==> Divides(p, n)
  {
    var x, lim := Wrap(n * inv), (B - 1) / p;
    DivModIdentity(B - 1, p);
    TestProduct(p, inv, n);
    if x <= lim {
      MulMonotone(p, x, lim);
      MulMonotone(p, 0, x);
      ModSmall(p * x, B);
      ModSmall(n, B);
      MultipleIsDivisible(p, x);
    }
    if Divides(p, n) {
      var k := n / p;
      DivisibleIsMultiple(p, n);
      QuotientBound(p, k, lim);
      TestOfMultiple(p, inv, k);
    }
  }

  lemma QuotientBound(p: int, k: int, lim: int)
    requires 0 < p && 0 <= p * k < B && lim == (B - 1) / p
    ensures 0 <= k <= lim && k < B
  {
    DivModIdentity(B - 1, p);
    if k < 0 { MulMonotone(p, k, -1); }
    if lim < k { MulMonotone(p, lim + 1, k); }
    MulMonotone(k, 1, p);
  }

  /** p times the test word is n again, modulo B. */
  lemma TestProduct(p: Word, inv: Word, n: Word)
    requires (inv * p) % B == 1
    ensures (p * Wrap(n * inv)) % B == n % B
  {
    var y := n * inv;
    ModMulCongruent(Wrap(y), y, p, B);
    ModSmall(Wrap(y), B);
    MulAssociates(n, inv, p);
    ModMulCongruent(inv * p, 1, n, B);
  }

  lemma TestOfMultiple(p: Word, inv: Word, k: int)
    requires (inv * p) % B == 1 && 0 <= k < B
    ensures Wrap((p * k) * inv) == k
  {
    assert (p * k) * inv == (inv * p) * k;
    ModMulCongruent(inv * p, 1, k, B);
    ModSmall(k, B);
  }
}
