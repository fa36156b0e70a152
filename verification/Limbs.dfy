/** A 64-bit limb as its bits, least significant first, with the shift and mask
    operators of C. A shift count of 64 or more is undefined in C, so the shifts
    here demand a smaller one; every use below has to show that. */
module Limbs {
  import opened Arithmetic

  type Limb = s: seq<bool> | |s| == 64 witness seq(64, _ => false)

  function Shl(x: Limb, n: nat): Limb
    requires n < 64
  {
    seq(64, k requires 0 <= k < 64 => n <= k && x[k - n])
  }

  function Shr(x: Limb, n: nat): Limb
    requires n < 64
  {
    seq(64, k requires 0 <= k < 64 => k + n < 64 && x[k + n])
  }

  function Or(x: Limb, y: Limb): Limb {
    seq(64, k requires 0 <= k < 64 => x[k] || y[k])
  }

  function And(x: Limb, y: Limb): Limb {
    seq(64, k requires 0 <= k < 64 => x[k] && y[k])
  }

  function Zero(): Limb {
    seq(64, _ => false)
  }

  function One(): Limb {
    seq(64, k => k == 0)
  }

  function AllOnes(): Limb {
    seq(64, _ => true)
  }

  /** The limb with only bit k set: 1 << k. */
  function OneHot(k: nat): (r: Limb)
    requires k < 64
    ensures forall i :: 0 <= i < 64 ==> r[i] == (i == k)
  {
    Shl(One(), k)
  }

  lemma OneHotDetects(x: Limb, k: nat)
    requires k < 64
    ensures And(x, OneHot(k)) == Zero() <==> !x[k]
  {
    if x[k] {
      assert And(x, OneHot(k))[k];
    } else {
      assert forall i :: 0 <= i < 64 ==> !And(x, OneHot(k))[i];
    }
  }

  /** x << r | x >> (64 - r), the rotation both sieving masks go through. */
  function RotateLeft(x: Limb, r: nat): Limb
    requires 0 < r < 64
  {
    Or(Shl(x, r), Shr(x, 64 - r))
  }

  lemma RotateOneHot(k: nat, r: nat)
    requires k < 64 && 0 < r < 64
    ensures RotateLeft(OneHot(k), r) == OneHot((k + r) % 64)
  {
    var x, y := RotateLeft(OneHot(k), r), OneHot((k + r) % 64);
    assert forall i :: 0 <= i < 64 ==> x[i] == y[i];
  }

  /** The unsigned integer that a string of bits stands for. */
  ghost function Value(x: seq<bool>): nat {
    if |x| == 0 then 0 else (if x[0] then 1 else 0) + 2 * Value(x[1..])
  }

  lemma {:induction false} ValueSplit(x: seq<bool>, n: nat)
    requires n <= |x|
    ensures Value(x) == Value(x[..n]) + Pow2(n) * Value(x[n..])
    decreases n
  {
    if n == 0 {
      assert x[0..] == x && x[..0] == [];
    } else {
      ValueSplit(x[1..], n - 1);
      assert x[1..][..n - 1] == x[..n][1..];
      assert x[1..][n - 1..] == x[n..];
      MulAssociates(2, Pow2(n - 1), Value(x[n..]));
    }
  }

  lemma {:induction false} ValueBound(x: seq<bool>)
    ensures Value(x) < Pow2(|x|)
  {
    if |x| != 0 { ValueBound(x[1..]); }
  }

  lemma {:induction false} ValueOfZeros(x: seq<bool>)
    requires forall i :: 0 <= i < |x| ==> !x[i]
    ensures Value(x) == 0
  {
    if |x| != 0 { ValueOfZeros(x[1..]); }
  }

  lemma ShiftedUp(x: seq<bool>, y: seq<bool>, n: nat)
    requires |x| == |y| && n <= |x|
    requires forall k :: 0 <= k < |x| ==> y[k] == (n <= k && x[k - n])
    ensures Value(y) == Pow2(n) * Value(x[..|x| - n])
  {
    ValueSplit(y, n);
    ValueOfZeros(y[..n]);
    assert y[n..] == x[..|x| - n];
  }

  lemma ShiftedDown(x: seq<bool>, y: seq<bool>, n: nat)
    requires |x| == |y| && n <= |x|
    requires forall k :: 0 <= k < |x| ==> y[k] == (k + n < |x| && x[k + n])
    ensures Value(y) == Value(x[n..])
  {
    var w := |x|;
    ValueSplit(y, w - n);
    ValueOfZeros(y[w - n..]);
    assert y[..w - n] == x[n..];
  }

  lemma LowPartModulo(lo: nat, hi: nat, p: nat, m: nat)
    requires 0 < p && 0 < m && lo < m
    ensures (lo + m * hi) * p % (m * p) == p * lo
    ensures (lo + m * hi) / m == hi
  {
    DivModUnique(lo + m * hi, m, hi, lo);
    assert (lo + m * hi) * p == hi * (m * p) + p * lo;
    MulMonotone(p, lo, m - 1);
    assert p * (m - 1) == m * p - p;
    DivModUnique((lo + m * hi) * p, m * p, hi, p * lo);
  }

  /** Shifting left multiplies by 2^n modulo 2^64. */
  lemma ShlIsMultiplication(x: Limb, n: nat)
    requires n < 64
    ensures Value(Shl(x, n)) == Value(x) * Pow2(n) % Pow2(|x|)
  {
    ShiftedUp(x, Shl(x, n), n);
    var c := |x| - n;
    ValueSplit(x, c);
    ValueBound(x[..c]);
    Pow2Add(c, n);
    LowPartModulo(Value(x[..c]), Value(x[c..]), Pow2(n), Pow2(c));
  }

  /** Shifting right divides by 2^n. */
  lemma ShrIsDivision(x: Limb, n: nat)
    requires n < 64
    ensures Value(Shr(x, n)) == Value(x) / Pow2(n)
  {
    ShiftedDown(x, Shr(x, n), n);
    ValueSplit(x, n);
    ValueBound(x[..n]);
    LowPartModulo(Value(x[..n]), Value(x[n..]), 1, Pow2(n));
  }

  /** How many bits are set; the contract of mpn_popcount on one limb. */
  function PopCount(x: seq<bool>): nat {
    if |x| == 0 then 0 else PopCount(x[..|x| - 1]) + if x[|x| - 1] then 1 else 0
  }
}
