/** The presieving of a block by 5, 7, 11 and 13 with two periodic bit patterns
    (fill_bitpattern in primesieve.c) and the generator of those patterns
    (setmask and gen_sieve_masks in gen-sieve.c). */
module SievePattern {
  import opened Arithmetic
  import opened Limbs

  /** The number that bit b of the sieve stands for: 5, 7, 11, 13, 17, ... */
  function BitToN(b: nat): nat {
    3 * b + 4 + (b + 1) % 2
  }

  lemma BitToNCoprimeTo6(b: nat)
    ensures BitToN(b) % 2 == 1 && BitToN(b) % 3 != 0
  {
    var h := b / 2;
    if b == 2 * h {
      DivModUnique(b + 1, 2, h, 1);
      DivModUnique(6 * h + 5, 2, 3 * h + 2, 1);
      DivModUnique(6 * h + 5, 3, 2 * h + 1, 2);
    } else {
      DivModUnique(b + 1, 2, h + 1, 0);
      DivModUnique(6 * h + 7, 2, 3 * h + 3, 1);
      DivModUnique(6 * h + 7, 3, 2 * h + 2, 1);
    }
  }

  lemma BitToNBound(b: nat)
    ensures 3 * b + 4 <= BitToN(b) <= 3 * b + 5
  {
  }

  // ---------------------------------------------------------------- cyclic patterns

  /** The infinite repetition of a pattern. */
  function At(pat: seq<bool>, i: nat): bool
    requires |pat| > 0
  {
    pat[i % |pat|]
  }

  lemma AtPeriod(pat: seq<bool>, i: nat)
    requires |pat| > 0
    ensures At(pat, i + |pat|) == At(pat, i)
  {
    ModAddMultiple(i, 1, |pat|);
  }

  lemma AtWrap(pat: seq<bool>, i: nat)
    requires i < 2 * |pat|
    ensures At(pat, i) == if i < |pat| then pat[i] else pat[i - |pat|]
  {
    if i < |pat| {
      ModSmall(i, |pat|);
    } else {
      DivModUnique(i, |pat|, 1, i - |pat|);
    }
  }

  /** x holds bits t .. t + 63 of the repeated pattern. */
  ghost predicate Window(x: Limb, pat: seq<bool>, t: nat)
    requires |pat| > 0
  {
    forall k :: 0 <= k < 64 ==> x[k] == At(pat, t + k)
  }

  /** The low `len` bits of x are bits t .. of the repeated pattern; a higher bit
      may be missing, but is never wrong. */
  ghost predicate Tail(x: Limb, pat: seq<bool>, t: nat, len: nat)
    requires |pat| > 0
  {
    forall k :: 0 <= k < 64 ==> (x[k] ==> At(pat, t + k)) && (k < len ==> x[k] == At(pat, t + k))
  }

  /** A one-period pattern cut into a full limb and a tail. */
  ghost predicate Split2(m1: Limb, mt: Limb, pat: seq<bool>)
  {
    && 64 < |pat| < 128
    && (forall k :: 0 <= k < 64 ==> m1[k] == pat[k])
    && (forall k :: 0 <= k < 64 ==> mt[k] == (64 + k < |pat| && pat[64 + k]))
  }

  ghost predicate Split3(m1: Limb, m2: Limb, mt: Limb, pat: seq<bool>)
  {
    && 128 < |pat| < 192
    && (forall k :: 0 <= k < 64 ==> m1[k] == pat[k])
    && (forall k :: 0 <= k < 64 ==> m2[k] == pat[64 + k])
    && (forall k :: 0 <= k < 64 ==> mt[k] == (128 + k < |pat| && pat[128 + k]))
  }

  /** SET_OFF1: start the two-limb pattern at an arbitrary offset. */
  method SetOff1(M1: Limb, M2: Limb, off: nat, ghost pat: seq<bool>, bits: nat)
    returns (m1: Limb, m2: Limb)
    requires bits == |pat| && Split2(M1, M2, pat) && off < bits
    ensures Window(m1, pat, off)
    ensures Tail(m2, pat, off + 64, bits - 64)
  {
    if off != 0 {
      if off < 64 {
        m1 := Or(Shr(M1, off), Shl(M2, 64 - off));
        if off <= bits - 64 {
          m2 := Or(Shl(M1, bits - 64 - off), Shr(M2, off));
        } else {
          m1 := Or(m1, Shl(M1, bits - off));
          m2 := Shr(M1, off + 64 - bits);
        }
      } else {
        m1 := Or(Shl(M1, bits - off), Shr(M2, off - 64));
        m2 := Or(Shl(M2, bits - off), Shr(M1, off + 64 - bits));
      }
    } else {
      m1, m2 := M1, M2;
    }
    forall k | 0 <= k < 64
      ensures m1[k] == At(pat, off + k)
    {
      AtWrap(pat, off + k);
    }
    forall k | 0 <= k < 64
      ensures (m2[k] ==> At(pat, off + 64 + k)) && (k < bits - 64 ==> m2[k] == At(pat, off + 64 + k))
    {
      if off + 64 + k >= bits {
        AtPeriod(pat, off + 64 + k - bits);
        AtWrap(pat, off + 64 + k - bits);
      } else {
        AtWrap(pat, off + 64 + k);
      }
    }
  }

  /** Bit i of one period followed by a second one. */
  ghost predicate Cyclic(pat: seq<bool>, i: nat)
    requires i < 2 * |pat|
  {
    if i < |pat| then pat[i] else pat[i - |pat|]
  }

  lemma AtCyclic(pat: seq<bool>, i: nat)
    requires i < 2 * |pat|
    ensures At(pat, i) == Cyclic(pat, i)
  {
    AtWrap(pat, i);
  }

  lemma CyclicWindow(x: Limb, pat: seq<bool>, t: nat)
    requires t + 64 <= 2 * |pat|
    requires forall k :: 0 <= k < 64 ==> x[k] == Cyclic(pat, t + k)
    ensures Window(x, pat, t)
  {
    forall k | 0 <= k < 64
      ensures x[k] == At(pat, t + k)
    {
      AtCyclic(pat, t + k);
    }
  }

  lemma AtFolded(pat: seq<bool>, j: nat)
    requires 0 < |pat| && j < 3 * |pat|
    ensures At(pat, j) == Cyclic(pat, if j < |pat| then j else j - |pat|)
  {
    if j >= |pat| { AtPeriod(pat, j - |pat|); }
    AtCyclic(pat, if j < |pat| then j else j - |pat|);
  }

  /** Limbs read off two consecutive periods are windows of the repetition. */
  lemma FromOffset(m1: Limb, m2: Limb, m3: Limb, off: nat, pat: seq<bool>)
    requires 128 < |pat| < 192 && off < |pat|
    requires forall k :: 0 <= k < 64 ==> m1[k] == Cyclic(pat, off + k)
    requires forall k :: 0 <= k < 64 ==> m2[k] == Cyclic(pat, off + 64 + k)
    requires forall k :: 0 <= k < 64 ==>
      var i := if off + 128 + k < |pat| then off + 128 + k else off + 128 + k - |pat|;
      (m3[k] ==> Cyclic(pat, i)) && (k < |pat| - 128 ==> m3[k] == Cyclic(pat, i))
    ensures Window(m1, pat, off) && Window(m2, pat, off + 64)
    ensures Tail(m3, pat, off + 128, |pat| - 128)
  {
    hide Window, At, Cyclic;
    CyclicWindow(m1, pat, off);
    CyclicWindow(m2, pat, off + 64);
    forall k | 0 <= k < 64
      ensures (m3[k] ==> At(pat, off + 128 + k)) && (k < |pat| - 128 ==> m3[k] == At(pat, off + 128 + k))
    {
      AtFolded(pat, off + 128 + k);
    }
  }

  /** The arm of SET_OFF2 for an offset within the first limb. */
  method SetOff2Low(M1: Limb, M2: Limb, M3: Limb, off: nat, ghost pat: seq<bool>, bits: nat)
    returns (m1: Limb, m2: Limb, m3: Limb)
    requires bits == |pat| && Split3(M1, M2, M3, pat) && 0 < off <= 64
    ensures Window(m1, pat, off) && Window(m2, pat, off + 64)
    ensures Tail(m3, pat, off + 128, bits - 128)
  {
    m1 := Shl(M2, 64 - off);
    m2 := Shl(M3, 64 - off);
    if off != 64 {
      m1 := Or(m1, Shr(M1, off));
      m2 := Or(m2, Shr(M2, off));
    }
    if off <= bits - 128 {
      m3 := Or(Shl(M1, bits - 128 - off), Shr(M3, off));
    } else {
      m2 := Or(m2, Shl(M1, bits - 64 - off));
      m3 := Shr(M1, off + 128 - bits);
    }
    FromOffset(m1, m2, m3, off, pat);
  }

  /** The arm for an offset within the second limb. */
  method SetOff2Mid(M1: Limb, M2: Limb, M3: Limb, off: nat, ghost pat: seq<bool>, bits: nat)
    returns (m1: Limb, m2: Limb, m3: Limb)
    requires bits == |pat| && Split3(M1, M2, M3, pat) && 64 < off < 128 && off < bits
    ensures Window(m1, pat, off) && Window(m2, pat, off + 64)
    ensures Tail(m3, pat, off + 128, bits - 128)
  {
    m1 := Or(Shr(M2, off - 64), Shl(M3, 128 - off));
    if off <= bits - 64 {
      m2 := Or(Shr(M3, off - 64), Shl(M1, bits - 64 - off));
      m3 := Shl(M2, bits - 64 - off);
      if off != bits - 64 {
        m3 := Or(m3, Shr(M1, off + 128 - bits));
      }
    } else {
      m1 := Or(m1, Shl(M1, bits - off));
      m2 := Or(Shl(M2, bits - off), Shr(M1, 64 + off - bits));
      m3 := Shr(M2, 64 + off - bits);
    }
    FromOffset(m1, m2, m3, off, pat);
  }

  /** The arm for an offset within the last, partial limb. */
  method SetOff2High(M1: Limb, M2: Limb, M3: Limb, off: nat, ghost pat: seq<bool>, bits: nat)
    returns (m1: Limb, m2: Limb, m3: Limb)
    requires bits == |pat| && Split3(M1, M2, M3, pat) && 128 <= off < bits
    ensures Window(m1, pat, off) && Window(m2, pat, off + 64)
    ensures Tail(m3, pat, off + 128, bits - 128)
  {
    m1 := Or(Shl(M1, bits - off), Shr(M3, off - 128));
    m2 := Or(Shl(M2, bits - off), Shr(M1, off + 64 - bits));
    m3 := Or(Shl(M3, bits - off), Shr(M2, off + 64 - bits));
    FromOffset(m1, m2, m3, off, pat);
  }

  /** SET_OFF2: the same for a pattern of three limbs. */
  method SetOff2(M1: Limb, M2: Limb, M3: Limb, off: nat, ghost pat: seq<bool>, bits: nat)
    returns (m1: Limb, m2: Limb, m3: Limb)
    requires bits == |pat| && Split3(M1, M2, M3, pat) && off < bits
    ensures Window(m1, pat, off) && Window(m2, pat, off + 64)
    ensures Tail(m3, pat, off + 128, bits - 128)
  {
    if off != 0 {
      if off <= 64 {
        m1, m2, m3 := SetOff2Low(M1, M2, M3, off, pat, bits);
      } else if off < 128 {
        m1, m2, m3 := SetOff2Mid(M1, M2, M3, off, pat, bits);
      } else {
        m1, m2, m3 := SetOff2High(M1, M2, M3, off, pat, bits);
      }
    } else {
      m1, m2, m3 := M1, M2, M3;
      FromOffset(m1, m2, m3, off, pat);
    }
  }

  /** ROTATE1: one limb further along a two-limb pattern. */
  method Rotate1(x1: Limb, x2: Limb, bits: nat, ghost pat: seq<bool>, ghost t: nat)
    returns (m1: Limb, m2: Limb)
    requires bits == |pat| && 64 < bits < 128
    requires Window(x1, pat, t) && Tail(x2, pat, t + 64, bits - 64)
    ensures Window(m1, pat, t + 64) && Tail(m2, pat, t + 128, bits - 64)
  {
    m1, m2 := x1, x2;
    var tmp := Shr(m1, 128 - bits);
    m1 := Or(Shl(m1, bits - 64), m2);
    m2 := tmp;
    forall k | 0 <= k < 64
      ensures m1[k] == At(pat, t + 64 + k)
    {
      if bits - 64 <= k {
        AtPeriod(pat, t + 64 + k - bits);
        assert x1[k - (bits - 64)] == At(pat, t + 64 + k - bits);
      }
    }
    forall k | 0 <= k < 64
      ensures (m2[k] ==> At(pat, t + 128 + k)) && (k < bits - 64 ==> m2[k] == At(pat, t + 128 + k))
    {
      AtPeriod(pat, t + 128 + k - bits);
      if k + (128 - bits) < 64 {
        assert x1[k + (128 - bits)] == At(pat, t + 128 + k - bits);
      }
    }
  }

  /** ROTATE2: two limbs further along a three-limb pattern. */
  method Rotate2(x1: Limb, x2: Limb, x3: Limb, bits: nat, ghost pat: seq<bool>, ghost t: nat)
    returns (m1: Limb, m2: Limb, m3: Limb)
    requires bits == |pat| && 128 < bits < 192
    requires Window(x1, pat, t) && Window(x2, pat, t + 64) && Tail(x3, pat, t + 128, bits - 128)
    ensures Window(m1, pat, t + 128) && Window(m2, pat, t + 192) && Tail(m3, pat, t + 256, bits - 128)
  {
    m1, m2, m3 := x1, x2, x3;
    var tmp := Shr(m2, 192 - bits);
    m2 := Or(Shl(m2, bits - 128), Shr(m1, 192 - bits));
    m1 := Or(Shl(m1, bits - 128), m3);
    m3 := tmp;
    forall k | 0 <= k < 64
      ensures m1[k] == At(pat, t + 128 + k)
    {
      if bits - 128 <= k {
        AtPeriod(pat, t + 128 + k - bits);
        assert x1[k - (bits - 128)] == At(pat, t + 128 + k - bits);
      }
    }
    forall k | 0 <= k < 64
      ensures m2[k] == At(pat, t + 192 + k)
    {
      AtPeriod(pat, t + 192 + k - bits);
      if bits - 128 <= k {
        assert x2[k - (bits - 128)] == At(pat, t + 64 + (k - (bits - 128)));
      } else {
        assert x1[k + (192 - bits)] == At(pat, t + (k + (192 - bits)));
      }
    }
    forall k | 0 <= k < 64
      ensures (m3[k] ==> At(pat, t + 256 + k)) && (k < bits - 128 ==> m3[k] == At(pat, t + 256 + k))
    {
      AtPeriod(pat, t + 256 + k - bits);
      if k + (192 - bits) < 64 {
        assert x2[k + (192 - bits)] == At(pat, t + 64 + (k + (192 - bits)));
      }
    }
  }

  // ---------------------------------------------------------------- the generated masks

  /** Bit i of the pattern for a and b. */
  predicate Hits(a: nat, b: nat, i: nat)
    requires 0 < a && 0 < b
  {
    BitToN(i) % a == 0 || BitToN(i) % b == 0
  }

  /** One period of the pattern for a and b. */
  ghost predicate IsMask(pat: seq<bool>, a: nat, b: nat)
    requires 0 < a && 0 < b
  {
    |pat| == 2 * a * b && forall i :: 0 <= i < |pat| ==> pat[i] == Hits(a, b, i)
  }

  /** setmask */
  method SetMask(a: nat, b: nat) returns (mask: seq<bool>)
    requires 0 < a && 0 < b
    ensures IsMask(mask, a, b)
  {
    mask := [];
    var i := 0;
    while i < 2 * a * b
      invariant i == |mask|
      invariant 0 < a * b ==> i <= 2 * a * b
      invariant forall k :: 0 <= k < i ==> mask[k] == Hits(a, b, k)
      decreases 2 * a * b - i
    {
      mask := mask + [BitToN(i) % a == 0 || BitToN(i) % b == 0];
      i := i + 1;
    }
    MulMonotone(a, 1, b);
  }

  /** 64 bits of a wide mask from bit `from` on, zero-extended. */
  function TakeLimb(bits: seq<bool>, from: nat): Limb {
    seq(64, k requires 0 <= k < 64 => from + k < |bits| && bits[from + k])
  }

  /** SIEVE_MASK1, SIEVE_MASKT, SIEVE_2MSK1, SIEVE_2MSK2, SIEVE_2MSKT. */
  datatype Masks = Masks(m1: Limb, mt: Limb, mm1: Limb, mm2: Limb, mmt: Limb)

  ghost predicate ValidMasks(m: Masks, p1: seq<bool>, p2: seq<bool>) {
    && IsMask(p1, 5, 11) && Split2(m.m1, m.mt, p1)
    && IsMask(p2, 7, 13) && Split3(m.mm1, m.mm2, m.mmt, p2)
  }

  /** The 64-bit branch of gen_sieve_masks. */
  method GenSieveMasks() returns (m: Masks, ghost p1: seq<bool>, ghost p2: seq<bool>)
    ensures ValidMasks(m, p1, p2)
  {
    var mask := SetMask(5, 11);
    var limb1 := TakeLimb(mask, 0);
    var limbT := TakeLimb(mask, 64);
    p1 := mask;
    mask := SetMask(7, 13);
    var limb21 := TakeLimb(mask, 0);
    var limb22 := TakeLimb(mask, 64);
    var limb2T := TakeLimb(mask, 128);
    p2 := mask;
    m := Masks(limb1, limbT, limb21, limb22, limb2T);
  }

  lemma BitToNAdvance(b: nat, s: nat)
    ensures BitToN(b + 2 * s) == BitToN(b) + 6 * s
  {
  }

  lemma MultiplesRepeat(d: nat, e: nat, q: nat, r: nat)
    requires 0 < d
    ensures BitToN(r + q * (2 * (d * e))) % d == BitToN(r) % d
  {
    hide *;
    var s := q * (d * e);
    RepeatFactors(d, e, q);
    BitToNAdvance(r, s);
    ModAddMultiple(BitToN(r), 6 * (q * e), d);
  }

  lemma RepeatFactors(d: nat, e: nat, q: nat)
    ensures 0 <= q * (d * e) && q * (2 * (d * e)) == 2 * (q * (d * e))
    ensures 6 * (q * e) * d == 6 * (q * (d * e))
  {
    MulMonotone(d, 0, e);
    MulMonotone(q, 0, d * e);
    MulAssociates(q, e, d);
  }

  lemma HitsRepeats(a: nat, b: nat, q: nat, r: nat)
    requires 0 < a && 0 < b
    ensures Hits(a, b, r + q * (2 * (a * b))) == Hits(a, b, r)
  {
    MultiplesRepeat(a, b, q, r);
    MultiplesRepeat(b, a, q, r);
    assert a * b == b * a;
  }

  lemma MaskIsPeriodic(pat: seq<bool>, a: nat, b: nat, i: nat)
    requires 0 < a && 0 < b && |pat| > 0 && IsMask(pat, a, b)
    ensures At(pat, i) == Hits(a, b, i)
  {
    hide Hits;
    MulAssociates(2, a, b);
    PeriodSplit(i, |pat|, 2 * (a * b));
    HitsRepeats(a, b, i / |pat|, i % |pat|);
  }

  lemma PeriodSplit(i: nat, n: nat, m: nat)
    requires 0 < n == m
    ensures 0 <= i / n && 0 <= i % n < n && i == i % n + (i / n) * m
  {
    DivModIdentity(i, n);
  }

  /** Repeating one period gives the divisibility pattern everywhere. */
  lemma PatternIsPeriodic(p1: seq<bool>, p2: seq<bool>, i: nat)
    requires IsMask(p1, 5, 11) && IsMask(p2, 7, 13)
    ensures At(p1, i) == Hits(5, 11, i)
    ensures At(p2, i) == Hits(7, 13, i)
  {
    MaskIsPeriodic(p1, 5, 11, i);
    MaskIsPeriodic(p2, 7, 13, i);
  }

  lemma AtOffset(pat: seq<bool>, offset: nat, x: nat)
    requires |pat| > 0
    ensures At(pat, offset % |pat| + x) == At(pat, offset + x)
  {
    DivModIdentity(offset, |pat|);
    ModAddMultiple(offset % |pat| + x, offset / |pat|, |pat|);
  }

  // ---------------------------------------------------------------- filling a block

  ghost predicate SmallFactor(n: nat) {
    n % 5 == 0 || n % 7 == 0 || n % 11 == 0 || n % 13 == 0
  }

  /** The limb at bit position `start` marks exactly the multiples of 5, 7, 11, 13. */
  ghost predicate Filled(x: Limb, start: nat) {
    forall k :: 0 <= k < 64 ==> x[k] == SmallFactor(BitToN(start + k))
  }

  lemma CombinePatterns(x: Limb, y: Limb, p1: seq<bool>, p2: seq<bool>, offset: nat, done: nat)
    requires IsMask(p1, 5, 11) && IsMask(p2, 7, 13)
    requires Window(x, p1, offset % 110 + done) && Window(y, p2, offset % 182 + done)
    ensures Filled(Or(x, y), offset + done)
  {
    forall k | 0 <= k < 64
      ensures Or(x, y)[k] == SmallFactor(BitToN(offset + done + k))
    {
      AtOffset(p1, offset, done + k);
      AtOffset(p2, offset, done + k);
      PatternIsPeriodic(p1, p2, offset + (done + k));
      assert x[k] == At(p1, offset % 110 + (done + k));
      assert y[k] == At(p2, offset % 182 + (done + k));
    }
  }

  /** n_cto_bit */
  function CToBit(n: nat): int {
    (if n % 2 == 0 then n + 1 else n) / 3 - 1
  }

  lemma FirstSieving()
    ensures CToBit(13 + 1) == 4 && BitToN(4) == 17
  {
  }

  lemma MaskSizes(m: Masks, p1: seq<bool>, p2: seq<bool>)
    requires ValidMasks(m, p1, p2)
    ensures |p1| == 110 && |p2| == 182
  {
  }

  /** fill_bitpattern: whatever the offset and the number of limbs, bit k of limb j
      is set exactly when BitToN(offset + 64 j + k) has a factor 5, 7, 11 or 13. */
  method FillBitPattern(a: array<Limb>, base: nat, limbs: nat, offset: nat,
                        m: Masks, ghost p1: seq<bool>, ghost p2: seq<bool>)
    returns (i: nat)
    requires 0 < limbs && base + limbs <= a.Length
    requires ValidMasks(m, p1, p2)
    modifies a
    ensures forall j :: 0 <= j < limbs ==> Filled(a[base + j], offset + 64 * j)
    ensures forall j :: 0 <= j < base || base + limbs <= j < a.Length ==> a[j] == old(a[j])
    ensures i == 4 && BitToN(i) == 17
  {
    hide Window, Tail, Filled, Or, Shl, Shr, BitToN, CToBit, Hits, SmallFactor, IsMask;
    MaskSizes(m, p1, p2);
    FirstSieving();
    var off1 := offset % (11 * 5 * 2);
    var m11, m12 := SetOff1(m.m1, m.mt, off1, p1, 11 * 5 * 2);
    var off2 := offset % (13 * 7 * 2);
    var m21, m22, m23 := SetOff2(m.mm1, m.mm2, m.mmt, off2, p2, 13 * 7 * 2);
    var left, j := limbs, 0;
    ghost var done := 0;
    while true
      invariant 0 < left && j + left == limbs && done == 64 * j
      invariant Window(m11, p1, off1 + done) && Tail(m12, p1, off1 + done + 64, 46)
      invariant Window(m21, p2, off2 + done) && Window(m22, p2, off2 + done + 64)
      invariant Tail(m23, p2, off2 + done + 128, 54)
      invariant forall l :: 0 <= l < j ==> Filled(a[base + l], offset + 64 * l)
      invariant forall l :: 0 <= l < base || base + limbs <= l < a.Length ==> a[l] == old(a[l])
      decreases left
    {
      CombinePatterns(m11, m21, p1, p2, offset, done);
      a[base + j] := Or(m11, m21);
      left := left - 1;
      if left == 0 { break; }
      m11, m12 := Rotate1(m11, m12, 11 * 5 * 2, p1, off1 + done);
      CombinePatterns(m11, m22, p1, p2, offset, done + 64);
      a[base + j + 1] := Or(m11, m22);
      m11, m12 := Rotate1(m11, m12, 11 * 5 * 2, p1, off1 + done + 64);
      m21, m22, m23 := Rotate2(m21, m22, m23, 13 * 7 * 2, p2, off2 + done);
      j, done := j + 2, done + 128;
      left := left - 1;
      if left == 0 { break; }
    }
    i := CToBit(13 + 1);
  }
}
