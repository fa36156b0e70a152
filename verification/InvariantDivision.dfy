/** Division by a precomputed reciprocal (gmp-impl.h): invert_limb,
    udiv_qrnnd_preinv, udiv_rnnd_preinv, invert_pi1 and udiv_qr_3by2. All
    intermediate words wrap around; the results do not. */
module InvariantDivision {
  import opened Arithmetic
  import opened WordArithmetic

  // ---------------------------------------------------------------- one-word divisors

  ghost predicate Normalized(d: Word) {
    B <= 2 * d
  }

  /** v = floor((B^2 - 1) / d) - B. */
  ghost predicate IsInverse(v: int, d: Word)
    requires Normalized(d)
  {
    v == (B * B - 1) / d - B
  }

  /** The same without a division: (B + v) d falls short of B^2 by 1 .. d. */
  lemma InverseGap(v: int, d: Word)
    requires Normalized(d)
    ensures IsInverse(v, d) <==> 1 <= B * B - (B + v) * d <= d
    ensures IsInverse(v, d) ==> 0 <= v < B
  {
    var q, r := (B * B - 1) / d, (B * B - 1) % d;
    DivModIdentity(B * B - 1, d);
    if 1 <= B * B - (B + v) * d <= d {
      DivModUnique(B * B - 1, d, B + v, B * B - 1 - (B + v) * d);
    }
    if IsInverse(v, d) {
      if v < 0 { MulMonotone(d, B + v, B - 1); assert false; }
      if B <= v { MulMonotone(d, 2 * B, B + v); assert false; }
    }
  }

  /** invert_limb, by the generic division of (~d, ~0). */
  method InvertLimb(d: Word) returns (v: Word)
    requires Normalized(d)
    ensures IsInverse(v, d)
  {
    var dummy;
    v, dummy := UdivQrnndC(B - 1 - d, B - 1, d);
    MulDistributes(d, B, v);
    InverseGap(v, d);
  }

  /** Bounds on the candidate remainder nh B + nl - (q1 + 1) d, from the identity
      B r = nh k + nl (B - d) + q0 d - B d. */
  lemma Candidate(nh: int, nl: Word, d: Word, v: int, q1: int, q0: Word)
    requires Normalized(d) && IsInverse(v, d) && 0 <= nh <= d
    requires Double(q1, q0) == (B + v) * nh + nl
    ensures
      var r := Double(nh, nl) - (q1 + 1) * d;
      && 0 <= r + d && q0 - B < r && (r < B - d || r < q0)
      && (nl == 0 ==> r < d && (r < 0 || r < q0))
  {
    InverseGap(v, d);
    var k := B * B - (B + v) * d;
    var r := Double(nh, nl) - (q1 + 1) * d;
    CandidateIdentity(nh, nl, d, v, q1, q0, k, r);
    CandidateBounds(nh, nl, d, k, q0, r);
  }

  lemma CandidateIdentity(nh: int, nl: int, d: int, v: int, q1: int, q0: int, k: int, r: int)
    requires q1 * B + q0 == (B + v) * nh + nl && k == B * B - (B + v) * d
    requires r == nh * B + nl - (q1 + 1) * d
    ensures B * r == nh * k + nl * (B - d) + q0 * d - B * d
  {
    calc {
      (q1 * B) * d;
      ((B + v) * nh + nl - q0) * d;
      ((B + v) * d) * nh + nl * d - q0 * d;
      (B * B - k) * nh + nl * d - q0 * d;
    }
  }

  lemma CandidateBounds(nh: int, nl: int, d: int, k: int, q0: int, r: int)
    requires 0 <= nh <= d < B && B <= 2 * d && 1 <= k <= d && 0 <= nl < B && 0 <= q0 < B
    requires B * r == nh * k + nl * (B - d) + q0 * d - B * d
    ensures 0 <= r + d && q0 - B < r && (r < B - d || r < q0)
    ensures nl == 0 ==> r < d && (r < 0 || r < q0)
  {
    CandidateTerms(nh, nl, d, k, q0);
    BelowByLess(B, d, q0, r);
    BelowEither(B, B - d, d, q0, r);
    if nl == 0 && 0 <= r {
      assert nl * (B - d) == 0;
      ZeroLowBound(d, q0, r);
    }
  }

  /** The ranges of the three terms of a candidate remainder. */
  lemma CandidateTerms(nh: int, nl: int, d: int, k: int, q0: int)
    requires 0 <= nh <= d < B && 1 <= k <= d && 0 <= nl < B && 0 <= q0
    ensures 0 <= nh * k <= d * d && 0 <= nl * (B - d) <= (B - 1) * (B - d) && 0 <= q0 * d
    ensures (B - d) * (B - d) == B * B - 2 * (B * d) + d * d
  {
    MulMonotone(nh, 0, k);
    MulMonotone(nh, k, d);
    MulMonotone(d, nh, d);
    MulMonotone(B - d, 0, nl);
    MulMonotone(B - d, nl, B - 1);
    MulMonotone(d, 0, q0);
  }

  lemma BelowByLess(b: int, d: int, q0: int, r: int)
    requires 0 < d < b && 0 <= q0 < b && q0 * d - b * d <= b * r
    ensures q0 - b < r
  {
    MulStrictlyMonotone(b - q0, d, b);
    assert (b - q0) * d == b * d - q0 * d;
    if r <= q0 - b {
      MulMonotone(b, r, q0 - b);
    }
  }

  /** A weighted mean of e and q0 is below the larger of them. */
  lemma BelowEither(b: int, e: int, d: int, q0: int, r: int)
    requires 0 < e && 0 < d && b == e + d && b * r < e * e + q0 * d
    ensures r < e || r < q0
  {
    MulDistributes(r, e, d);
    if e <= r && q0 <= r {
      MulMonotone(e, e, r);
      MulMonotone(d, q0, r);
    }
  }

  lemma ZeroLowBound(d: int, q0: int, r: int)
    requires 0 < d < B && 0 <= q0 < B && 0 <= r
    requires B * r <= d * d + q0 * d - B * d
    ensures r < d && r < q0
  {
    var e := d + q0 - B;
    assert d * d + q0 * d - B * d == d * e;
    if e < 0 { MulStrictlyMonotone(d, e, 0); assert false; }
    MulMonotone(e, d, B);
    if e < r { MulStrictlyMonotone(B, e, r); assert false; }
  }

  /** The wrapped candidate w, and what its comparison with q0 decides. */
  lemma Correction(n: int, d: Word, q1: int, q0: Word, r: int, w: Word)
    requires Normalized(d) && n == (q1 + 1) * d + r && w == Wrap(r)
    requires 0 <= r + d && q0 - B < r && (r < B - d || r < q0)
    ensures w > q0 ==> n == q1 * d + Wrap(w + d) && Wrap(w + d) < 2 * d
    ensures w <= q0 ==> n == (q1 + 1) * d + w && w < 2 * d
    ensures (r < 0 || (r < d && r < q0)) && w > q0 ==> Wrap(w + d) < d
    ensures (r < 0 || (r < d && r < q0)) && w <= q0 ==> w < d
  {
    hide Wrap;
    MulDistributes(d, q1, 1);
    if r < 0 {
      WrapShift(r, 1);
      WrapSmall(r + B);
      WrapShift(r + d, 1);
      WrapSmall(r + d);
    } else {
      WrapSmall(r);
      if q0 < r { WrapSmall(r + d); }
    }
  }

  lemma ExactQuotient(nh: int, nl: Word, d: Word, q: int, r: int)
    requires 0 <= nh < d && Double(nh, nl) == q * d + r && 0 <= r < d
    ensures 0 <= q < B
  {
    if q < 0 { MulMonotone(d, q, -1); assert false; }
    if B <= q { MulMonotone(d, B, q); assert false; }
  }

  lemma ExactRemainder(n: int, d: Word, q: int, r: int)
    requires 0 < d && n == q * d + r && 0 <= r < d
    ensures r == n % d
  {
    DivModUnique(n, d, q, r);
  }

  /** x - q d in one word. */
  function MulSub(x: int, q: int, d: int): Word {
    Wrap(x - q * d)
  }

  lemma MulSubWraps(x: int, q: int, d: int)
    ensures MulSub(x, Wrap(q), d) == MulSub(x, q, d)
  {
    hide Wrap;
    WrapIdentity(q);
    MulDistributes(d, (q / B) * B, Wrap(q));
    MulAssociates(d, q / B, B);
    WrapShift(x - q * d, (q / B) * d);
  }

  lemma WrapIdentity(q: int)
    ensures q == (q / B) * B + Wrap(q)
  {
  }

  /** The general branch before the correction: a candidate quotient t, in one word
      qh, and the candidate remainder w. */
  lemma GeneralCandidate(nh: Word, nl: Word, d: Word, v: Word, qh: Word, ql: Word, w: Word) returns (t: int)
    requires Normalized(d) && IsInverse(v, d) && nh <= d
    requires Double(qh, ql) == Wrap2(nh * v + Double(nh + 1, nl))
    requires w == MulSub(nl, qh, d)
    ensures qh == Wrap(t)
    ensures w > ql ==> Double(nh, nl) == (t - 1) * d + Wrap(w + d) && Wrap(w + d) < 2 * d
    ensures w <= ql ==> Double(nh, nl) == t * d + w && w < 2 * d
  {
    hide Wrap, IsInverse;
    var x := nh * v + Double(nh + 1, nl);
    var e := x / (B * B);
    DivModIdentity(x, B * B);
    t := qh + e * B;
    MulDistributes(nh, B, v);
    WrapShift(qh, e);
    WrapSmall(qh);
    Candidate(nh, nl, d, v, t - 1, ql);
    MulSubWraps(nl, t, d);
    WrapShift(nl - t * d, nh);
    Correction(Double(nh, nl), d, t - 1, ql, Double(nh, nl) - t * d, w);
  }

  /** The branch for a constant zero low word needs no second correction. */
  lemma ZeroLowCandidate(nh: Word, d: Word, v: Word, qh: Word, ql: Word, w: Word)
    requires Normalized(d) && IsInverse(v, d) && nh <= d
    requires Double(qh, ql) == nh * v && w == MulSub(0, qh + nh + 1, d)
    ensures w > ql ==> Double(nh, 0) == (qh + nh) * d + Wrap(w + d) && Wrap(w + d) < d
    ensures w <= ql ==> Double(nh, 0) == (qh + nh + 1) * d + w && w < d
  {
    hide Wrap, IsInverse;
    var q1 := qh + nh;
    MulDistributes(nh, B, v);
    Candidate(nh, 0, d, v, q1, ql);
    WrapShift(0 - (q1 + 1) * d, nh);
    Correction(Double(nh, 0), d, q1, ql, Double(nh, 0) - (q1 + 1) * d, w);
  }

  lemma IncrementWraps(x: int, nh: Word, nl: Word)
    ensures Wrap2(x + Double(Wrap(nh + 1), nl)) == Wrap2(x + Double(nh + 1, nl))
  {
    if nh + 1 == B {
      ModAddMultiple(x + nl, 1, B * B);
    } else {
      WrapSmall(nh + 1);
    }
  }

  /** udiv_qrnnd_preinv: exact quotient and remainder whenever nh < d, in the
      general branch and in the one for a constant zero low word. */
  method UdivQrnndPreinv(nh: Word, nl: Word, d: Word, di: Word, constantLow: bool) returns (q: Word, r: Word)
    requires Normalized(d) && IsInverse(di, d) && nh < d
    ensures Double(nh, nl) == q * d + r && r < d
  {
    hide Wrap, IsInverse, Double, MulSub;
    var qh, ql := UmulPpmm(nh, di);
    ghost var t;
    if constantLow && nl == 0 {
      t := qh + nh + 1;
      MulSubWraps(0, t, d);
      ghost var hi := qh;
      qh := Wrap(qh + (nh + 1));
      r := MulSub(0, qh, d);
      ZeroLowCandidate(nh, d, di, hi, ql, r);
    } else {
      IncrementWraps(nh * di, nh, nl);
      qh, ql := AddSsaaaa(qh, ql, Wrap(nh + 1), nl);
      r := MulSub(nl, qh, d);
      t := GeneralCandidate(nh, nl, d, di, qh, ql, r);
    }
    WrapOnce(t, -1);
    if r > ql {
      qh := Wrap(qh + -1);
      r := Wrap(r + d);
      t := t - 1;
    }
    if !(constantLow && nl == 0) {
      if r >= d {
        r := r - d;
        WrapOnce(t, 1);
        MulDistributes(d, t, 1);
        qh := Wrap(qh + 1);
        t := t + 1;
      }
    }
    ExactQuotient(nh, nl, d, t, r);
    WrapSmall(t);
    q := qh;
  }

  /** udiv_rnnd_preinv: the exact remainder, also when nh = d. */
  method UdivRnndPreinv(nh: Word, nl: Word, d: Word, di: Word, constantLow: bool) returns (r: Word)
    requires Normalized(d) && IsInverse(di, d) && nh <= d
    ensures r == Double(nh, nl) % d
  {
    hide Wrap, IsInverse, Double, MulSub;
    var qh, ql := UmulPpmm(nh, di);
    ghost var t;
    if constantLow && nl == 0 {
      t := qh + nh + 1;
      r := ComplementTimes(Wrap(qh + nh), d);
      ComplementProduct(qh, nh, d);
      ZeroLowCandidate(nh, d, di, qh, ql, r);
    } else {
      IncrementWraps(nh * di, nh, nl);
      qh, ql := AddSsaaaa(qh, ql, Wrap(nh + 1), nl);
      r := MulSub(nl, qh, d);
      t := GeneralCandidate(nh, nl, d, di, qh, ql, r);
    }
    if r > ql {
      r := Wrap(r + d);
      t := t - 1;
    }
    if !(constantLow && nl == 0) {
      if r >= d {
        r := r - d;
        MulDistributes(d, t, 1);
        t := t + 1;
      }
    }
    ExactRemainder(Double(nh, nl), d, t, r);
  }

  /** ~x * d in one word. */
  function ComplementTimes(x: Word, d: Word): Word {
    Wrap((B - 1 - x) * d)
  }

  lemma ComplementProduct(qh: Word, nh: Word, d: Word)
    ensures ComplementTimes(Wrap(qh + nh), d) == MulSub(0, qh + nh + 1, d)
  {
    hide Wrap;
    var x, y := qh + nh, Wrap(qh + nh);
    WrapIdentity(x);
    var e := 1 + x / B;
    assert B - 1 - y == -(x + 1) + e * B;
    MulDistributes(d, -(x + 1), e * B);
    MulAssociates(d, e, B);
    assert -(x + 1) * d == 0 - (x + 1) * d;
    WrapShift(0 - (x + 1) * d, e * d);
  }

  // ---------------------------------------------------------------- two-word divisors

  const B3: int := B * B * B

  /** v = floor((B^3 - 1) / d) - B for the two-word d. */
  ghost predicate IsInverse32(v: int, d1: Word, d0: Word)
    requires Normalized(d1)
  {
    v == (B3 - 1) / Double(d1, d0) - B
  }

  lemma InverseGap32(v: int, d1: Word, d0: Word)
    requires Normalized(d1)
    ensures IsInverse32(v, d1, d0) <==> 1 <= B3 - (B + v) * Double(d1, d0) <= Double(d1, d0)
    ensures IsInverse32(v, d1, d0) ==> 0 <= v < B
  {
    var d := Double(d1, d0);
    DivModIdentity(B3 - 1, d);
    if 1 <= B3 - (B + v) * d <= d {
      DivModUnique(B3 - 1, d, B + v, B3 - 1 - (B + v) * d);
    }
    if IsInverse32(v, d1, d0) {
      if v < 0 { MulMonotone(d, B + v, B - 1); assert false; }
      if B <= v { MulMonotone(d, 2 * B, B + v); assert false; }
    }
  }

  /** After the first correction v is the largest with (B + v) d1 + d0 < B^2. */
  ghost predicate TopFits(v: int, p: int, d1: int, d0: int) {
    (B + v) * d1 + d0 == B * B - B + p && B - d1 <= p < B
  }

  lemma TopStart(v: Word, d1: Word, d0: Word, k: int) returns (p0: int)
    requires Normalized(d1) && k == B * B - (B + v) * d1 && 1 <= k <= d1
    ensures p0 == B - k && Wrap(d1 * v) == p0 && (B + v) * d1 == B * B - B + p0
  {
    p0 := B - k;
    MulDistributes(d1, B, v);
    assert d1 * v == p0 + (B - 1 - d1) * B;
    WrapShift(p0, B - 1 - d1);
    WrapSmall(p0);
  }

  lemma TopNonNegative(v: int, p: int, d1: Word, d0: Word)
    requires Normalized(d1) && TopFits(v, p, d1, d0)
    ensures 0 <= v
  {
    if v < 0 { MulMonotone(d1, B + v, B - 1); }
  }

  lemma WholeGap(v: Word, p: Word, d1: Word, d0: Word, t1: Word, t0: Word, c: int)
    requires Normalized(d1) && TopFits(v, p, d1, d0) && Double(t1, t0) == d0 * v
    requires
      var x := Double(p + t1, t0);
      if x < B * B then c == 0 else if x - B * B < Double(d1, d0) then c == 1 else c == 2
    ensures IsInverse32(v - c, d1, d0)
  {
    var d := Double(d1, d0);
    assert (B + v) * d == B3 - B * B + Double(p + t1, t0) by {
      MulDistributes(B + v, d1 * B, d0);
      MulAssociates(B + v, d1, B);
      MulDistributes(d0, B, v);
    }
    MulDistributes(d, B + v, -c);
    InverseGap32(v - c, d1, d0);
  }

  lemma TopCarry(v: Word, p0: Word, d1: Word, d0: Word)
    requires Normalized(d1) && (B + v) * d1 == B * B - B + p0 && B - d1 <= p0
    ensures
      var p := Wrap(p0 + d0);
      if p < d0 then
        var c := if p >= d1 then 2 else 1;
        TopFits(v - c, Wrap(p - c * d1), d1, d0) && 0 <= v - c
      else
        TopFits(v, p, d1, d0)
  {
    hide Wrap;
    CarryOut(p0, d0);
    if B <= p0 + d0 {
      var p := p0 + d0 - B;
      WrapShift(p, 1);
      WrapSmall(p);
      var c := if p >= d1 then 2 else 1;
      MulDistributes(d1, B + v, -c);
      WrapShift(p - c * d1, 1);
      WrapSmall(p - c * d1 + B);
      TopNonNegative(v - c, p - c * d1 + B, d1, d0);
    }
  }

  /** The first half of invert_pi1: the reciprocal of d1 adjusted for d0. */
  method InvertTop(d1: Word, d0: Word) returns (v: Word, p: Word)
    requires Normalized(d1)
    ensures TopFits(v, p, d1, d0)
  {
    hide Wrap, IsInverse, TopFits;
    v := InvertLimb(d1);
    InverseGap(v, d1);
    ghost var p0 := TopStart(v, d1, d0, B * B - (B + v) * d1);
    TopCarry(v, p0, d1, d0);
    p := Wrap(d1 * v);
    p := Wrap(p + d0);
    if p < d0 {
      WrapOnce(p - d1, d1);
      var mask := p >= d1;
      v := v - 1;
      p := Wrap(p - d1);
      if mask {
        v := v - 1;
        p := Wrap(p - d1);
      }
    }
  }

  lemma CompareDouble(a1: Word, a0: Word, b1: Word, b0: Word)
    ensures Double(a1, a0) < Double(b1, b0) <==> a1 < b1 || (a1 == b1 && a0 < b0)
  {
  }

  lemma SecondCarry(p: Word, t1: Word, t0: Word)
    ensures Wrap(p + t1) < t1 <==> B * B <= Double(p + t1, t0)
    ensures B * B <= Double(p + t1, t0) ==> Double(Wrap(p + t1), t0) == Double(p + t1, t0) - B * B
  {
  }

  /** invert_pi1: the reciprocal of a normalized two-word divisor. */
  method InvertPi1(d1: Word, d0: Word) returns (v: Word)
    requires Normalized(d1)
    ensures IsInverse32(v, d1, d0)
  {
    hide *;
    var p;
    v, p := InvertTop(d1, d0);
    var t1, t0 := UmulPpmm(d0, v);
    SecondCarry(p, t1, t0);
    CompareDouble(Wrap(p + t1), t0, d1, d0);
    ghost var c := if Wrap(p + t1) >= t1 then 0 else if Double(Wrap(p + t1), t0) < Double(d1, d0) then 1 else 2;
    WholeGap(v, p, d1, d0, t1, t0, c);
    InverseGap32(v - c, d1, d0);
    p := Wrap(p + t1);
    if p < t1 {
      v := v - 1;
      if p >= d1 {
        if p > d1 || t0 >= d0 {
          v := v - 1;
        }
      }
    }
  }

  /** B r = n2 k + n1 (B^2 - d) + n0 B + q0 d - B d for the candidate remainder r. */
  lemma CandidateIdentity32(n2: int, n1: int, n0: int, d: int, v: int, q1: int, q0: int, k: int, r: int)
    requires q1 * B + q0 == (B + v) * n2 + n1 && k == B3 - (B + v) * d
    requires r == n2 * (B * B) + n1 * B + n0 - (q1 + 1) * d
    ensures B * r == n2 * k + n1 * (B * B - d) + n0 * B + q0 * d - B * d
  {
    calc {
      (q1 * B) * d;
      ((B + v) * n2 + n1 - q0) * d;
      ((B + v) * d) * n2 + n1 * d - q0 * d;
      (B3 - k) * n2 + n1 * d - q0 * d;
    }
  }

  /** The upper bound when B (B^2 - d) >= d, where k <= d is the sharp fact. */
  lemma UpperBoundWide(n2: int, n1: int, n0: int, d: int, e: int, k: int)
    requires 0 <= n2 && 0 <= n1 < B && 0 <= n0 < B && n2 * B + n1 < d
    requires e == B * B - d && 0 < d && d <= B * e && 1 <= k <= d
    ensures B * (n2 * k + n1 * e + n0 * B - B * d) < e * e
  {
    WideTopTerms(n2, n1, d, e, k);
    WideIdentity(d);
  }

  lemma WideTopTerms(n2: int, n1: int, d: int, e: int, k: int)
    requires 0 <= n2 && 0 <= n1 < B && n2 * B + n1 < d && 0 < d <= B * e && 1 <= k <= d
    ensures B * (n2 * k) + B * (n1 * e) <= d * (d - 1) + (B - 1) * (B * e - d)
  {
    WideSum(n2 * B, n1, d, B * e, k, B - 1);
    MulAssociates(B, n2, k);
    MulAssociates(B, n1, e);
    MulAssociates(n1, B, e);
  }

  lemma WideSum(u: int, n: int, d: int, w: int, k: int, m: int)
    requires 0 <= u && 0 <= n <= m && u + n < d <= w && 1 <= k <= d
    ensures u * k + n * w <= d * (d - 1) + m * (w - d)
  {
    MulMonotone(u, k, d);
    MulMonotone(d, u, d - 1 - n);
    MulMonotone(w - d, n, m);
    MulDistributes(d, d - 1, -n);
    MulDistributes(n, w, -d);
  }

  lemma WideIdentity(d: int)
    ensures
      var e := B * B - d;
      d * (d - 1) + (B - 1) * (B * e - d) + B3 - B * B - (B * B) * d == e * e - B * B
  {
  }

  /** The upper bound when B (B^2 - d) < d, where k <= B (B^2 - d) is the sharp fact. */
  lemma UpperBoundNarrow(n2: int, n1: int, n0: int, d: int, e: int, k: int)
    requires 0 <= n2 && 0 <= n1 < B && 0 <= n0 < B && n2 * B + n1 < d
    requires e == B * B - d && 0 < e && B * e < d && 1 <= k <= B * e
    ensures B * (n2 * k + n1 * e + n0 * B - B * d) < e * e
  {
    NarrowTopTerms(n2, n1, d, e, k);
    NarrowNegative(e);
    MulMonotone(e, 0, e);
  }

  lemma NarrowTopTerms(n2: int, n1: int, d: int, e: int, k: int)
    requires 0 <= n2 && 0 <= n1 && n2 * B + n1 < d && 0 < e && 1 <= k <= B * e
    ensures B * (n2 * k) + B * (n1 * e) <= (B * e) * (d - 1)
  {
    MulMonotone(n2 * B, k, B * e);
    MulMonotone(B * e, n2 * B + n1, d - 1);
    MulAssociates(B, n2, k);
    MulDistributes(B * e, n2 * B, n1);
  }

  lemma NarrowNegative(e: int)
    requires 0 < e < B
    ensures (B * e) * (B * B - e - 1) + B3 - B * B - (B * B) * (B * B - e) < 0
  {
    MulMonotone(B - 1 - e, 0, B3 - B * e);
    NarrowIdentity(e);
  }

  lemma NarrowIdentity(e: int)
    ensures (B * e) * (B * B - e - 1) + B3 - B * B - (B * B) * (B * B - e) ==
      -((B - 1 - e) * (B3 - B * e)) - B * B
  {
  }

  lemma GapBelow(d: int, v: int, k: int)
    requires 0 <= d && 0 <= v && k == B3 - (B + v) * d
    ensures k <= B * (B * B - d)
  {
    MulMonotone(d, 0, v);
    MulDistributes(d, B, v);
  }

  lemma CandidateBounds32(n2: int, n1: int, n0: int, d: int, v: int, k: int, q0: int, r: int)
    requires 0 <= n2 && 0 <= n1 < B && 0 <= n0 < B && n2 * B + n1 < d < B * B && B * B <= 2 * d
    requires 0 <= v && k == B3 - (B + v) * d && 1 <= k <= d && 0 <= q0 < B
    requires B * r == n2 * k + n1 * (B * B - d) + n0 * B + q0 * d - B * d
    ensures 0 <= r + d && q0 * B - B * B < r && (r < B * B - d || r < q0 * B)
  {
    var e := B * B - d;
    MulMonotone(n2, 0, k);
    MulMonotone(e, 0, n1);
    MulMonotone(d, 0, q0);
    GapBelow(d, v, k);
    if d <= B * e {
      UpperBoundWide(n2, n1, n0, d, e, k);
    } else {
      UpperBoundNarrow(n2, n1, n0, d, e, k);
    }
    MulAssociates(B, B, r);
    MulAssociates(B, q0, d);
    BelowEither(B * B, e, d, q0 * B, r);
    BelowByLess(B * B, d, q0 * B, r);
  }

  lemma CandidateFits(n2: int, n1: int, d: int, v: int)
    requires 0 <= n2 && 0 <= n1 && n2 * B + n1 < d && 0 <= v && (B + v) * d < B3
    ensures (B + v) * n2 + n1 < B * B
  {
    MulMonotone(B + v, n2 * B + n1, d);
    MulDistributes(B + v, n2 * B, n1);
    MulAssociates(B + v, n2, B);
    MulMonotone(n1, B, B + v);
  }

  /** The wrapped candidate w, and what comparing its high word with q0 decides. */
  lemma Correction32(n: int, d: int, q1: int, q0: Word, r: int, w1: Word, w0: Word)
    requires d < B * B <= 2 * d && n == (q1 + 1) * d + r && Double(w1, w0) == Wrap2(r)
    requires 0 <= r + d && q0 * B - B * B < r && (r < B * B - d || r < q0 * B)
    ensures w1 >= q0 ==> n == q1 * d + Wrap2(Double(w1, w0) + d) && Wrap2(Double(w1, w0) + d) < 2 * d
    ensures w1 < q0 ==> n == (q1 + 1) * d + Double(w1, w0) && Double(w1, w0) < 2 * d
  {
    hide Wrap2;
    MulDistributes(d, q1, 1);
    if r < 0 {
      Wrap2Shift(r, 1);
      Wrap2Small(r + B * B);
      Wrap2Shift(r + d, 1);
      Wrap2Small(r + d);
    } else {
      Wrap2Small(r);
      if q0 * B <= r { Wrap2Small(r + d); }
    }
  }

  /** The two words computed from n1, n0 and q are n - (q + 1) d modulo B^2. */
  lemma PartialRemainder(n2: int, n1: Word, n0: Word, d1: Word, d0: Word, q: Word, a: Word, m: int)
    requires a == MulSub(n1, q, d1) && m == Wrap2(Double(a, n0) - Double(d1, d0))
    ensures Wrap2(m - d0 * q) == Wrap2(n2 * (B * B) + Double(n1, n0) - (q + 1) * Double(d1, d0))
  {
    hide Wrap2, Wrap;
    var d := Double(d1, d0);
    Wrap2Once(Double(a, n0) - d, -(d0 * q));
    WrapIdentity(n1 - q * d1);
    var e := (n1 - q * d1) / B;
    assert Double(a, n0) == Double(n1, n0) - (q * d1) * B - e * (B * B);
    assert (q + 1) * d == (q * d1) * B + q * d0 + d by {
      MulDistributes(d, q, 1);
      MulDistributes(q, d1 * B, d0);
      MulAssociates(q, d1, B);
    }
    Wrap2Shift(Double(a, n0) - d - d0 * q, n2 + e);
  }

  lemma ExactQuotient32(n: int, d: int, q: int, r: int)
    requires 0 <= n < d * B && n == q * d + r && 0 <= r < d
    ensures 0 <= q < B
  {
    if q < 0 { MulMonotone(d, q, -1); assert false; }
    if B <= q { MulMonotone(d, B, q); assert false; }
  }

  /** The value of three words. */
  function Triple(n2: int, n1: int, n0: int): int {
    n2 * (B * B) + n1 * B + n0
  }

  /** Everything known about the candidate before the correction of udiv_qr_3by2. */
  lemma Candidate32(n2: Word, n1: Word, n0: Word, d1: Word, d0: Word, v: Word, q: Word, q0: Word,
                    a: Word, m: int, w1: Word, w0: Word)
    requires Normalized(d1) && IsInverse32(v, d1, d0) && Double(n2, n1) < Double(d1, d0)
    requires Double(q, q0) == Wrap2(n2 * v + Double(n2, n1))
    requires a == MulSub(n1, q, d1) && m == Wrap2(Double(a, n0) - Double(d1, d0))
    requires Double(w1, w0) == Wrap2(m - d0 * q)
    ensures
      var n, d := Triple(n2, n1, n0), Double(d1, d0);
      && (w1 >= q0 ==> n == q * d + Wrap2(Double(w1, w0) + d) && Wrap2(Double(w1, w0) + d) < 2 * d)
      && (w1 < q0 ==> n == (q + 1) * d + Double(w1, w0) && Double(w1, w0) < 2 * d)
  {
    hide Wrap2, IsInverse32, MulSub;
    var n, d := Triple(n2, n1, n0), Double(d1, d0);
    InverseGap32(v, d1, d0);
    var k := B3 - (B + v) * d;
    CandidateFits(n2, n1, d, v);
    MulDistributes(n2, B, v);
    MulMonotone(n2, 0, v);
    Wrap2Small(n2 * v + Double(n2, n1));
    var r := n - (q + 1) * d;
    CandidateIdentity32(n2, n1, n0, d, v, q, q0, k, r);
    CandidateBounds32(n2, n1, n0, d, v, k, q0, r);
    PartialRemainder(n2, n1, n0, d1, d0, q, a, m);
    Correction32(n, d, q, q0, r, w1, w0);
  }

  /** The last test: a remainder of at least d is corrected once. */
  lemma LastCorrection(n: int, d1: Word, d0: Word, q: int, r1: Word, r0: Word)
    requires Normalized(d1) && n == q * Double(d1, d0) + Double(r1, r0) && Double(r1, r0) < 2 * Double(d1, d0)
    ensures
      var d, r := Double(d1, d0), Double(r1, r0);
      if r1 >= d1 && (r1 > d1 || r0 >= d0) then
        n == (q + 1) * d + Wrap2(r - d) && 0 <= Wrap2(r - d) < d
      else
        r < d
  {
    hide Wrap2, Double;
    CompareDouble(r1, r0, d1, d0);
    var d, r := Double(d1, d0), Double(r1, r0);
    MulDistributes(d, q, 1);
    DoubleBound(d1, d0);
    if d <= r { Wrap2Small(r - d); }
  }

  lemma DoubleBound(a1: Word, a0: Word)
    ensures 0 <= Double(a1, a0) < B * B
    ensures Normalized(a1) ==> B * B <= 2 * Double(a1, a0)
  {
  }

  lemma TopBelow(n2: Word, n1: Word, n0: Word, d: int)
    requires Triple(n2, n1, n0) < d * B
    ensures Double(n2, n1) < d && 0 <= Triple(n2, n1, n0)
  {
  }

  /** udiv_qr_3by2: with the reciprocal of a normalized two-word d, the exact
      quotient and remainder of every three-word n < d B. */
  method UdivQr3by2(n2: Word, n1: Word, n0: Word, d1: Word, d0: Word, dinv: Word)
    returns (q: Word, r1: Word, r0: Word)
    requires Normalized(d1) && IsInverse32(dinv, d1, d0)
    requires Triple(n2, n1, n0) < Double(d1, d0) * B
    ensures Triple(n2, n1, n0) == q * Double(d1, d0) + Double(r1, r0)
    ensures Double(r1, r0) < Double(d1, d0)
  {
    hide Wrap, Wrap2, IsInverse32, MulSub, Triple, Double, Normalized;
    ghost var n, d := Triple(n2, n1, n0), Double(d1, d0);
    TopBelow(n2, n1, n0, d);
    var q0, t1, t0;
    q, q0 := UmulPpmm(n2, dinv);
    q, q0 := AddSsaaaa(q, q0, n2, n1);
    r1 := MulSub(n1, q, d1);
    ghost var a := r1;
    r1, r0 := SubDdmmss(r1, n0, d1, d0);
    ghost var m := Double(r1, r0);
    t1, t0 := UmulPpmm(d0, q);
    r1, r0 := SubDdmmss(r1, r0, t1, t0);
    Candidate32(n2, n1, n0, d1, d0, dinv, q, q0, a, m, r1, r0);
    ghost var t: int := q;
    q := Wrap(q + 1);
    WrapOnce(t + 1, -1);
    WrapSmall(t);
    if r1 >= q0 {
      q := Wrap(q + -1);
      r1, r0 := AddSsaaaa(r1, r0, d1, d0);
    } else {
      t := t + 1;
    }
    LastCorrection(n, d1, d0, t, r1, r0);
    if r1 >= d1 {
      if r1 > d1 || r0 >= d0 {
        WrapOnce(t, 1);
        q := Wrap(q + 1);
        r1, r0 := SubDdmmss(r1, r0, d1, d0);
        t := t + 1;
      }
    }
    DoubleBound(r1, r0);
    ExactQuotient32(n, d, t, Double(r1, r0));
    WrapSmall(t);
  }

  /** The half-limb divider and the reciprocal divider return the same words. */
  method DivideBothWays(n1: Word, n0: Word, d: Word, constantLow: bool)
    returns (q: Word, r: Word, q': Word, r': Word)
    requires Normalized(d) && n1 < d
    ensures q == q' && r == r' && q == Double(n1, n0) / d && r == Double(n1, n0) % d
  {
    hide IsInverse, Double;
    q, r := UdivQrnndC(n1, n0, d);
    var di := InvertLimb(d);
    q', r' := UdivQrnndPreinv(n1, n0, d, di, constantLow);
    DivModUnique(Double(n1, n0), d, q, r);
    DivModUnique(Double(n1, n0), d, q', r');
  }
}
