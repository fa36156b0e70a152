/** Double-word arithmetic on 64-bit words that wrap around (longlong.h): the
    portable C forms of add_ssaaaa, sub_ddmmss, umul_ppmm and __udiv_qrnnd_c. */
module WordArithmetic {
  import opened Arithmetic

  const B: int := 0x1_0000_0000_0000_0000
  const H: int := 0x1_0000_0000

  type Word = x: int | 0 <= x < 0x1_0000_0000_0000_0000

  /** What an unsigned expression leaves in a word. */
  function Wrap(x: int): Word {
    x % B
  }

  lemma WrapShift(x: int, k: int)
    ensures Wrap(x + k * B) == Wrap(x)
  {
    ModAddMultiple(x, k, B);
  }

  /** Wrapping early or late makes no difference. */
  lemma WrapOnce(x: int, y: int)
    ensures Wrap(Wrap(x) + y) == Wrap(x + y)
    ensures Wrap(Wrap(x) - y) == Wrap(x - y)
  {
    DivModIdentity(x, B);
    WrapShift(Wrap(x) + y, x / B);
    WrapShift(Wrap(x) - y, x / B);
  }

  lemma WrapSmall(x: int)
    requires 0 <= x < B
    ensures Wrap(x) == x
  {
  }

  /** The value of a double word. */
  function Double(hi: int, lo: int): int {
    hi * B + lo
  }

  /** What a double-word expression leaves in two words. */
  function Wrap2(x: int): (r: int)
    ensures 0 <= r < B * B
  {
    x % (B * B)
  }

  lemma Wrap2Shift(x: int, k: int)
    ensures Wrap2(x + k * (B * B)) == Wrap2(x)
  {
    ModAddMultiple(x, k, B * B);
  }

  lemma Wrap2Small(x: int)
    requires 0 <= x < B * B
    ensures Wrap2(x) == x
  {
  }

  lemma Wrap2Once(x: int, y: int)
    ensures Wrap2(Wrap2(x) + y) == Wrap2(x + y)
  {
    DivModIdentity(x, B * B);
    Wrap2Shift(Wrap2(x) + y, x / (B * B));
  }

  /** add_ssaaaa: double-word addition modulo B^2. */
  method AddSsaaaa(ah: Word, al: Word, bh: Word, bl: Word) returns (sh: Word, sl: Word)
    ensures Double(sh, sl) == Wrap2(Double(ah, al) + Double(bh, bl))
  {
    var x := Wrap(al + bl);
    sh := Wrap(ah + bh + if x < al then 1 else 0);
    sl := x;
    ghost var c := if x < al then 1 else 0;
    assert al + bl == c * B + x;
    ghost var e := (ah + bh + c) / B;
    assert ah + bh + c == e * B + sh;
    DivModUnique(Double(ah, al) + Double(bh, bl), B * B, e, Double(sh, sl));
  }

  /** sub_ddmmss: double-word subtraction modulo B^2. */
  method SubDdmmss(ah: Word, al: Word, bh: Word, bl: Word) returns (sh: Word, sl: Word)
    ensures Double(sh, sl) == Wrap2(Double(ah, al) - Double(bh, bl))
  {
    var x := Wrap(al - bl);
    sh := Wrap(ah - bh - if al < bl then 1 else 0);
    sl := x;
    ghost var c := if al < bl then 1 else 0;
    assert al - bl == -c * B + x;
    ghost var e := (ah - bh - c) / B;
    assert ah - bh - c == e * B + sh;
    DivModUnique(Double(ah, al) - Double(bh, bl), B * B, e, Double(sh, sl));
  }

  function Low(x: Word): int {
    x % H
  }

  function High(x: Word): int {
    x / H
  }

  lemma Halves(x: Word)
    ensures 0 <= Low(x) < H && 0 <= High(x) < H && x == High(x) * H + Low(x)
  {
  }

  lemma HalfProduct(x: int, y: int)
    requires 0 <= x < H && 0 <= y < H
    ensures 0 <= x * y <= (H - 1) * (H - 1)
  {
    MulMonotone(x, 0, y);
    MulMonotone(x, y, H - 1);
    MulMonotone(H - 1, x, H - 1);
  }

  lemma ProductOfHalves(ul: int, uh: int, vl: int, vh: int)
    ensures (uh * H + ul) * (vh * H + vl) == uh * vh * B + (ul * vh + uh * vl) * H + ul * vl
  {
  }

  lemma WordProduct(u: Word, v: Word)
    ensures 0 <= u * v <= (B - 1) * (B - 1)
  {
    MulMonotone(u, 0, v);
    MulMonotone(u, v, B - 1);
    MulMonotone(B - 1, u, B - 1);
  }

  lemma AssembleProduct(p: int, x0: Word, cross: int, x1: Word, x3: int, carry: int)
    requires p == x3 * B + cross * H + x0
    requires cross + High(x0) == carry * B + x1
    ensures p == (x3 + carry * H + High(x1)) * B + Low(x1) * H + Low(x0)
  {
    hide Low, High;
    Halves(x0);
    Halves(x1);
  }

  /** A sum carries out of the word exactly when it comes out below a summand. */
  lemma CarryOut(x: Word, y: Word)
    ensures Wrap(x + y) == x + y - (if x + y < B then 0 else B)
    ensures Wrap(x + y) < y <==> B <= x + y
  {
    hide Wrap;
    if x + y < B {
      WrapSmall(x + y);
    } else {
      WrapShift(x + y - B, 1);
      WrapSmall(x + y - B);
    }
  }

  lemma ShiftedLow(x: Word, low: int)
    requires 0 <= low < H
    ensures Wrap(x * H + low) == Low(x) * H + low
  {
    hide Wrap, Low, High;
    Halves(x);
    WrapShift(Low(x) * H + low, High(x));
    WrapSmall(Low(x) * H + low);
  }

  lemma HighFits(p: int, hi: int, lo: int)
    requires 0 <= p <= (B - 1) * (B - 1) && p == hi * B + lo && 0 <= lo < B
    ensures 0 <= hi < B
  {
  }

  /** The four products of halves and how they make up the whole. */
  method HalfProducts(u: Word, v: Word) returns (x0: Word, x1: Word, x2: Word, x3: Word)
    ensures u * v == x3 * B + (x1 + x2) * H + x0
    ensures x0 <= (H - 1) * (H - 1) && x1 <= (H - 1) * (H - 1) && x2 <= (H - 1) * (H - 1) && x3 <= (H - 1) * (H - 1)
  {
    hide Low, High;
    var ul, uh := Low(u), High(u);
    var vl, vh := Low(v), High(v);
    Halves(u);
    Halves(v);
    HalfProduct(ul, vl);
    HalfProduct(ul, vh);
    HalfProduct(uh, vl);
    HalfProduct(uh, vh);
    x0, x1, x2, x3 := ul * vl, ul * vh, uh * vl, uh * vh;
    ProductOfHalves(ul, uh, vl, vh);
  }

  /** umul_ppmm: four half products, one carry, and the exact product. */
  method UmulPpmm(u: Word, v: Word) returns (w1: Word, w0: Word)
    ensures Double(w1, w0) == u * v
  {
    hide Wrap, Low, High;
    var x0, x1, x2, x3 := HalfProducts(u, v);
    ghost var p := u * v;
    WordProduct(u, v);
    ghost var cross := x1 + x2;
    Halves(x0);
    WrapSmall(x1 + High(x0));
    x1 := Wrap(x1 + High(x0));
    CarryOut(x1, x2);
    ghost var carry := if x1 + x2 < B then 0 else 1;
    x1 := Wrap(x1 + x2);
    AssembleProduct(p, x0, cross, x1, x3, carry);
    if x1 < x2 {
      WrapSmall(x3 + H);
      x3 := Wrap(x3 + H);
    }
    Halves(x1);
    HighFits(p, x3 + High(x1), Low(x1) * H + Low(x0));
    WrapSmall(x3 + High(x1));
    w1 := Wrap(x3 + High(x1));
    ShiftedLow(x1, Low(x0));
    w0 := Wrap(x1 * H + Low(x0));
  }

  // ---------------------------------------------------------------- half-limb division

  /** The trial quotient of one half-limb digit is at most two too large. */
  lemma TrialDigit(r: int, next: int, d: int, d1: int, d0: int, q: int, rest: int)
    requires H <= 2 * d1 && d1 < H && 0 <= d0 < H && d == d1 * H + d0
    requires 0 <= r < d && 0 <= next < H
    requires r == q * d1 + rest && 0 <= rest < d1
    ensures 0 <= q <= H + 1 && 0 <= q * d0 < B
    ensures 0 <= rest * H + next < d
    ensures r * H + next == q * d + (rest * H + next - q * d0)
    ensures 0 <= rest * H + next - q * d0 + 2 * d
  {
    if q < 0 { MulMonotone(d1, q, -1); assert false; }
    if H + 2 <= q { MulMonotone(d1, H + 2, q); assert false; }
    MulMonotone(d0, 0, q);
    MulMonotone(d0, q, H + 1);
    MulMonotone(H + 1, d0, H - 1);
    assert q * d == (q * d1) * H + q * d0 by {
      MulDistributes(q, d1 * H, d0);
      MulAssociates(q, d1, H);
    }
  }

  /** A corrected digit is the exact quotient. */
  lemma ExactDigit(r: int, next: int, d: int, q: int, t: int, c: int, added: int)
    requires 0 <= r < d && 0 <= next < H && r * H + next == q * d + t
    requires added == c * d && 0 <= t + added < d
    ensures 0 <= q - c < H && r * H + next == (q - c) * d + (t + added)
  {
    MulDistributes(d, q, -c);
    assert r * H + next == (q - c) * d + (t + added);
    if q - c < 0 { MulMonotone(d, q - c, -1); assert false; }
    if H <= q - c { MulMonotone(d, H, q - c); assert false; }
  }

  /** One digit of __udiv_qrnnd_c: divides r * H + next by d, with at most two
      corrections of the trial quotient. The sum with d may carry out of the word,
      and then no second correction is due. */
  method DivideDigit(r: Word, next: int, d: Word) returns (q: Word, rem: Word)
    requires B <= 2 * d && r < d && 0 <= next < H
    ensures r * H + next == q * d + rem && rem < d && q < H
  {
    hide Wrap, Low, High;
    Halves(d);
    var d1, d0 := High(d), Low(d);
    DivModIdentity(r, d1);
    ghost var q0, rest := r / d1, r % d1;
    TrialDigit(r, next, d, d1, d0, q0, rest);
    q := r / d1;
    var partial := r - q * d1;
    assert partial == rest;
    var r1: Word := partial * H + next;
    var m: Word := q * d0;
    ghost var r0, t, c, added := r1, r1 - m, 0, 0;
    WrapSmall(r0);
    WrapSmall(q0);
    if r1 < m {
      CarryOut(r0, d);
      q := Wrap(q - 1);
      r1 := Wrap(r1 + d);
      c, added := 1, d;
      if r1 >= d {
        if r1 < m {
          WrapOnce(q0 - 1, 1);
          WrapOnce(r0 + d, d);
          q := Wrap(q - 1);
          r1 := Wrap(r1 + d);
          c, added := 2, d + d;
        }
      }
    }
    WrapOnce(r0 + added, m);
    rem := Wrap(r1 - m);
    WrapSmall(t + added);
    ExactDigit(r, next, d, q0, t, c, added);
    WrapSmall(q0 - c);
  }

  /** __udiv_qrnnd_c: the exact two-by-one quotient and remainder for every
      normalized d and every n1 < d. */
  method UdivQrnndC(n1: Word, n0: Word, d: Word) returns (q: Word, r: Word)
    requires B <= 2 * d && n1 < d
    ensures Double(n1, n0) == q * d + r && r < d
  {
    hide Low, High;
    Halves(n0);
    var q1, r1 := DivideDigit(n1, High(n0), d);
    var q0, r0 := DivideDigit(r1, Low(n0), d);
    q := q1 * H + q0;
    r := r0;
    assert q * d == (q1 * d) * H + q0 * d by {
      MulDistributes(d, q1 * H, q0);
      MulAssociates(d, q1, H);
    }
  }
}
