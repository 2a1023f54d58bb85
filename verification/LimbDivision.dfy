/** Division of two or three limbs by precomputed reciprocal (gmp-impl.h) and the
    generic double-limb primitives of longlong.h, for 64-bit limbs that wrap. */
module LimbDivision {
  import opened Arith

  const B: int := 0x1_0000_0000_0000_0000
  const B2: int := 0x1_0000_0000_0000_0000_0000_0000_0000_0000
  const B3: int := 0x1_0000_0000_0000_0000_0000_0000_0000_0000_0000_0000_0000_0000
  const HALF: int := 0x1_0000_0000

  type Word = x: int | 0 <= x < B witness 0

  /** Unsigned arithmetic keeps the low limb. */
  function Low(x: int): Word {
    x % B
  }

  lemma LowIs(x: int, q: int, r: int)
    requires x == q * B + r && 0 <= r < B
    ensures Low(x) == r
  {
    DivModUnique(x, B, q, r);
  }

  lemma Pow64()
    ensures Pow(2, 64) == B && Pow(2, 128) == B2
  {
    assert Pow(2, 8) == 0x100;
    PowAdd(2, 8, 8);
    PowAdd(2, 16, 16);
    PowAdd(2, 32, 32);
    PowAdd(2, 64, 64);
  }

  // ----- the primitives

  method AddSsaaaa(ah: Word, al: Word, bh: Word, bl: Word) returns (sh: Word, sl: Word)
    ensures sh * B + sl == (ah * B + al + bh * B + bl) % B2
  {
    var x := Low(al + bl);
    sh := Low(ah + bh + (if x < al then 1 else 0));
    sl := x;
  }

  method SubDdmmss(ah: Word, al: Word, bh: Word, bl: Word) returns (sh: Word, sl: Word)
    ensures sh * B + sl == (ah * B + al - bh * B - bl) % B2
  {
    var x := Low(al - bl);
    sh := Low(ah - bh - (if al < bl then 1 else 0));
    sl := x;
  }

  lemma HalvesProduct(ul: int, uh: int, vl: int, vh: int)
    ensures (uh * HALF + ul) * (vh * HALF + vl)
      == (uh * vh) * B + (uh * vl + ul * vh) * HALF + ul * vl
  {
    MulExpand(ul, uh, vl, vh, HALF);
    assert (ul * vh + uh * vl + (uh * vh) * HALF) * HALF == (uh * vh) * B + (uh * vl + ul * vh) * HALF;
  }

  lemma HalfProductBound(u: int, v: int)
    requires 0 <= u < HALF && 0 <= v < HALF
    ensures 0 <= u * v <= (HALF - 1) * (HALF - 1)
  {
    MulMono(0, u, v);
    MulMono(u, HALF - 1, v);
    MulMono(v, HALF - 1, HALF - 1);
  }

  /** The four partial products of the generic umul_ppmm. */
  method UmulPpmm(u: Word, v: Word) returns (w1: Word, w0: Word)
    ensures w1 * B + w0 == u * v
  {
    var ul, uh, vl, vh := u % HALF, u / HALF, v % HALF, v / HALF;
    HalvesProduct(ul, uh, vl, vh);
    HalfProductBound(ul, vl);
    HalfProductBound(ul, vh);
    HalfProductBound(uh, vl);
    HalfProductBound(uh, vh);
    var x0, x1, x2, x3 := ul * vl, ul * vh, uh * vl, uh * vh;
    w1, w0 := CombineProducts(x0, x1, x2, x3);
  }

  /** A wrapped sum is smaller than an operand exactly when a carry was lost. */
  lemma CarryOut(x: Word, y: Word)
    ensures Low(x + y) == x + y - (if Low(x + y) < y then B else 0)
  {
    if x + y < B { LowIs(x + y, 0, x + y); } else { LowIs(x + y, 1, x + y - B); }
  }

  method CombineProducts(x0: Word, y1: Word, x2: Word, y3: Word) returns (w1: Word, w0: Word)
    requires x0 <= (HALF - 1) * (HALF - 1) && y1 <= (HALF - 1) * (HALF - 1)
    requires x2 <= (HALF - 1) * (HALF - 1) && y3 <= (HALF - 1) * (HALF - 1)
    ensures w1 * B + w0 == y3 * B + (x2 + y1) * HALF + x0
  {
    var x1, x3 := y1, y3;
    hide Low;
    ghost var h, l := HalvesOf(x0);
    LowIs(x1 + x0 / HALF, 0, y1 + h);
    x1 := Low(x1 + x0 / HALF);
    CarryOut(x1, x2);
    x1 := Low(x1 + x2);
    if x1 < x2 {
      LowIs(x3 + HALF, 0, x3 + HALF);
      x3 := Low(x3 + HALF);
    }
    ghost var h1, l1 := HalvesOf(x1);
    LowIs(x3 + x1 / HALF, 0, x3 + h1);
    w1 := Low(x3 + x1 / HALF);
    LowIs(x1 % HALF * HALF + x0 % HALF, 0, l1 * HALF + l);
    w0 := Low(x1 % HALF * HALF + x0 % HALF);
  }

  lemma HalvesOf(x: Word) returns (h: int, l: int)
    ensures h == x / HALF && l == x % HALF && x == h * HALF + l && 0 <= h < HALF && 0 <= l < HALF
  {
    h, l := x / HALF, x % HALF;
  }

  // ----- schoolbook division by half-words

  /** One half-word quotient digit: r becomes the remainder of n1 HALF + top. */
  method HalfDigit(n1: int, top: int, d: Word, d1: int, d0: int) returns (q: int, r: Word)
    requires B / 2 <= d && d == d1 * HALF + d0 && 0 <= d0 < HALF && HALF / 2 <= d1 < HALF
    requires 0 <= n1 < d && 0 <= top < HALF
    ensures 0 <= q < HALF && 0 <= r < d && n1 * HALF + top == q * d + r
  {
    q := n1 / d1;
    r := n1 - q * d1;
    DigitBounds(n1, d, d1, d0, q, r);
    DigitValue(n1, top, d, d1, d0, q, r);
    var m := q * d0;
    NextMultiples(q, d);
    ghost var n := n1 * HALF + top;
    q, r := CorrectDigit(q, r * HALF + top, m, d, n);
    QuotientBelow(n, d, q, r);
  }

  /** The up to two corrections of a digit that is too large. */
  method CorrectDigit(q0: int, r0: Word, m: int, d: Word, ghost n: int) returns (q: int, r: Word)
    requires B / 2 <= d && 0 <= m < B && n == q0 * d + r0 - m && r0 < d + m
    requires (q0 - 1) * d == q0 * d - d && (q0 - 2) * d == q0 * d - 2 * d
    ensures n == q * d + r && r < d
  {
    hide Low;
    q, r := q0, r0;
    LowIs(r0 + d, if r0 + d < B then 0 else 1, if r0 + d < B then r0 + d else r0 + d - B);
    if r < m {
      q, r := q - 1, Low(r + d);
      if r >= d {
        if r < m {
          LowIs(r + d, if r + d < B then 0 else 1, if r + d < B then r + d else r + d - B);
          q, r := q - 1, Low(r + d);
        }
      }
    }
    LowIs(r - m, if r < m then -1 else 0, if r < m then r - m + B else r - m);
    r := Low(r - m);
  }

  lemma DigitBounds(n1: int, d: int, d1: int, d0: int, q: int, r1: int)
    requires B / 2 <= d < B && d == d1 * HALF + d0 && 0 <= d0 < HALF && HALF / 2 <= d1 < HALF
    requires 0 <= n1 < d && q == n1 / d1 && r1 == n1 - q * d1
    ensures 0 <= r1 < d1 && 0 <= q <= HALF + 1 && 0 <= q * d0 < B
  {
    assert n1 == q * d1 + n1 % d1;
    if q < 0 { MulMono(q, -1, d1); }
    if q > HALF + 1 { MulMono(HALF + 2, q, d1); }
    MulMono(0, q, d0);
    MulMono(q, HALF + 1, d0);
  }

  lemma NextMultiples(q: int, d: int)
    ensures (q - 1) * d == q * d - d && (q - 2) * d == q * d - 2 * d
  {
  }

  lemma QuotientBelow(n: int, d: int, q: int, r: int)
    requires 0 <= n < d * HALF && n == q * d + r && 0 <= r < d
    ensures 0 <= q < HALF
  {
    if q < 0 { MulMono(q, -1, d); }
    if q >= HALF { MulMono(HALF, q, d); }
  }

  /** q d0 is subtracted after the high half has been divided. */
  lemma DigitValue(n1: int, top: int, d: int, d1: int, d0: int, q: int, r1: int)
    requires d == d1 * HALF + d0 && n1 == q * d1 + r1
    ensures n1 * HALF + top == q * d + (r1 * HALF + top) - q * d0
  {
    assert q * (d1 * HALF) == (q * d1) * HALF;
    assert q * d == q * (d1 * HALF) + q * d0;
  }

  /** __udiv_qrnnd_c, for a divisor with its top bit set. */
  method UdivQrnndC(n1: Word, n0: Word, d: Word) returns (q: Word, r: Word)
    requires B / 2 <= d && n1 < d
    ensures n1 * B + n0 == q * d + r && r < d
  {
    var d1, d0 := d / HALF, d % HALF;
    var q1, r1 := HalfDigit(n1, n0 / HALF, d, d1, d0);
    var q0, r0 := HalfDigit(r1, n0 % HALF, d, d1, d0);
    q, r := q1 * HALF + q0, r0;
    assert (q1 * d) * HALF == (q1 * HALF) * d;
    assert (q1 * HALF + q0) * d == (q1 * HALF) * d + q0 * d;
  }

  // ----- the reciprocal of a limb

  /** v is floor((B^2 - 1) / d) - B. */
  predicate IsReciprocal(v: int, d: int) {
    B2 - d <= (B + v) * d < B2
  }

  lemma ReciprocalIs(v: int, d: int)
    requires B / 2 <= d < B
    ensures IsReciprocal(v, d) <==> v == (B2 - 1) / d - B
  {
    var w := (B2 - 1) / d;
    var r := (B2 - 1) % d;
    assert B2 - 1 == w * d + r;
    if IsReciprocal(v, d) {
      DivModUnique(B2 - 1, d, B + v, B2 - 1 - (B + v) * d);
    }
  }

  /** The invert_limb macro: B^2 - 1 - d B divided by d. */
  method InvertLimb(d: Word) returns (v: Word)
    requires B / 2 <= d
    ensures IsReciprocal(v, d)
  {
    var dummy;
    v, dummy := UdivQrnndC(B - 1 - d, B - 1, d);
    assert (B + v) * d == B * d + v * d;
  }

  // ----- 2/1 division

  lemma {:induction false} CandidateIdentity(nh: int, nl: int, d: int, v: int, q: int, q0: int)
    requires q * B + q0 == nh * v + (nh + 1) * B + nl
    ensures B * (nh * B + nl - q * d)
      == nh * (B2 - (B + v) * d) + (B - d) * nl + q0 * d - B * d
  {
    var x := nh * v;
    assert (q * B) * d == (x + (nh + 1) * B + nl - q0) * d;
    assert (x + (nh + 1) * B + nl - q0) * d == x * d + ((nh + 1) * B) * d + nl * d - q0 * d;
    assert ((nh + 1) * B) * d == (nh * d) * B + B * d;
    assert x * d == nh * (v * d);
    assert nh * ((B + v) * d) == nh * (B * d) + nh * (v * d) by { assert (B + v) * d == B * d + v * d; }
    assert nh * (B * d) == B * (nh * d);
    assert (B - d) * nl == B * nl - nl * d;
    assert (q * B) * d == B * (q * d);
    assert nh * (B2 - (B + v) * d) == nh * B2 - nh * ((B + v) * d);
  }

  /** The candidate remainder lies in a window of width B, below the larger of
      B - d and q0, so its low limb and q0 decide the correction. */
  lemma CandidateWindow(nh: int, nl: int, d: int, v: int, q: int, q0: int)
    requires B / 2 <= d < B && 0 <= nh <= d && 0 <= nl < B && 0 <= q0 < B && IsReciprocal(v, d)
    requires q * B + q0 == nh * v + (nh + 1) * B + nl
    ensures var r := nh * B + nl - q * d;
      -d <= r && q0 - B < r && (r < B - d || r < q0) && (nl == 0 ==> r < 0 || (r < d && r < q0) || r == 0)
  {
    CandidateIdentity(nh, nl, d, v, q, q0);
    var r, k := nh * B + nl - q * d, B2 - (B + v) * d;
    MulMono(0, nh, k);
    MulMono(nh, d, k);
    MulMono(k, d, d);
    WindowLower(r, nh * k, nl, d, q0);
    WindowUpper(r, nh * k, nl, d, q0);
    if nl == 0 && 0 < r { ZeroLowBound(r, nh * k, d, q0); }
  }

  lemma WindowLower(r: int, kn: int, nl: int, d: int, q0: int)
    requires 0 < d < B && 0 <= nl && 0 <= q0 < B && 0 <= kn
    requires B * r == kn + (B - d) * nl + q0 * d - B * d
    ensures -d <= r && q0 - B < r
  {
    MulMono(0, nl, B - d);
    MulMono(0, q0, d);
    MulMono(d, B - 1, B - q0);
    assert (B - q0) * d == B * d - q0 * d;
  }

  lemma WindowUpper(r: int, kn: int, nl: int, d: int, q0: int)
    requires 0 < d < B && 0 <= nl < B && 0 <= q0 < B && kn <= d * d
    requires B * r == kn + (B - d) * nl + q0 * d - B * d
    ensures r < B - d || r < q0
  {
    MulMono(nl, B - 1, B - d);
    assert (B - d) * (B - d) == B * B - 2 * (B * d) + d * d;
    assert r * (B - d) + r * d == B * r;
    if B - d <= r && q0 <= r {
      MulMono(q0, r, d);
      MulMono(B - d, r, B - d);
    }
  }

  lemma ZeroLowBound(r: int, kn: int, d: int, q0: int)
    requires 0 < d < B && 0 <= q0 < B && kn <= d * d && 0 < r
    requires B * r == kn + q0 * d - B * d
    ensures r < d && r < q0
  {
    var t := d + q0 - B;
    assert d * d + q0 * d - B * d == t * d;
    if t <= 0 { MulMono(t, 0, d); } else { MulMono(d, B - 1, t); }
  }

  /** The high limb of the candidate quotient and the low limb of the remainder, as
      the macros compute them. */
  method Candidate(nh: Word, nl: Word, d: Word, di: Word, zeroLow: bool)
    returns (qh: Word, ql: Word, r: Word, ghost q: int)
    requires zeroLow ==> nl == 0
    ensures q * B + ql == nh * di + (nh + 1) * B + nl
    ensures qh == Low(q) && r == Low(nh * B + nl - q * d)
  {
    hide Low;
    qh, ql := UmulPpmm(nh, di);
    if zeroLow {
      q := qh + nh + 1;
      qh := Low(qh + nh + 1);
    } else {
      ghost var high, low := qh, ql;
      q := high + nh + 1 + (low + nl) / B;
      qh, ql := AddSsaaaa(qh, ql, Low(nh + 1), nl);
      SumLimbs(high, low, nh, nl, qh, ql);
      LowQuotient(low + nl);
    }
    var p := qh * d;
    r := if zeroLow then Low(-p) else Low(nl - p);
    HighMultiple(nh, nl);
    LowProduct(nh * B + nl, q, qh, d, nl);
  }

  lemma HighMultiple(nh: int, nl: int)
    ensures (nh * B + nl - nl) % B == 0
  {
  }

  lemma SumLimbs(high: Word, low: Word, nh: Word, nl: Word, sh: Word, sl: Word)
    requires sh * B + sl == (high * B + low + Low(nh + 1) * B + nl) % B2
    ensures sh == Low(high + nh + 1 + (low + nl) / B) && sl == Low(low + nl)
  {
    hide Low;
    var c, s, o := (low + nl) / B, (low + nl) % B, if nh == B - 1 then 1 else 0;
    LowIs(low + nl, c, s);
    LowIs(nh + 1, o, nh + 1 - o * B);
    var t := high + nh + 1 - o * B + c;
    var k, l := t / B, t % B;
    assert high * B + low + Low(nh + 1) * B + nl == k * B2 + (l * B + s);
    DivModUnique(k * B2 + (l * B + s), B2, k, l * B + s);
    LowIs(high + nh + 1 + c, k + o, l);
  }

  lemma LowProduct(n: int, q: int, qh: int, d: int, nl: int)
    requires qh == Low(q) && (n - nl) % B == 0
    ensures Low(nl - qh * d) == Low(n - q * d)
  {
    var k, j := q / B, (n - nl) / B;
    assert q == k * B + qh;
    assert q * d == (k * B) * d + qh * d;
    assert (k * B) * d == (k * d) * B;
    ModAddMul(nl - qh * d, j - k * d, B);
    assert (j - k * d) * B == n - nl - (k * d) * B;
  }

  /** udiv_qrnnd_preinv.  zeroLow tells the branch for a low limb known to be 0,
      which makes no final correction. */
  method UdivQrnndPreinv(nh: Word, nl: Word, d: Word, di: Word, zeroLow: bool) returns (q: Word, r: Word)
    requires B / 2 <= d && nh < d && IsReciprocal(di, d) && (zeroLow ==> nl == 0)
    ensures nh * B + nl == q * d + r && r < d
  {
    hide Low, IsReciprocal;
    var qh, ql, low, c := Candidate(nh, nl, d, di, zeroLow);
    CandidateWindow(nh, nl, d, di, c, ql);
    ghost var e := nh * B + nl - c * d;
    q, r := qh, low;
    WindowLow(e, d, ql);
    if r > ql {
      q, r := Low(q - 1), Low(r + d);
    }
    if !zeroLow && r >= d {
      r := r - d;
      q := Low(q + 1);
    }
    NextMultiples(c, d);
    NextMultiples(c + 1, d);
    LowNeighbours(c);
    QuotientWord(nh * B + nl, d, if r == e then c else if r == e + d then c - 1 else c + 1, q, r);
  }

  /** The low limb of a candidate remainder in the window. */
  lemma WindowLow(e: int, d: int, q0: int)
    requires B / 2 <= d < B && 0 <= q0 < B && -d <= e && q0 - B < e && (e < B - d || e < q0)
    ensures Low(e) == if e < 0 then e + B else e
    ensures Low(e) > q0 ==> Low(Low(e) + d) == e + d
  {
    if e < 0 { LowIs(e, -1, e + B); LowIs(e + B + d, 1, e + d); } else { LowIs(e, 0, e); }
  }

  lemma LowNeighbours(c: int)
    ensures Low(Low(c) - 1) == Low(c - 1) && Low(Low(c) + 1) == Low(c + 1) && Low(Low(c - 1) + 1) == Low(c)
  {
    ModMod(c, B);
    CongAdd(Low(c), c, 1, 1, B);
    ModMod(c - 1, B);
    CongAdd(Low(c - 1), c - 1, 1, 1, B);
  }

  /** A quotient known modulo B is the quotient when that fits a limb. */
  lemma QuotientWord(n: int, d: int, t: int, q: Word, r: int)
    requires 0 < d && 0 <= n < d * B && 0 <= r < d && n == t * d + r && q == Low(t)
    ensures n == q * d + r
  {
    if t < 0 { MulMono(t, -1, d); }
    if t >= B { MulMono(B, t, d); }
    SmallMod(t, B);
  }

  /** udiv_rnnd_preinv: the remainder only, also when the quotient overflows. */
  method UdivRnndPreinv(nh: Word, nl: Word, d: Word, di: Word, zeroLow: bool) returns (r: Word)
    requires B / 2 <= d && nh <= d && IsReciprocal(di, d) && (zeroLow ==> nl == 0)
    ensures r == (nh * B + nl) % d
  {
    var qh, ql, low, c := Candidate(nh, nl, d, di, zeroLow);
    CandidateWindow(nh, nl, d, di, c, ql);
    ghost var e := nh * B + nl - c * d;
    r := low;
    WindowLow(e, d, ql);
    if r > ql {
      r := Low(r + d);
    }
    if !zeroLow && r >= d {
      r := r - d;
    }
    NextMultiples(c, d);
    NextMultiples(c + 1, d);
    DivModUnique(nh * B + nl, d, if r == e then c else if r == e + d then c - 1 else c + 1, r);
  }

  // ----- 3/2 division

  /** v is floor((B^3 - 1) / dd) - B. */
  predicate IsReciprocal3(v: int, dd: int) {
    B3 - dd <= (B + v) * dd < B3
  }

  lemma Reciprocal3Is(v: int, dd: int)
    requires 0 < dd
    ensures IsReciprocal3(v, dd) <==> v == (B3 - 1) / dd - B
  {
    var w := (B3 - 1) / dd;
    var r := (B3 - 1) % dd;
    assert B3 - 1 == w * dd + r;
    if IsReciprocal3(v, dd) {
      DivModUnique(B3 - 1, dd, B + v, B3 - 1 - (B + v) * dd);
    }
  }

  lemma Identity3(n2: int, n1: int, n0: int, dd: int, v: int, q: int, q0: int)
    requires q * B + q0 == n2 * v + n2 * B + n1
    ensures B * (n2 * B2 + n1 * B + n0 - (q + 1) * dd)
      == n2 * (B3 - (B + v) * dd) + n1 * (B2 - dd) + n0 * B + q0 * dd - B * dd
  {
    var x := n2 * v;
    assert (q * B) * dd == (x + n2 * B + n1 - q0) * dd;
    assert (x + n2 * B + n1 - q0) * dd == x * dd + (n2 * B) * dd + n1 * dd - q0 * dd;
    assert (n2 * B) * dd == (n2 * dd) * B;
    assert x * dd == n2 * (v * dd);
    assert (B + v) * dd == B * dd + v * dd;
    assert n2 * (B3 - (B + v) * dd) == n2 * B3 - n2 * (B * dd) - n2 * (v * dd);
    assert n2 * (B * dd) == B * (n2 * dd);
    assert n1 * (B2 - dd) == n1 * B2 - n1 * dd;
    assert (q * B) * dd == B * (q * dd);
    assert (q + 1) * dd == q * dd + dd;
  }

  lemma Window3Lower(r: int, t: int, dd: int, q0: int)
    requires 0 < dd < B2 && 0 <= q0 < B && 0 <= t
    requires B * r == t + q0 * dd - B * dd
    ensures -dd <= r && q0 * B - B2 < r
  {
    MulMono(0, q0, dd);
    MulMono(dd, B2 - 1, B - q0);
    assert (B - q0) * dd == B * dd - q0 * dd;
  }

  /** The linear part of the upper bound: x, y, z, w stand for dd dd, n1 dd, q0 dd
      and dd n2, and re, rd for r (B^2 - dd) and r dd. */
  lemma Window3Linear(r: int, kn: int, n1: int, n0: int, dd: int, x: int, y: int, z: int, w: int, re: int, rd: int)
    requires n0 < B && kn <= w && B * w <= x - dd - y
    requires B3 * n1 - B * y - y <= (B - 1) * ((B2 - dd) * B - dd)
    requires B * r == kn + (B2 * n1 - y) + n0 * B + z - B * dd
    requires re + rd == B2 * r
    ensures !(B * z <= rd && B2 * B2 - 2 * (B2 * dd) + x <= re)
  {
  }

  lemma Window3Products(r: int, n1: int, n2: int, dd: int, q0: int)
    ensures n1 * (B2 - dd) == B2 * n1 - n1 * dd
    ensures n1 * ((B2 - dd) * B - dd) == B3 * n1 - B * (n1 * dd) - n1 * dd
    ensures (n2 * B) * dd == B * (dd * n2)
    ensures (dd - 1 - n1) * dd == dd * dd - dd - n1 * dd
    ensures (B2 - dd) * (B2 - dd) == B2 * B2 - 2 * (B2 * dd) + dd * dd
    ensures r * (B2 - dd) + r * dd == B2 * r
    ensures (q0 * B) * dd == B * (q0 * dd)
  {
  }

  lemma Window3Upper(r: int, kn: int, n2: int, n1: int, n0: int, dd: int, q0: int)
    requires 0 < dd < B2 && 0 <= n1 < B && 0 <= n0 < B && 0 <= q0 < B && dd <= (B2 - dd) * B
    requires n2 * B + n1 < dd && kn <= dd * n2
    requires B * r == kn + n1 * (B2 - dd) + n0 * B + q0 * dd - B * dd
    ensures r < B2 - dd || r < q0 * B
  {
    Window3Products(r, n1, n2, dd, q0);
    MulMono(n2 * B, dd - 1 - n1, dd);
    MulMono(n1, B - 1, (B2 - dd) * B - dd);
    Window3Linear(r, kn, n1, n0, dd, dd * dd, n1 * dd, q0 * dd, dd * n2, r * (B2 - dd), r * dd);
    if q0 * B <= r { MulMono(q0 * B, r, dd); }
    if B2 - dd <= r { MulMono(B2 - dd, r, B2 - dd); }
  }

  /** With a divisor that close to B^2 the reciprocal is 0. */
  lemma Window3Extreme(n2: int, n1: int, n0: int, dd: int, v: int, q: int, q0: int)
    requires 0 < dd < B2 && (B2 - dd) * B < dd && IsReciprocal3(v, dd)
    requires 0 <= n2 < B && 0 <= n1 < B && 0 <= n0 < B && 0 <= q0 < B
    requires q * B + q0 == n2 * v + n2 * B + n1
    ensures n2 * B2 + n1 * B + n0 - (q + 1) * dd < q0 * B
  {
    var e := B2 - dd;
    if v >= 1 { MulMono(B + 1, B + v, dd); }
    if v <= -1 { MulMono(B + v, B - 1, dd); }
    assert v == 0;
    assert q == n2 && q0 == n1;
    assert (n2 + 1) * dd == (n2 + 1) * B2 - (n2 + 1) * e;
    MulMono(n2 + 1, B, e);
  }

  /** The candidate remainder lies in a window of width B^2. */
  lemma CandidateWindow3(n2: Word, n1: Word, n0: Word, dd: int, v: int, q: int, q0: Word)
    requires B2 / 2 <= dd < B2 && n2 * B + n1 < dd && IsReciprocal3(v, dd)
    requires q * B + q0 == n2 * v + n2 * B + n1
    ensures var r := n2 * B2 + n1 * B + n0 - (q + 1) * dd;
      -dd <= r && q0 * B - B2 < r && (r < B2 - dd || r < q0 * B)
  {
    var r, k := n2 * B2 + n1 * B + n0 - (q + 1) * dd, B3 - (B + v) * dd;
    Identity3(n2, n1, n0, dd, v, q, q0);
    MulMono(0, n2, k);
    MulMono(k, dd, n2);
    MulMono(0, n1, B2 - dd);
    Window3Lower(r, n2 * k + n1 * (B2 - dd) + n0 * B, dd, q0);
    if dd <= (B2 - dd) * B {
      Window3Upper(r, n2 * k, n2, n1, n0, dd, q0);
    } else {
      Window3Extreme(n2, n1, n0, dd, v, q, q0);
    }
  }

  /** The two limbs of the candidate remainder. */
  method Remainder3(n1: Word, n0: Word, d1: Word, d0: Word, q: Word) returns (r1: Word, r0: Word)
    ensures r1 * B + r0 == (n1 * B + n0 - (q + 1) * (d1 * B + d0)) % B2
  {
    hide Low;
    var p := d1 * q;
    r1 := Low(n1 - p);
    ghost var a := r1;
    r1, r0 := SubDdmmss(r1, n0, d1, d0);
    ghost var b := r1 * B + r0;
    var t1, t0 := UmulPpmm(d0, q);
    r1, r0 := SubDdmmss(r1, r0, t1, t0);
    ghost var k := (n1 - p) / B;
    LowQuotient(n1 - p);
    ghost var x := a * B + n0 - d1 * B - d0;
    ghost var y := n1 * B + n0 - (q + 1) * (d1 * B + d0);
    assert (q + 1) * (d1 * B + d0) == p * B + d0 * q + d1 * B + d0 by {
      assert q * (d1 * B) == (d1 * q) * B;
      assert (q + 1) * (d1 * B + d0) == q * (d1 * B) + q * d0 + d1 * B + d0;
    }
    assert x == y + d0 * q - k * B2;
    ModMinus(x, d0 * q, b, y, -k);
  }

  lemma LowQuotient(x: int)
    ensures x == (x / B) * B + Low(x)
  {
  }

  lemma ModMinus(x: int, m: int, b: int, y: int, k: int)
    requires b == x % B2 && x == y + m + k * B2
    ensures (b - m) % B2 == y % B2
  {
    ModMod(x, B2);
    CongAdd(b, x, m, m, B2);
    ModAddMul(y, k, B2);
    assert x - m == y + k * B2;
  }

  /** The first conditional adjustment; e is the candidate remainder itself. */
  method AdjustDown3(q1: Word, s1: Word, s0: Word, q0: Word, d1: Word, d0: Word, ghost c: int, ghost e: int)
    returns (q: Word, r1: Word, r0: Word)
    requires B / 2 <= d1 && q1 == Low(c) && s1 * B + s0 == e % B2
    requires var dd := d1 * B + d0; -dd <= e && q0 * B - B2 < e && (e < B2 - dd || e < q0 * B)
    ensures var dd, r := d1 * B + d0, r1 * B + r0;
      (r == e + dd && q == Low(c)) || (r == e && r < q0 * B && q == Low(c + 1))
  {
    hide Low;
    r1, r0 := s1, s0;
    Window3Low(e, d1 * B + d0, q0);
    LowNeighbours(c);
    LowNeighbours(c + 1);
    q := Low(q1 + 1);
    if r1 >= q0 {
      q := Low(q - 1);
      r1, r0 := AddSsaaaa(r1, r0, d1, d0);
    } else {
      r1, r0 := AddSsaaaa(r1, r0, 0, 0);
    }
  }

  /** Both conditional adjustments. */
  method Adjust3(q1: Word, s1: Word, s0: Word, q0: Word, d1: Word, d0: Word, ghost c: int, ghost e: int)
    returns (q: Word, r1: Word, r0: Word)
    requires B / 2 <= d1 && q1 == Low(c) && s1 * B + s0 == e % B2
    requires var dd := d1 * B + d0; -dd <= e && q0 * B - B2 < e && (e < B2 - dd || e < q0 * B)
    ensures var dd, r := d1 * B + d0, r1 * B + r0;
      r < dd && ((r == e + dd && q == Low(c)) || (r == e && q == Low(c + 1)) || (r == e - dd && q == Low(c + 2)))
  {
    hide Low;
    q, r1, r0 := AdjustDown3(q1, s1, s0, q0, d1, d0, c, e);
    LowNeighbours(c);
    LowNeighbours(c + 1);
    if r1 >= d1 {
      if r1 > d1 || r0 >= d0 {
        q := Low(q + 1);
        ghost var r := r1 * B + r0;
        r1, r0 := SubDdmmss(r1, r0, d1, d0);
        SmallMod(r - (d1 * B + d0), B2);
      }
    }
  }

  /** udiv_qr_3by2: quotient and remainder of three limbs by two. */
  method UdivQr3by2(n2: Word, n1: Word, n0: Word, d1: Word, d0: Word, dinv: Word)
    returns (q: Word, r1: Word, r0: Word)
    requires B / 2 <= d1 && n2 * B + n1 < d1 * B + d0 && IsReciprocal3(dinv, d1 * B + d0)
    ensures n2 * B2 + n1 * B + n0 == q * (d1 * B + d0) + (r1 * B + r0) && r1 * B + r0 < d1 * B + d0
  {
    hide IsReciprocal3;
    var h, l := UmulPpmm(n2, dinv);
    var q0: Word;
    q, q0 := AddSsaaaa(h, l, n2, n1);
    ghost var c := Sum3(h, l, n2, n1, q, q0);
    ghost var dd, n := d1 * B + d0, n2 * B2 + n1 * B + n0;
    CandidateWindow3(n2, n1, n0, dd, dinv, c, q0);
    ghost var e := n - (c + 1) * dd;
    r1, r0 := Remainder3(n1, n0, d1, d0, q);
    Candidate3Small(n2, n1, d1, d0, dinv, c, q0);
    SmallMod(c, B);
    ModAddMul(n1 * B + n0 - (c + 1) * dd, n2, B2);
    q, r1, r0 := Adjust3(q, r1, r0, q0, d1, d0, c, e);
    NextMultiples(c + 2, dd);
    ghost var r := r1 * B + r0;
    QuotientWord(n, dd, if r == e + dd then c else if r == e then c + 1 else c + 2, q, r);
  }

  lemma Sum3(h: Word, l: Word, n2: Word, n1: Word, q: Word, q0: Word) returns (c: int)
    requires q * B + q0 == (h * B + l + n2 * B + n1) % B2
    ensures c * B + q0 == h * B + l + n2 * B + n1 && q == Low(c)
  {
    var t := h * B + l + n2 * B + n1;
    var k := t / B2;
    c := k * B + q;
    assert t == k * B2 + t % B2;
    LowIs(c, k, q);
  }

  /** The candidate quotient fits a limb. */
  lemma Candidate3Small(n2: Word, n1: Word, d1: Word, d0: Word, v: Word, c: int, q0: Word)
    requires n2 * B + n1 < d1 * B + d0 && IsReciprocal3(v, d1 * B + d0)
    requires c * B + q0 == n2 * v + n2 * B + n1
    ensures 0 <= c < B
  {
    var w := B + v;
    assert n2 * w == n2 * v + n2 * B;
    assert w * (d1 * B + d0) == (w * d1) * B + w * d0;
    MulMono(0, n2, w);
    MulMono(B, w, d0);
    if n2 < d1 { MulMono(n2 + 1, d1, w); assert (n2 + 1) * w == n2 * w + w; }
    assert d1 * w == w * d1;
  }

  lemma Window3Low(e: int, dd: int, q0: Word)
    requires B2 / 2 <= dd < B2 && -dd <= e && q0 * B - B2 < e && (e < B2 - dd || e < q0 * B)
    ensures e % B2 == if e < 0 then e + B2 else e
    ensures (e % B2) / B >= q0 ==> (e % B2 + dd) % B2 == e + dd
  {
    if e < 0 { DivModUnique(e, B2, -1, e + B2); DivModUnique(e + B2 + dd, B2, 1, e + dd); }
    else { SmallMod(e, B2); if q0 * B <= e { SmallMod(e + dd, B2); } }
  }

  // ----- the reciprocal of two limbs

  /** (B + u) d1 + d0 lies just below B^2, p telling where. */
  predicate FirstStage(u: int, p: int, d1: int, d0: int) {
    (B + u) * d1 + d0 == B2 - B + p && B - d1 <= p < B
  }

  lemma OneLess(u: int, d: int)
    ensures (B + (u - 1)) * d == (B + u) * d - d
    ensures (B + u) * d == B * d + u * d
  {
  }

  lemma FirstStageWord(u: int, p: int, d1: Word, d0: Word)
    requires 0 < d1 && FirstStage(u, p, d1, d0)
    ensures 0 <= u
  {
    if u < 0 { MulMono(B + u, B - 1, d1); MulMono(d1, B - 1, B - 1); }
  }

  /** The adjustment of the one-limb reciprocal to the second limb of the divisor. */
  method AddSecondLimb(d1: Word, d0: Word, v1: Word) returns (v: Word, p: Word)
    requires B / 2 <= d1 && IsReciprocal(v1, d1)
    ensures FirstStage(v, p, d1, d0)
  {
    hide Low;
    v := v1;
    var m := d1 * v;
    OneLess(v, d1);
    OneLess(v - 1, d1);
    assert m == v * d1;
    ghost var k := B2 - (B + v) * d1;
    LowIs(m, B - 1 - d1, B - k);
    p := Low(m);
    LowIs(p + d0, if p + d0 < B then 0 else 1, if p + d0 < B then p + d0 else p + d0 - B);
    p := Low(p + d0);
    ghost var u: int := v;
    if p < d0 {
      v, u := Low(v - 1), u - 1;
      var mask := p >= d1;
      LowIs(p - d1, if p < d1 then -1 else 0, if p < d1 then p - d1 + B else p - d1);
      p := Low(p - d1);
      if mask {
        u := u - 1;
        v := Low(v - 1);
        LowIs(p - d1, -1, p - d1 + B);
        p := Low(p - d1);
      }
    }
    FirstStageWord(u, p, d1, d0);
    LowChain(v1, u, v);
  }

  lemma LowChain(v1: Word, u: int, v: Word)
    requires 0 <= u
    requires (u == v1 && v == v1) || (u == v1 - 1 && v == Low(v1 - 1)) || (u == v1 - 2 && v == Low(Low(v1 - 1) - 1))
    ensures v == u
  {
    if u < v1 { LowIs(v1 - 1, 0, v1 - 1); }
    if u == v1 - 2 { LowIs(v1 - 2, 0, v1 - 2); }
  }

  /** The corrections after the high limb of d0 v has been added to p; s counts them. */
  method SecondCorrections(v: Word, p1: Word, d1: Word, d0: Word, t1: Word, t0: Word) returns (w: Word, ghost s: int)
    ensures s == if p1 + t1 < B then 0 else if (p1 + t1 - B) * B + t0 < d1 * B + d0 then 1 else 2
    ensures (s == 0 && w == v) || (s == 1 && w == Low(v - 1)) || (s == 2 && w == Low(Low(v - 1) - 1))
  {
    hide Low;
    LowIs(p1 + t1, if p1 + t1 < B then 0 else 1, if p1 + t1 < B then p1 + t1 else p1 + t1 - B);
    var p := Low(p1 + t1);
    w, s := v, 0;
    if p < t1 {
      w, s := Low(w - 1), 1;
      if p >= d1 {
        if p > d1 || t0 >= d0 {
          w, s := Low(w - 1), 2;
        }
      }
    }
  }

  /** invert_pi1: floor((B^3 - 1) / (d1 B + d0)) - B. */
  method InvertPi1(d1: Word, d0: Word) returns (dinv: Word)
    requires B / 2 <= d1
    ensures IsReciprocal3(dinv, d1 * B + d0) && dinv == (B3 - 1) / (d1 * B + d0) - B
  {
    hide Low, IsReciprocal, IsReciprocal3, FirstStage;
    var v := InvertLimb(d1);
    var p;
    v, p := AddSecondLimb(d1, d0, v);
    ghost var dd, s := d1 * B + d0, 0;
    var t1, t0 := UmulPpmm(d0, v);
    SecondStage(v, p, d1, d0, t1, t0);
    dinv, s := SecondCorrections(v, p, d1, d0, t1, t0);
    ReciprocalSteps(v, s, dd);
    LowChain(v, v - s, dinv);
    Reciprocal3Is(dinv, dd);
  }

  lemma SecondStage(v: Word, p: Word, d1: Word, d0: Word, t1: Word, t0: Word)
    requires FirstStage(v, p, d1, d0) && t1 * B + t0 == d0 * v
    ensures (B + v) * (d1 * B + d0) == B3 - B2 + (p + t1) * B + t0 && B - d1 <= p
    ensures t1 < d0 || t1 == 0
  {
    assert (B + v) * (d1 * B + d0) == ((B + v) * d1) * B + B * d0 + v * d0;
    assert v * d0 == d0 * v;
    if t1 >= d0 { MulMono(v, B - 1, d0); assert d0 * v == v * d0; }
  }

  lemma ReciprocalSteps(v: Word, s: int, dd: int)
    requires 0 < dd < B2 && 0 <= s <= 2 && B3 - dd <= (B + v) * dd - s * dd < B3
    ensures 0 <= v - s && IsReciprocal3(v - s, dd)
  {
    assert (B + (v - s)) * dd == (B + v) * dd - s * dd;
    if v - s < 0 { MulMono(B + (v - s), B - 1, dd); }
  }
}
