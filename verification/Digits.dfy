/** The fixed-point logarithm log(2)/log(base) of gen-bases.c, and the digit count
    bounds that gmp-impl.h derives from it. */
module Digits {
  import opened Arith
  import LimbDivision

  const EXTRA: nat := 16

  /** 2^k. */
  function TwoTo(k: nat): (n: nat)
    ensures 0 < n && n == Pow(2, k)
  {
    PowPositive(2, k);
    Pow(2, k)
  }

  lemma TwoToNext(k: nat)
    ensures TwoTo(k + 1) == 2 * TwoTo(k)
  {
  }

  /** mpz_setbit. */
  function SetBit(x: nat, k: nat): nat {
    if x / TwoTo(k) % 2 == 1 then x else x + TwoTo(k)
  }

  /** The exponent of big powers is a product. */
  lemma PowSplit(b: nat, e: nat, f: nat)
    ensures 0 <= e * f && 0 <= Pow(b, e) && Pow(Pow(b, e), f) == Pow(b, e * f)
  {
    PowPow(b, e, f);
    PowMonoBase(0, b, e);
  }

  // ----- the three quantities of the loop, all rounded down

  /** b / s is at most the 2^k-th root of base. */
  predicate RootBelow(b: nat, base: nat, s: nat, k: nat) {
    Pow(b, TwoTo(k)) <= base * Pow(s, TwoTo(k))
  }

  /** t / s is at most base^(r / n). */
  predicate PowerBelow(t: nat, base: nat, r: nat, s: nat, n: nat) {
    Pow(t, n) <= Pow(base, r) * Pow(s, n)
  }

  /** Taking the square root of b s halves the exponent. */
  lemma RootStep(b: nat, b': nat, base: nat, s: nat, k: nat)
    requires RootBelow(b, base, s, k) && b' * b' <= b * s
    ensures RootBelow(b', base, s, k + 1)
  {
    var m := TwoTo(k);
    hide Pow, TwoTo;
    TwoToNext(k);
    PowMulBase(b', b', m);
    PowAdd(b', m, m);
    PowMulBase(s, s, m);
    PowAdd(s, m, m);
    PowMonoBase(b' * b', b * s, m);
    PowMulBase(b, s, m);
    PowNonNegative(s, m);
    MulMono(Pow(b, m), base * Pow(s, m), Pow(s, m));
    MulAssoc(base, Pow(s, m), Pow(s, m));
  }

  /** The product of t and the root, rounded down, belongs to exponent r + 2^i. */
  lemma ProductStep(t: nat, b: nat, t2: nat, base: nat, r: nat, s: nat, prec: nat, i: nat)
    requires i <= prec && 0 < s && t2 * s <= t * b
    requires PowerBelow(t, base, r, s, TwoTo(prec)) && RootBelow(b, base, s, prec - i)
    ensures PowerBelow(t2, base, r + TwoTo(i), s, TwoTo(prec))
  {
    hide Pow;
    var n, m, u := TwoTo(prec), TwoTo(prec - i), TwoTo(i);
    PowAdd(2, prec - i, i);
    assert n == m * u;
    PowSplit(b, m, u);
    PowSplit(s, m, u);
    PowNonNegative(s, m);
    PowNonNegative(s, n);
    PowNonNegative(b, m);
    PowNonNegative(base, r);
    PowNonNegative(base, u);
    MulMono(0, base, Pow(s, m));
    PowMonoBase(Pow(b, m), base * Pow(s, m), u);
    PowMulBase(base, Pow(s, m), u);
    assert Pow(b, n) <= Pow(base, u) * Pow(s, n);
    ProductStepEnd(t, b, t2, base, r, u, s, n);
  }

  lemma ProductStepEnd(t: nat, b: nat, t2: nat, base: nat, r: nat, u: nat, s: nat, n: nat)
    requires 0 < s && t2 * s <= t * b && Pow(t, n) <= Pow(base, r) * Pow(s, n)
    requires Pow(b, n) <= Pow(base, u) * Pow(s, n)
    ensures Pow(t2, n) <= Pow(base, r + u) * Pow(s, n)
  {
    hide Pow;
    PowNonNegative(s, n);
    PowNonNegative(t, n);
    PowNonNegative(base, r);
    PowNonNegative(base, u);
    MulMono(0, t2, s);
    PowMonoBase(t2 * s, t * b, n);
    PowMulBase(t2, s, n);
    PowMulBase(t, b, n);
    MulMono(Pow(b, n), Pow(base, u) * Pow(s, n), Pow(t, n));
    MulMono(0, Pow(base, u), Pow(s, n));
    MulMono(Pow(t, n), Pow(base, r) * Pow(s, n), Pow(base, u) * Pow(s, n));
    MulSwap(Pow(base, r), Pow(s, n), Pow(base, u), Pow(s, n));
    PowAdd(base, r, u);
    PowPositive(s, n);
    MulAssoc(Pow(base, r + u), Pow(s, n), Pow(s, n));
    CancelFactor(Pow(t2, n), Pow(base, r + u) * Pow(s, n), Pow(s, n));
  }

  lemma CancelFactor(a: int, b: int, c: int)
    requires 0 < c && a * c <= b * c
    ensures a <= b
  {
    if b < a { MulMono(b + 1, a, c); }
  }

  /** When the product is too large, the exponent reaches 2. */
  lemma Rejected(t2: nat, base: nat, r: nat, s: nat, n: nat)
    requires 0 < s && 2 * s <= t2 && PowerBelow(t2, base, r, s, n)
    ensures Pow(2, n) <= Pow(base, r)
  {
    hide Pow;
    PowMonoBase(2 * s, t2, n);
    PowMulBase(2, s, n);
    PowPositive(s, n);
    CancelFactor(Pow(2, n), Pow(base, r), Pow(s, n));
  }

  // ----- how much is lost by rounding

  /** (b + 2) / s is at least the 2^k-th root of base. */
  predicate RootAbove(b: nat, base: nat, s: nat, k: nat) {
    s <= b && base * Pow(s, TwoTo(k)) <= Pow(b + 2, TwoTo(k))
  }

  /** t / s falls short of base^(r / n) by a factor of at most 1 + 5 m / s. */
  predicate PowerAbove(t: nat, base: nat, r: nat, s: nat, n: nat, m: nat) {
    s <= t < 2 * s && 0 <= s * s && 0 <= t * (s + 5 * m) && Pow(base, r) * Pow(s * s, n) <= Pow(t * (s + 5 * m), n)
  }

  lemma RootStepAbove(b: nat, b': nat, base: nat, s: nat, k: nat)
    requires RootAbove(b, base, s, k) && b' * b' <= b * s < (b' + 1) * (b' + 1)
    ensures RootAbove(b', base, s, k + 1)
  {
    var m := TwoTo(k);
    hide Pow, TwoTo;
    MulMono(s, b, s);
    RootAtLeast(b * s, b', s);
    NextSquare(b, b', s);
    TwoToNext(k);
    PowMulBase(b' + 2, b' + 2, m);
    PowAdd(b' + 2, m, m);
    PowMulBase(s, s, m);
    PowAdd(s, m, m);
    PowMonoBase((b + 2) * s, (b' + 2) * (b' + 2), m);
    PowMulBase(b + 2, s, m);
    PowNonNegative(s, m);
    MulMono(base * Pow(s, m), Pow(b + 2, m), Pow(s, m));
    MulAssoc(base, Pow(s, m), Pow(s, m));
  }

  lemma NextSquare(b: nat, b': nat, s: nat)
    requires b * s < (b' + 1) * (b' + 1) && s <= b'
    ensures 0 <= (b + 2) * s <= (b' + 2) * (b' + 2)
  {
    MulMono(0, b + 2, s);
    assert (b' + 2) * (b' + 2) == (b' + 1) * (b' + 1) + 2 * b' + 3;
    assert (b + 2) * s == b * s + 2 * s;
  }

  /** The rounding of one product stays within the allowance. */
  lemma AllowanceStep(t: nat, b: nat, t2: nat, s: nat, m: nat)
    requires 0 < s <= t && s <= b && 10 * (m + 1) <= s && t * b < (t2 + 1) * s
    ensures t * (s + 5 * m) * (b + 2) <= t2 * (s + 5 * (m + 1)) * s && s <= t2
  {
    var x, c := t * b, s + 5 * m;
    AllowanceOrder(t, b, s, m);
    MulMono(0, s, m);
    AllowanceLeft(t, b, s, m);
    AllowanceRight(x, t2, s, m);
    AllowanceLinear(x, x * c, t * s, t * m, s * s, s * m, s, m);
    if t2 < s { MulMono(t2 + 1, s, s); }
  }

  lemma AllowanceOrder(t: nat, b: nat, s: nat, m: nat)
    requires 0 < s <= t && s <= b && 10 * (m + 1) <= s
    ensures s * s <= t * s <= t * b
    ensures 10 * (t * m) + 10 * t <= t * s && 10 * (s * m) + 10 * s <= s * s
  {
    MulMono(s, t, s);
    MulMono(s, b, t);
    MulMono(10 * (m + 1), s, t);
    MulMono(10 * (m + 1), s, s);
    assert b * t == t * b && s * t == t * s;
    assert 10 * (m + 1) * t == 10 * (t * m) + 10 * t && 10 * (m + 1) * s == 10 * (s * m) + 10 * s;
  }

  lemma AllowanceLeft(t: int, b: int, s: int, m: int)
    ensures t * (s + 5 * m) * (b + 2) == (t * b) * (s + 5 * m) + 2 * (t * s) + 10 * (t * m)
  {
    var c := s + 5 * m;
    MulAssoc(t, c, b);
    MulAssoc(t, b, c);
    assert t * c * (b + 2) == (t * c) * b + 2 * (t * c);
    assert t * c == t * s + 5 * (t * m);
  }

  lemma AllowanceRight(x: int, t2: int, s: int, m: int)
    requires 0 < s && 0 <= m && x < (t2 + 1) * s
    ensures x * (s + 5 * m) + 5 * x - s * s - 5 * (s * m) - 4 * s + 5 * m + 5 <= t2 * (s + 5 * (m + 1)) * s
  {
    var c := s + 5 * m;
    AllowanceProducts(x, t2, s, m, c);
    MulMono(x - s + 1, t2 * s, c + 5);
  }

  lemma AllowanceProducts(x: int, t2: int, s: int, m: int, c: int)
    requires c == s + 5 * m
    ensures (t2 + 1) * s == t2 * s + s && t2 * (c + 5) * s == (t2 * s) * (c + 5)
    ensures (x - s + 1) * (c + 5) == x * c - (s * s + 5 * (s * m)) + c + 5 * (x - s + 1)
  {
    MulAssoc(t2, c + 5, s);
    MulAssoc(t2, s, c + 5);
    assert (x - s + 1) * c == x * c - s * c + c;
    assert s * c == s * s + 5 * (s * m);
  }

  lemma AllowanceLinear(x: int, xc: int, ts: int, tm: int, ss: int, sm: int, s: int, m: int)
    requires ss <= ts <= x && 0 < s && 0 <= m && 0 <= sm && 10 * tm <= ts && 10 * sm + 10 * s <= ss
    ensures xc + 2 * ts + 10 * tm <= xc + 5 * x - ss - 5 * sm - 4 * s + 5 * m + 5
  {
  }

  /** The root's bound raised to the power 2^i. */
  lemma RootAboveRaised(b: nat, base: nat, s: nat, prec: nat, i: nat)
    requires i <= prec && RootAbove(b, base, s, prec - i)
    ensures Pow(base, TwoTo(i)) * Pow(s, TwoTo(prec)) <= Pow(b + 2, TwoTo(prec))
  {
    hide Pow;
    var k, u := TwoTo(prec - i), TwoTo(i);
    PowAdd(2, prec - i, i);
    assert TwoTo(prec) == k * u;
    PowSplit(b + 2, k, u);
    PowSplit(s, k, u);
    MulMono(0, base, Pow(s, k));
    PowMonoBase(base * Pow(s, k), Pow(b + 2, k), u);
    PowMulBase(base, Pow(s, k), u);
  }

  lemma ProductStepAbove(t: nat, b: nat, t2: nat, base: nat, r: nat, s: nat, prec: nat, i: nat, m: nat)
    requires i <= prec && 0 < s && 10 * (m + 1) <= s && t * b < (t2 + 1) * s && t2 < 2 * s
    requires PowerAbove(t, base, r, s, TwoTo(prec), m) && RootAbove(b, base, s, prec - i)
    ensures PowerAbove(t2, base, r + TwoTo(i), s, TwoTo(prec), m + 1)
  {
    hide Pow;
    RootAboveRaised(b, base, s, prec, i);
    var x, z := t * (s + 5 * m), t2 * (s + 5 * (m + 1));
    AllowanceStep(t, b, t2, s, m);
    MulMono(0, t2, s + 5 * (m + 1));
    PowNonNegative(base, r);
    PowNonNegative(base, TwoTo(i));
    AboveEnd(x, b + 2, z, Pow(base, r), Pow(base, TwoTo(i)), s, TwoTo(prec));
    PowAdd(base, r, TwoTo(i));
  }

  /** Multiplying the two bounds and cancelling s^n. */
  lemma AboveEnd(x: nat, y: nat, z: nat, pr: int, pu: int, s: nat, n: nat)
    requires 0 < s && 0 <= s * s && x * y <= z * s && 0 <= pr && 0 <= pu
    requires pr * Pow(s * s, n) <= Pow(x, n) && pu * Pow(s, n) <= Pow(y, n)
    ensures (pr * pu) * Pow(s * s, n) <= Pow(z, n)
  {
    hide Pow;
    var a, c := Pow(s * s, n), Pow(s, n);
    PowNonNegative(s * s, n);
    PowPositive(s, n);
    PowNonNegative(x, n);
    MulMono(0, x, y);
    MulMono(0, z, s);
    PowMonoBase(x * y, z * s, n);
    PowMulBase(x, y, n);
    PowMulBase(z, s, n);
    MulMono(0, pu, c);
    MulMono(pr * a, Pow(x, n), pu * c);
    MulMono(pu * c, Pow(y, n), Pow(x, n));
    MulSwap(pr, a, pu, c);
    MulAssoc(pr * pu, a, c);
    CancelFactor((pr * pu) * a, Pow(z, n), c);
  }

  /** Bernoulli's inequality for (s + x)^n from above. */
  lemma {:induction false} PowerOfSum(s: nat, x: nat, n: nat)
    requires n * x <= s
    ensures Pow(s + x, n) * (s - n * x) <= Pow(s, n) * s
    decreases n
  {
    hide Pow;
    if n == 0 {
      PowerZero(s, s + x);
    } else {
      PowerOfSumBound(n, x, s);
      PowerOfSum(s, x, n - 1);
      PowNonNegative(s + x, n - 1);
      PowerNext(s + x, n - 1);
      PowerNext(s, n - 1);
      PowerOfSumStep(s, x, n, Pow(s + x, n - 1), Pow(s, n - 1));
    }
  }

  lemma PowerOfSumBound(n: nat, x: nat, s: nat)
    requires 1 <= n && n * x <= s
    ensures (n - 1) * x == n * x - x && (n - 1) * x <= s
  {
  }

  lemma PowerOfSumStep(s: nat, x: nat, n: nat, q: int, p: int)
    requires 1 <= n && n * x <= s && 0 <= q && q * (s - n * x + x) <= p * s
    ensures ((s + x) * q) * (s - n * x) <= (s * p) * s
  {
    var d := s - n * x;
    assert (s + x) * d == s * (d + x) - (n * x) * x;
    MulMono(0, n, x);
    MulMono(0, n * x, x);
    MulMono((s + x) * d, s * (d + x), q);
    MulMono(q * (d + x), p * s, s);
    MulAssoc(s + x, q, d);
    MulAssoc(s + x, d, q);
    MulAssoc(s, d + x, q);
    assert (s * p) * s == (p * s) * s;
    assert q * d == d * q && q * (d + x) == (d + x) * q;
    assert s * ((d + x) * q) == ((d + x) * q) * s;
  }

  lemma PowerZero(a: nat, b: nat)
    ensures Pow(a, 0) == 1 && Pow(b, 0) == 1
  {
  }

  lemma PowerNext(b: nat, n: nat)
    ensures Pow(b, n + 1) == b * Pow(b, n)
  {
  }

  /** With 16 extra bits the whole loss is below a factor of 2. */
  lemma LossBelowTwo(t: nat, base: nat, r: nat, prec: nat, m: nat)
    requires m <= prec <= 6553 && PowerAbove(t, base, r, TwoTo(prec + EXTRA), TwoTo(prec), m)
    ensures Pow(base, r) <= 2 * Pow(2, TwoTo(prec))
  {
    hide Pow, TwoTo;
    var s, n := TwoTo(prec + EXTRA), TwoTo(prec);
    ScaleIs(prec);
    var x := 5 * m;
    MulMono(x, 32765, n);
    assert n * x == x * n;
    PowerOfSum(s, x, n);
    PowNonNegative(s + x, n);
    HalfKept(s, n * x, Pow(s + x, n), Pow(s, n));
    LossEnd(t, s, x, n, Pow(base, r));
  }

  lemma HalfKept(s: int, d: int, q: int, p: int)
    requires 0 < s && 2 * d <= s && 0 <= q && q * (s - d) <= p * s
    ensures q <= 2 * p
  {
    MulMono(s, 2 * (s - d), q);
    assert (2 * (s - d)) * q == 2 * (q * (s - d));
    assert s * q == q * s && (2 * p) * s == 2 * (p * s);
    CancelFactor(q, 2 * p, s);
  }

  lemma ScaleIs(prec: nat)
    ensures TwoTo(prec + EXTRA) == 65536 * TwoTo(prec) && 0 < TwoTo(prec)
  {
    PowAdd(2, prec, 16);
    assert Pow(2, 8) == 256;
    PowAdd(2, 8, 8);
  }

  lemma LossEnd(t: nat, s: nat, x: nat, n: nat, pr: int)
    requires 0 < s && t < 2 * s && 0 <= s * s && 0 <= t * (s + x)
    requires pr * Pow(s * s, n) <= Pow(t * (s + x), n) && Pow(s + x, n) <= 2 * Pow(s, n)
    ensures pr <= 2 * Pow(2, n)
  {
    hide Pow;
    var c := Pow(s, n);
    PowPositive(s, n);
    PowNonNegative(2, n);
    PowNonNegative(t, n);
    PowMulBase(s, s, n);
    PowMulBase(t, s + x, n);
    PowMonoBase(t, 2 * s, n);
    PowMulBase(2, s, n);
    LossCancelled(pr, c, Pow(t, n), Pow(s + x, n), Pow(2, n));
  }

  lemma LossCancelled(pr: int, c: int, u: int, v: int, w: int)
    requires 0 < c && 0 <= u <= w * c && v <= 2 * c && pr * (c * c) <= u * v
    ensures pr <= 2 * w
  {
    MulMono(v, 2 * c, u);
    MulMono(u, w * c, 2 * c);
    MulAssoc(pr, c, c);
    MulAssoc(2 * w, c, c);
    MulSwap(w, c, 2, c);
    CancelFactor(pr * c, (2 * w) * c, c);
    CancelFactor(pr, 2 * w, c);
  }

  // ----- the first two bits for bases above 2

  /** At base 3 and above, the exponents 1/2 and 3/4 are not both acceptable. */
  lemma NotBothTopBits(base: nat, s: nat, c: nat, b1: nat, b2: nat)
    requires 3 <= base && s == 16 * c && 1 <= c
    requires (base * s) * s < (b1 + 1) * (b1 + 1) && b1 * s < (b2 + 1) * (b2 + 1)
    ensures 2 * s <= b1 * b2 / s
  {
    SquaresOf(c);
    MulMono(3, base, s);
    MulMono(3 * s, base * s, s);
    FirstRootAtLeast((base * s) * s, b1, s, c);
    MulMono(27 * c, b1, s);
    RootAtLeast(b1 * s, b2, 20 * c);
    MulMono(27 * c, b1, 20 * c);
    MulMono(20 * c, b2, b1);
    FloorAtLeast(b1 * b2, s, 2 * s);
  }

  lemma SquaresOf(c: nat)
    ensures 0 <= c * c && (27 * c) * (27 * c) == 729 * (c * c) && (20 * c) * (20 * c) == 400 * (c * c)
    ensures (27 * c) * (20 * c) == 540 * (c * c) && (16 * c) * (16 * c) == 256 * (c * c)
    ensures (27 * c) * (16 * c) == 432 * (c * c) && (2 * (16 * c)) * (16 * c) == 512 * (c * c)
    ensures (3 * (16 * c)) * (16 * c) == 768 * (c * c)
  {
    MulMono(0, c, c);
  }

  lemma FirstRootAtLeast(x: nat, b1: nat, s: nat, c: nat)
    requires x < (b1 + 1) * (b1 + 1) && 729 * (c * c) <= x
    ensures 27 * c <= b1
  {
    SquaresOf(c);
    RootAtLeast(x, b1, 27 * c);
  }

  lemma FloorAtLeast(x: int, d: int, q: int)
    requires 0 < d && q * d <= x
    ensures q <= x / d && x / d * d <= x
  {
    var k := x / d;
    assert x == k * d + x % d;
    if k < q { MulMono(k + 1, q, d); }
  }

  // ----- the loop

  /** log(2)/log(base) as a fixed-point number with prec fraction bits: adding one
      unit in the last place always reaches the logarithm, and the result exceeds it
      by no more than what a factor of 2 in the power amounts to. */
  method Mp2logb(base: nat, prec: nat) returns (r: nat)
    requires 2 <= base
    ensures r < TwoTo(prec) && Pow(2, TwoTo(prec)) <= Pow(base, r + 1)
    ensures prec <= 6553 ==> Pow(base, r) <= 2 * Pow(2, TwoTo(prec))
    ensures 3 <= base && 2 <= prec ==> r + 1 <= 3 * TwoTo(prec - 2)
  {
    hide Pow, TwoTo, RootBelow, PowerBelow, RootAbove, PowerAbove, TopBits;
    var s := TwoTo(prec + EXTRA);
    MulMono(0, base, s);
    var t: nat, two, b: nat, i := s, 2 * s, base * s, prec;
    r := 0;
    LoopStart(base, prec, s);
    LoopStartAbove(base, prec, s);
    ghost var m := 0;
    while i > 0
      invariant 0 <= i <= prec && 0 < s == TwoTo(prec + EXTRA) && two == 2 * s
      invariant RootBelow(b, base, s, prec - i) && PowerBelow(t, base, r, s, TwoTo(prec))
      invariant Pow(2, TwoTo(prec)) <= Pow(base, r + TwoTo(i))
      invariant r % TwoTo(i) == 0 && r + TwoTo(i) <= TwoTo(prec)
      invariant TopBits(base, prec, s, i, r, t, b)
      invariant RootAbove(b, base, s, prec - i) && PowerAbove(t, base, r, s, TwoTo(prec), m) && m <= prec - i
    {
      i := i - 1;
      ghost var b0, t0, r0 := b, t, r;
      MulMono(0, b, s);
      b := Root(b * s);
      MulMono(0, t, b);
      RootStep(b0, b, base, s, prec - i - 1);
      RootStepAbove(b0, b, base, s, prec - i - 1);
      FloorNonNegative(t * b, s);
      FloorBelow(t * b, s);
      var t2: nat := t * b / s;
      ProductStep(t, b, t2, base, r, s, prec, i);
      TwoToNext(i);
      ClearedBit(r, i);
      TopBitsStep(base, prec, s, i + 1, r, t, b0, b, t2);
      if t2 < two {
        ManyUnits(prec);
        ProductStepAbove(t, b, t2, base, r, s, prec, i, m);
        r := SetBit(r, i);
        t := t2;
        m := m + 1;
      } else {
        Rejected(t2, base, r + TwoTo(i), s, TwoTo(prec));
      }
    }
    TwoToZero();
    TopBitsEnd(base, prec, s, r, t, b);
    if prec <= 6553 { LossBelowTwo(t, base, r, prec, m); }
  }

  lemma TopBitsEnd(base: nat, prec: nat, s: nat, r: nat, t: nat, b: nat)
    requires TopBits(base, prec, s, 0, r, t, b)
    ensures 3 <= base && 2 <= prec ==> r + 1 <= 3 * TwoTo(prec - 2)
  {
    TwoToZero();
  }

  lemma {:induction false} ManyUnits(prec: nat)
    ensures 10 * (prec + 1) <= TwoTo(prec + EXTRA)
    decreases prec
  {
    ScaleIs(prec);
    if prec > 0 {
      ManyUnits(prec - 1);
      ScaleIs(prec - 1);
      TwoToNext(prec - 1);
    } else {
      TwoToZero();
    }
  }

  lemma LoopStartAbove(base: nat, prec: nat, s: nat)
    requires 2 <= base && s == TwoTo(prec + EXTRA)
    ensures 0 <= base * s && RootAbove(base * s, base, s, 0) && PowerAbove(s, base, 0, s, TwoTo(prec), 0)
  {
    hide TwoTo;
    TwoToZero();
    MulMono(1, base, s);
    MulMono(0, s, s);
    assert Pow(base * s + 2, 1) == (base * s + 2) * Pow(base * s + 2, 0) && Pow(s, 1) == s * Pow(s, 0);
    assert s * (s + 5 * 0) == s * s;
  }

  lemma TwoToZero()
    ensures TwoTo(0) == 1
  {
  }

  lemma FloorNonNegative(x: nat, d: nat)
    requires 0 < d
    ensures 0 <= x / d && x / d * d <= x
  {
    FloorAtLeast(x, d, 0);
  }

  lemma FloorBelow(x: nat, d: nat)
    requires 0 < d
    ensures x < (x / d + 1) * d
  {
    var k := x / d;
    assert x == k * d + x % d;
    assert (k + 1) * d == k * d + d;
  }

  lemma LoopStart(base: nat, prec: nat, s: nat)
    requires 2 <= base && s == TwoTo(prec + EXTRA)
    ensures RootBelow(base * s, base, s, 0) && PowerBelow(s, base, 0, s, TwoTo(prec))
    ensures Pow(2, TwoTo(prec)) <= Pow(base, TwoTo(prec))
    ensures 0 % TwoTo(prec) == 0 && TopBits(base, prec, s, prec, 0, s, base * s)
  {
    hide TwoTo;
    TwoToZero();
    PowMonoBase(2, base, TwoTo(prec));
    SmallMod(0, TwoTo(prec));
    assert Pow(base * s, 1) == (base * s) * Pow(base * s, 0) && Pow(s, 1) == s * Pow(s, 0);
  }

  /** With the low bits clear, setting the next one adds it. */
  lemma ClearedBit(r: nat, i: nat)
    requires r % TwoTo(i + 1) == 0 && TwoTo(i + 1) == 2 * TwoTo(i)
    ensures SetBit(r, i) == r + TwoTo(i) && r % TwoTo(i) == 0 && (r + TwoTo(i)) % TwoTo(i) == 0
  {
    hide TwoTo;
    var p := TwoTo(i);
    var k := r / (2 * p);
    assert r == k * (2 * p) == (2 * k) * p;
    DivModUnique(r, p, 2 * k, 0);
    ModAddMul(r, 1, p);
  }

  /** What is known of the first two bits at base 3 and above. */
  predicate TopBits(base: nat, prec: nat, s: nat, i: nat, r: nat, t: nat, b: nat)
    requires i <= prec
  {
    3 <= base && 2 <= prec ==>
      if i == prec then t == s && b == base * s && r == 0
      else if i == prec - 1 then
        (base * s) * s < (b + 1) * (b + 1) && ((r == 0) || (r == TwoTo(i) && t == b))
      else r + TwoTo(i) <= 3 * TwoTo(prec - 2)
  }

  lemma TopBitsStep(base: nat, prec: nat, s: nat, i: nat, r: nat, t: nat, b0: nat, b: nat, t2: nat)
    requires 1 <= i <= prec && s == TwoTo(prec + EXTRA) && TopBits(base, prec, s, i, r, t, b0)
    requires b == Root(b0 * s) && t2 == t * b / s
    ensures t2 < 2 * s ==> TopBits(base, prec, s, i - 1, r + TwoTo(i - 1), t2, b)
    ensures t2 >= 2 * s ==> TopBits(base, prec, s, i - 1, r, t, b)
  {
    if 3 <= base && 2 <= prec {
      TwoToNext(i - 1);
      if i == prec {
        assert s * b == b * s;
        DivModUnique(t * b, s, b, 0);
      } else if i == prec - 1 {
        TopBitsSecond(base, prec, s, r, t, b0, b, t2);
      }
    }
  }

  lemma TopBitsSecond(base: nat, prec: nat, s: nat, r: nat, t: nat, b0: nat, b: nat, t2: nat)
    requires 3 <= base && 2 <= prec && s == TwoTo(prec + EXTRA) && b == Root(b0 * s) && t2 == t * b / s
    requires (base * s) * s < (b0 + 1) * (b0 + 1) && (r == 0 || (r == TwoTo(prec - 1) && t == b0))
    ensures t2 < 2 * s ==> r + TwoTo(prec - 2) + TwoTo(prec - 2) <= 3 * TwoTo(prec - 2)
    ensures t2 >= 2 * s ==> r + TwoTo(prec - 2) <= 3 * TwoTo(prec - 2)
  {
    TwoToNext(prec - 2);
    if r != 0 {
      var c := TwoTo(prec + 12);
      PowAdd(2, prec + 12, 4);
      assert Pow(2, 4) == 16;
      NotBothTopBits(base, s, c, t, b);
    }
  }

  // ----- the table entry and the digit counts

  /** logb2 + 1 over 2^64 is at least log(2)/log(base). */
  predicate LogCovers(base: nat, logb2: nat) {
    Pow(2, LimbDivision.B) <= Pow(base, logb2 + 1)
  }

  /** logb2 over 2^64 exceeds log(2)/log(base) by at most what a factor of 2 amounts
      to at the limb's scale. */
  predicate LogTight(base: nat, logb2: nat) {
    Pow(base, logb2) <= 2 * Pow(2, LimbDivision.B)
  }

  /** If a^e is at least b^e, then a is at least b. */
  lemma RootMono(a: nat, b: nat, e: nat)
    requires 1 <= e && Pow(b, e) <= Pow(a, e)
    ensures b <= a
  {
    if a < b { PowStrict(a, b, e); }
  }

  lemma TwoTo64()
    ensures TwoTo(64) == LimbDivision.B && TwoTo(72) == 256 * LimbDivision.B && TwoTo(70) == 64 * LimbDivision.B
  {
    assert Pow(2, 8) == 256 && Pow(2, 6) == 64;
    PowAdd(2, 8, 8);
    PowAdd(2, 16, 16);
    PowAdd(2, 32, 32);
    PowAdd(2, 64, 8);
    PowAdd(2, 64, 6);
  }

  /** The logb2 field of table in gen-bases.c, for 64-bit limbs. */
  method Logb2(base: nat) returns (logb2: nat)
    requires 2 <= base
    ensures logb2 < LimbDivision.B && LogCovers(base, logb2) && LogTight(base, logb2)
    ensures 3 <= base ==> logb2 + 1 < LimbDivision.B
    ensures Pow(2, LimbDivision.B) <= Pow(base, logb2 + 1) && Pow(base, logb2) <= 2 * Pow(2, LimbDivision.B)
  {
    hide Pow, TwoTo;
    TwoTo64();
    var r := Mp2logb(base, 64 + 8);
    logb2 := r / 256;
    CutEight(base, r, logb2);
    CutEightTight(base, r, logb2);
  }

  lemma CutEightTight(base: nat, r: nat, l: nat)
    requires 2 <= base && l == r / 256 && Pow(base, r) <= 2 * Pow(2, 256 * LimbDivision.B)
    ensures LogTight(base, l)
  {
    hide Pow;
    var b := LimbDivision.B;
    PowMono(base, 256 * l, r);
    PowSplit(base, l, 256);
    PowSplit(2, b + 1, 256);
    PowMono(2, 256 * b + 1, 256 * (b + 1));
    PowerNext(2, 256 * b);
    PowerNext(2, b);
    PowNonNegative(2, b + 1);
    PowNonNegative(base, l);
    RootMono(Pow(2, b + 1), Pow(base, l), 256);
  }

  /** Dropping eight fraction bits, rounding down, keeps the bound. */
  lemma CutEight(base: nat, r: nat, l: nat)
    requires 2 <= base && l == r / 256 && Pow(2, 256 * LimbDivision.B) <= Pow(base, r + 1)
    ensures LogCovers(base, l)
  {
    hide Pow;
    PowMono(base, r + 1, 256 * (l + 1));
    PowSplit(base, l + 1, 256);
    PowSplit(2, LimbDivision.B, 256);
    RootMono(Pow(base, l + 1), Pow(2, LimbDivision.B), 256);
  }

  /** The number of digits both macros compute. */
  function DigitCount(logb2: int, nbits: int): int {
    (logb2 + 1) * nbits / LimbDivision.B + 1
  }

  /** The count is 1 and the whole part of (logb2 + 1) nbits / 2^64. */
  lemma DigitCountIs(logb2: nat, nbits: nat, res: int)
    ensures DigitCount(logb2, nbits) == res <==>
      (res - 1) * 0x1_0000_0000_0000_0000 <= (logb2 + 1) * nbits < res * 0x1_0000_0000_0000_0000
  {
    var x, b := (logb2 + 1) * nbits, 0x1_0000_0000_0000_0000;
    if (res - 1) * b <= x < res * b { DivModUnique(x, b, res - 1, x - (res - 1) * b); }
  }

  /** The count fits a limb except for one extreme pair of arguments. */
  lemma DigitCountFits(logb2: LimbDivision.Word, nbits: LimbDivision.Word)
    ensures 1 <= DigitCount(logb2, nbits)
    ensures DigitCount(logb2, nbits) < LimbDivision.B <==> !(logb2 == LimbDivision.B - 1 == nbits)
  {
    var x, b := (logb2 + 1) * nbits, LimbDivision.B;
    MulMono(0, logb2 + 1, nbits);
    if logb2 < b - 1 { MulMono(logb2 + 1, b - 1, nbits); MulMono(nbits, b - 1, b - 1); }
    else { assert x == b * nbits; }
  }

  /** DIGITS_IN_BASE_FROM_BITS. */
  method DigitsInBaseFromBits(logb2: LimbDivision.Word, nbits: LimbDivision.Word) returns (res: LimbDivision.Word)
    ensures res == LimbDivision.Low(DigitCount(logb2, nbits))
  {
    hide LimbDivision.Low, DigitCount;
    var ph: int, dummy := LimbDivision.UmulPpmm(logb2, nbits);
    CountFromHighLimb(logb2, nbits, ph, dummy);
    if LimbDivision.Low(dummy + nbits) < dummy {
      ph := ph + 1;
    }
    res := LimbDivision.Low(ph + 1);
  }

  lemma CountFromHighLimb(logb2: int, nbits: LimbDivision.Word, ph: LimbDivision.Word, low: LimbDivision.Word)
    requires ph * LimbDivision.B + low == logb2 * nbits
    ensures DigitCount(logb2, nbits) == ph + (if LimbDivision.Low(low + nbits) < low then 1 else 0) + 1
  {
    assert (logb2 + 1) * nbits == logb2 * nbits + nbits;
    HighLimb(ph, low, nbits, (logb2 + 1) * nbits);
  }

  lemma HighLimb(ph: LimbDivision.Word, low: LimbDivision.Word, nbits: LimbDivision.Word, x: int)
    requires x == ph * LimbDivision.B + low + nbits
    ensures x / LimbDivision.B == ph + (if LimbDivision.Low(low + nbits) < low then 1 else 0)
  {
    if low + nbits < LimbDivision.B {
      LimbDivision.LowIs(low + nbits, 0, low + nbits);
    } else {
      LimbDivision.LowIs(low + nbits, 1, low + nbits - LimbDivision.B);
    }
  }

  /** DIGITS_IN_BASEGT2_FROM_BITS: the same count when logb2 + 1 fits a limb. */
  method DigitsInBaseGT2FromBits(logb2: LimbDivision.Word, nbits: LimbDivision.Word) returns (res: LimbDivision.Word)
    requires logb2 + 1 < LimbDivision.B
    ensures res == LimbDivision.Low(DigitCount(logb2, nbits))
  {
    var one := LimbDivision.Low(logb2 + 1);
    LimbDivision.LowIs(logb2 + 1, 0, logb2 + 1);
    var ph, dummy := LimbDivision.UmulPpmm(one, nbits);
    DivModUnique((logb2 + 1) * nbits, LimbDivision.B, ph, dummy);
    res := LimbDivision.Low(ph + 1);
  }

  /** The count is never too small: numbers of nbits bits have at most res digits. */
  lemma DigitsSuffice(base: nat, logb2: LimbDivision.Word, nbits: LimbDivision.Word, x: nat)
    requires 2 <= base && LogCovers(base, logb2) && x < Pow(2, nbits)
    ensures var res := DigitCount(logb2, nbits); 0 <= res && x < Pow(base, res)
  {
    hide Pow;
    var l, b := logb2 + 1, LimbDivision.B;
    MulMono(0, l, nbits);
    MulMono(l, b, nbits);
    var res := l * nbits / b + 1;
    assert l * nbits < res * b;
    PowMono(base, l * nbits, res * b);
    PowSplit(base, l, nbits);
    PowSplit(base, res, b);
    PowSplit(2, b, nbits);
    PowSplit(2, nbits, b);
    assert b * nbits == nbits * b;
    PowMonoBase(Pow(2, b), Pow(base, l), nbits);
    RootMono(Pow(base, res), Pow(2, nbits), b);
  }

  /** The next power of the base, in terms of what the stored field guarantees. */
  lemma TightNext(base: nat, logb2: nat, x: int, y: int)
    requires 2 <= base && LogTight(base, logb2) && x == Pow(2, LimbDivision.B) && y == 2 * base
    ensures 0 <= Pow(base, logb2 + 1) <= x * y
  {
    hide Pow;
    PowerNext(base, logb2);
    PowNonNegative(base, logb2);
    TightProduct(base, Pow(base, logb2), x, y);
  }

  lemma TightProduct(base: int, p: int, x: int, y: int)
    requires 2 <= base && 0 <= p <= 2 * x && y == 2 * base
    ensures 0 <= base * p <= x * y
  {
    MulMono(p, 2 * x, base);
    MulMono(0, p, base);
    assert x * y == (2 * x) * base;
  }

  /** (2^b 2 base)^nbits is at most (2^nbits 2 base)^b for nbits up to b. */
  lemma SwappedExponents(y: nat, b: nat, nbits: nat)
    requires 2 <= y && nbits <= b
    ensures 0 <= Pow(2, nbits) && 0 <= Pow(2, b)
    ensures Pow(Pow(2, b) * y, nbits) <= Pow(Pow(2, nbits) * y, b)
  {
    hide Pow;
    var x, z := Pow(2, b), Pow(2, nbits);
    PowSplit(2, b, nbits);
    PowSplit(2, nbits, b);
    assert b * nbits == nbits * b;
    PowMulBase(x, y, nbits);
    PowMulBase(z, y, b);
    PowMono(y, nbits, b);
    PowNonNegative(z, b);
    MulMono(Pow(y, nbits), Pow(y, b), Pow(z, b));
    MulCommutes(Pow(y, nbits), Pow(z, b));
    MulCommutes(Pow(y, b), Pow(z, b));
  }

  lemma MulCommutes(a: int, b: int)
    ensures a * b == b * a
  {
  }

  /** d digits short of the count still fit into the bits. */
  lemma CountBelow(base: nat, l: nat, d: nat, b: nat, nbits: nat, x: nat)
    requires 2 <= base && d * b <= l * nbits && Pow(base, l) <= x
    ensures 0 <= Pow(base, d) && Pow(Pow(base, d), b) <= Pow(x, nbits)
  {
    hide Pow;
    MulMono(0, d, b);
    MulMono(0, l, nbits);
    PowMono(base, d * b, l * nbits);
    PowSplit(base, l, nbits);
    PowSplit(base, d, b);
    PowMonoBase(Pow(base, l), x, nbits);
  }

  lemma CancelBase(base: int, p: int, z: int)
    requires 2 <= base && base * p <= z * (2 * base)
    ensures p <= 2 * z
  {
    MulCommutes(base, p);
    assert z * (2 * base) == (2 * z) * base;
    CancelFactor(p, 2 * z, base);
  }

  /** Nor is it much too large: two digits fewer hold at most 2^(nbits + 1) values. */
  lemma DigitsNotWasteful(base: nat, logb2: LimbDivision.Word, nbits: LimbDivision.Word)
    requires 2 <= base && LogTight(base, logb2)
    ensures var res := DigitCount(logb2, nbits); 2 <= res ==> Pow(base, res - 2) <= 2 * Pow(2, nbits)
  {
    hide Pow, LogTight;
    var l, b, d := logb2 + 1, LimbDivision.B, DigitCount(logb2, nbits) - 1;
    if d >= 1 {
      var y := 2 * base;
      MulMono(0, l, nbits);
      DigitsBelow(l * nbits, b, d);
      TightNext(base, logb2, Pow(2, b), y);
      CountBelow(base, l, d, b, nbits, Pow(2, b) * y);
      SwappedExponents(y, b, nbits);
      MulMono(0, Pow(2, nbits), y);
      RootMono(Pow(2, nbits) * y, Pow(base, d), b);
      PowerNext(base, d - 1);
      CancelBase(base, Pow(base, d - 1), Pow(2, nbits));
    }
  }

  lemma DigitsBelow(n: nat, b: nat, d: nat)
    requires 1 <= b && d == n / b
    ensures d * b <= n
  {
  }
}
