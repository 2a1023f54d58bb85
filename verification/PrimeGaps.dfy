/** There is a prime between s and st as soon as st < 2^(t-1).  The argument is
    elementary: a common multiple of 1..N is at least 4^m for 2m < N, while the
    product of the prime powers up to N over the primes up to s is at most N^s. */
module PrimeGaps {
  import opened Arith
  import opened Primes
  import opened Binomials

  // ----- a common multiple of 1..n+1 is a multiple of (n+1) C(n, k)

  /** The Leibniz harmonic triangle, scaled by a common multiple. */
  function Leibniz(l: int, n: nat, k: nat): int
    requires k <= n
    decreases k
  {
    if k == 0 then l / (n + 1) else Leibniz(l, n - 1, k - 1) - Leibniz(l, n, k - 1)
  }

  lemma {:induction false} LeibnizExact(l: int, n: nat, k: nat)
    requires k <= n && forall d :: 1 <= d <= n + 1 ==> Divides(d, l)
    ensures Leibniz(l, n, k) * ((n + 1) * Binomial(n, k)) == l
    decreases k
  {
    if k == 0 {
      assert Divides(n + 1, l);
      var q := DividesQuotient(n + 1, l);
    } else {
      LeibnizExact(l, n - 1, k - 1);
      LeibnizExact(l, n, k - 1);
      BinomialAbsorb(n, k);
      BinomialRatio(n, k);
      LeibnizStep(l, n, k, Leibniz(l, n - 1, k - 1), Leibniz(l, n, k - 1),
                  Binomial(n, k), Binomial(n, k - 1), Binomial(n - 1, k - 1));
    }
  }

  lemma LeibnizStep(l: int, n: int, k: int, a: int, b: int, c: int, d: int, e: int)
    requires 1 <= k
    requires a * (n * e) == l && b * ((n + 1) * d) == l
    requires k * c == n * e && k * c == (n - k + 1) * d
    ensures (a - b) * ((n + 1) * c) == l
  {
    calc {
      (a * ((n + 1) * c)) * k;
      { MulAssoc(a, (n + 1) * c, k); MulAssoc(n + 1, c, k); }
      a * ((n + 1) * (c * k));
      { MulRotate(a, n + 1, c * k); }
      (n + 1) * l;
    }
    calc {
      (b * ((n + 1) * c)) * k;
      { MulAssoc(b, (n + 1) * c, k); MulAssoc(n + 1, c, k); }
      b * ((n + 1) * (c * k));
      b * ((n + 1) * ((n - k + 1) * d));
      { MulRotate(n + 1, n - k + 1, d); MulRotate(b, n - k + 1, (n + 1) * d); }
      (n - k + 1) * l;
    }
    assert ((a - b) * ((n + 1) * c)) * k == l * k by {
      assert (a - b) * ((n + 1) * c) == a * ((n + 1) * c) - b * ((n + 1) * c);
    }
    MulCancel((a - b) * ((n + 1) * c), l, k);
  }

  lemma GrowthStep(m: nat, b: nat, c: nat, x: int)
    requires 1 <= m && m * c == (2 * m - 1) * b && x <= (2 * m - 1) * b
    ensures 4 * x <= (2 * m + 1) * (2 * c)
  {
    assert (2 * m + 1) * (2 * c) == 4 * (m * c) + 2 * c;
  }

  lemma {:induction false} CentralGrowth(m: nat)
    ensures Pow(4, m) <= (2 * m + 1) * Binomial(2 * m, m)
    decreases m
  {
    if m > 0 {
      CentralGrowth(m - 1);
      CentralDouble(m - 1);
      CentralOdd(m - 1);
      hide Binomial;
      var b, c := Binomial(2 * m - 2, m - 1), Binomial(2 * m - 1, m - 1);
      GrowthStep(m, b, c, Pow(4, m - 1));
    } else {
      assert Binomial(0, 0) == 1;
    }
  }

  lemma CommonMultipleLarge(l: int, n: nat, m: nat)
    requires 1 <= l && 2 * m + 1 <= n && forall d :: 1 <= d <= n ==> Divides(d, l)
    ensures Pow(4, m) <= l
  {
    LeibnizExact(l, 2 * m, m);
    CentralGrowth(m);
    var x, y := Leibniz(l, 2 * m, m), (2 * m + 1) * Binomial(2 * m, m);
    PowPositive(4, m);
    if x <= 0 { MulMono(x, 0, y); }
    MulMono(1, x, y);
  }

  // ----- the product of the largest prime powers

  /** The largest power of p up to n. */
  function TopPower(p: nat, n: nat): (r: nat)
    requires 2 <= p && 1 <= n
    ensures 1 <= r <= n
  {
    if n < p then 1
    else
      QuotientSmaller(p, n);
      var r := TopPower(p, n / p);
      TopStep(p, n, r);
      p * r
  }

  lemma QuotientSmaller(p: nat, n: nat)
    requires 2 <= p <= n
    ensures 1 <= n / p < n && (n / p) * p <= n
  {
    var k, r := n / p, n % p;
    assert n == k * p + r;
    if k <= 0 { MulMono(k, 0, p); }
    MulMono(2, p, k);
  }

  lemma TopStep(p: nat, n: nat, r: nat)
    requires 2 <= p <= n && 1 <= r <= n / p
    ensures 1 <= p * r <= n
  {
    QuotientSmaller(p, n);
    MulMono(r, n / p, p);
    MulPositive(p, r);
  }

  lemma TopPowerIs(p: nat, n: nat)
    requires 2 <= p <= n
    ensures 1 <= n / p && TopPower(p, n) == p * TopPower(p, n / p)
  {
    QuotientSmaller(p, n);
  }

  lemma DividesTimes(p: nat, x: nat, y: nat)
    requires 1 <= p && 1 <= x && Divides(x, y)
    ensures 0 < p * x && Divides(p * x, p * y)
  {
    MulPositive(p, x);
    var q := DividesQuotient(x, y);
    MulRotate(p, q, x);
    DividesFrom(p * x, q, p * y);
  }

  lemma {:induction false} PowerDividesTop(p: nat, j: nat, n: nat)
    requires 2 <= p && 1 <= n && Pow(p, j) <= n
    ensures 0 < Pow(p, j) && Divides(Pow(p, j), TopPower(p, n))
    decreases j
  {
    hide Divides, Pow, TopPower;
    PowPositive(p, j);
    if j > 0 {
      PowStep(p, j);
      PowPositive(p, j - 1);
      var x := Pow(p, j - 1);
      MulMono(1, x, p);
      QuotientBound(x, p, n);
      PowerDividesTop(p, j - 1, n / p);
      TopPowerIs(p, n);
      DividesTimes(p, x, TopPower(p, n / p));
    } else {
      PowZero(p);
      DividesFrom(1, TopPower(p, n), TopPower(p, n));
    }
  }

  lemma QuotientBound(a: nat, p: nat, n: nat)
    requires 1 <= p && p * a <= n
    ensures a <= n / p
  {
    if n / p < a { MulMono(n / p + 1, a, p); }
  }

  /** The product of the largest powers up to n of the primes up to s. */
  function PowerProduct(n: nat, s: nat): (r: nat)
    requires 1 <= n
    ensures 1 <= r
  {
    if s < 2 then 1
    else if IsPrime(s) then
      MulPositive(TopPower(s, n), PowerProduct(n, s - 1));
      TopPower(s, n) * PowerProduct(n, s - 1)
    else PowerProduct(n, s - 1)
  }

  lemma {:induction false} PowerProductBound(n: nat, s: nat)
    requires 1 <= n
    ensures PowerProduct(n, s) <= Pow(n, s)
    decreases s
  {
    PowPositive(n, s);
    if s >= 2 {
      PowerProductBound(n, s - 1);
      PowPositive(n, s - 1);
      ProductBound(if IsPrime(s) then TopPower(s, n) else 1, n, PowerProduct(n, s - 1), Pow(n, s - 1));
    }
  }

  lemma ProductBound(a: nat, b: nat, c: nat, d: nat)
    requires a <= b && c <= d
    ensures a * c <= b * d
  {
    MulMono(a, b, c);
    MulMono(c, d, b);
  }

  lemma {:induction false} SplitPower(p: nat, k: nat) returns (j: nat, k': nat)
    requires 2 <= p && 1 <= k
    ensures k == Pow(p, j) * k' && 1 <= k' <= k && !Divides(p, k') && 1 <= Pow(p, j) <= k
    ensures forall d :: 2 <= d && Divides(d, k') ==> Divides(d, k)
    decreases k
  {
    hide Divides, Pow;
    if Divides(p, k) {
      var h := DividesQuotient(p, k);
      MulMono(2, p, h);
      j, k' := SplitPower(p, h);
      SplitMore(p, j, k', h);
      j := j + 1;
    } else {
      j, k' := 0, k;
      PowZero(p);
    }
    PowPositive(p, j);
    MulPositive(Pow(p, j), k');
    forall d | 2 <= d && Divides(d, k') ensures Divides(d, k) {
      DividesProduct(d, k', Pow(p, j));
    }
  }

  lemma SplitMore(p: nat, j: nat, k': nat, h: nat)
    requires h == Pow(p, j) * k'
    ensures h * p == Pow(p, j + 1) * k'
  {
    MulAssoc(p, Pow(p, j), k');
    assert Pow(p, j + 1) == p * Pow(p, j);
  }

  /** Every number up to n with prime factors up to s divides the product. */
  lemma {:induction false} SmoothDivides(k: nat, n: nat, s: nat)
    requires 1 <= k <= n
    requires forall p :: IsPrime(p) && Divides(p, k) ==> p <= s
    ensures Divides(k, PowerProduct(n, s))
    decreases s
  {
    hide Divides;
    if s < 2 {
      if k > 1 { LeastPrimeFactorIsPrime(k); }
      DividesFrom(1, PowerProduct(n, s), PowerProduct(n, s));
    } else if IsPrime(s) {
      var j, k' := SplitPower(s, k);
      forall p | IsPrime(p) && Divides(p, k')
        ensures p <= s - 1
      {
        PrimeAtLeast2(p);
      }
      SmoothDivides(k', n, s - 1);
      PowerDividesTop(s, j, n);
      ProductDivides(Pow(s, j), TopPower(s, n), k', PowerProduct(n, s - 1));
    } else {
      SmoothDivides(k, n, s - 1);
    }
  }

  lemma ProductDivides(a: nat, b: nat, c: nat, d: nat)
    requires 0 < a && 0 < c && Divides(a, b) && Divides(c, d)
    ensures 0 < a * c && Divides(a * c, b * d)
  {
    hide Divides;
    MulPositive(a, c);
    var i := DividesQuotient(a, b);
    var j := DividesQuotient(c, d);
    MulSwap(i, a, j, c);
    DividesFrom(a * c, i * j, b * d);
  }

  // ----- primes between s and st

  lemma PrimeBetween(s: nat, t: nat) returns (p: nat)
    requires 2 <= s && 2 <= t && s * t < Pow(2, t - 1)
    ensures IsPrime(p) && s < p <= s * t
  {
    var n := s * t;
    MulMono(2, s, t);
    if p' :| s < p' <= n && IsPrime(p') {
      p := p';
    } else {
      NoPrimeBetween(s, t);
    }
  }

  lemma NoPrimeBetween(s: nat, t: nat)
    requires 2 <= s && 2 <= t && s * t < Pow(2, t - 1) && 4 <= s * t
    ensures exists p :: s < p <= s * t && IsPrime(p)
  {
    var n := s * t;
    var m := (n - 1) / 2;
    if !exists p :: s < p <= n && IsPrime(p) {
      AllDivide(n, s);
      CommonMultipleLarge(PowerProduct(n, s), n, m);
      PowerProductBound(n, s);
      PowersCompare(s, t, n, m);
    }
  }

  lemma AllDivide(n: nat, s: nat)
    requires 1 <= n && !exists p :: s < p <= n && IsPrime(p)
    ensures forall k :: 1 <= k <= n ==> Divides(k, PowerProduct(n, s))
  {
    forall k | 1 <= k <= n
      ensures Divides(k, PowerProduct(n, s))
    {
      forall p | IsPrime(p) && Divides(p, k)
        ensures p <= s
      {
        var q := DividesQuotient(p, k);
      }
      SmoothDivides(k, n, s);
    }
  }

  lemma PowersCompare(s: nat, t: nat, n: nat, m: nat)
    requires 2 <= s && 2 <= t && n == s * t && n < Pow(2, t - 1) && n <= 2 * m + 2
    ensures Pow(n, s) < Pow(4, m)
  {
    PowStrict(n, Pow(2, t - 1), s);
    PowPow(2, t - 1, s);
    assert (t - 1) * s == n - s;
    PowMono(2, n - s, 2 * m);
    PowPow(2, 2, m);
    assert Pow(2, 2) == 4 by { assert Pow(2, 1) == 2 * Pow(2, 0); }
  }
}
