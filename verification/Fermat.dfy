/** Fermat's little theorem, Lucas's converse of it, and the fact that the only
    square roots of 1 modulo a prime are 1 and -1. */
module Fermat {
  import opened Arith
  import opened Primes
  import opened Products

  // ----- injective sequences over 1..m

  ghost predicate InjectiveInto(s: seq<int>, m: int) {
    && (forall i :: 0 <= i < |s| ==> 1 <= s[i] <= m)
    && (forall i, j :: 0 <= i < j < |s| ==> s[i] != s[j])
  }

  lemma WithoutInjective(s: seq<int>, i: nat, m: int)
    requires i < |s| && InjectiveInto(s, m) && s[i] == m
    ensures InjectiveInto(Without(s, i), m - 1)
  {
    var t := Without(s, i);
    forall k | 0 <= k < |t|
      ensures 1 <= t[k] <= m - 1
    {
      assert t[k] == s[if k < i then k else k + 1];
    }
    forall j, k | 0 <= j < k < |t|
      ensures t[j] != t[k]
    {
      assert t[j] == s[if j < i then j else j + 1];
      assert t[k] == s[if k < i then k else k + 1];
    }
  }

  /** Pigeonhole: an injective sequence over 1..m has at most m elements. */
  lemma {:induction false} InjectiveBound(s: seq<int>, m: int)
    requires 0 <= m && InjectiveInto(s, m)
    ensures |s| <= m
    decreases m
  {
    if |s| > 0 {
      var first := s[0];
      if i :| 0 <= i < |s| && s[i] == m {
        WithoutInjective(s, i, m);
        InjectiveBound(Without(s, i), m - 1);
      } else {
        InjectiveBound(s, m - 1);
      }
    }
  }

  lemma {:induction false} InjectiveCovers(s: seq<int>, m: int, v: int)
    requires |s| == m && InjectiveInto(s, m) && 1 <= v <= m
    ensures v in s
    decreases m
  {
    if m !in s {
      InjectiveBound(s, m - 1);
    } else if v != m {
      var i :| 0 <= i < |s| && s[i] == m;
      WithoutInjective(s, i, m);
      InjectiveCovers(Without(s, i), m - 1, v);
    }
  }

  /** An injective sequence of length m over 1..m has product m!. */
  lemma {:induction false} PermutationProduct(s: seq<int>, m: nat)
    requires |s| == m && InjectiveInto(s, m)
    ensures Product(s) == Factorial(m)
    decreases m
  {
    if m > 0 {
      InjectiveCovers(s, m, m);
      var i :| 0 <= i < |s| && s[i] == m;
      WithoutInjective(s, i, m);
      ProductWithout(s, i);
      PermutationProduct(Without(s, i), m - 1);
    }
  }

  // ----- Fermat's little theorem

  function Multiples(a: int, k: nat, p: int): (s: seq<int>)
    requires 0 < p
    ensures |s| == k && forall i :: 0 <= i < k ==> s[i] == (a * (i + 1)) % p
  {
    if k == 0 then [] else Multiples(a, k - 1, p) + [(a * k) % p]
  }

  lemma {:induction false} MultiplesProduct(a: int, k: nat, p: int)
    requires 0 < p
    ensures Product(Multiples(a, k, p)) % p == (Pow(a, k) * Factorial(k)) % p
    decreases k
  {
    if k > 0 {
      var s, x := Multiples(a, k - 1, p), (a * k) % p;
      ProductAppend(s, [x]);
      ProductSingle(x);
      MultiplesProduct(a, k - 1, p);
      ModMod(a * k, p);
      CongMul(Product(s), Pow(a, k - 1) * Factorial(k - 1), x, a * k, p);
      MulSwap(Pow(a, k - 1), Factorial(k - 1), a, k);
    }
  }

  lemma MultiplesInjective(a: nat, p: int)
    requires IsPrime(p) && !Divides(p, a)
    ensures InjectiveInto(Multiples(a, p - 1, p), p - 1)
  {
    var s := Multiples(a, p - 1, p);
    forall i | 0 <= i < |s|
      ensures 1 <= s[i] <= p - 1
    {
      if Divides(p, a * (i + 1)) {
        EuclidsLemma(p, a, i + 1);
        var k := DividesQuotient(p, i + 1);
      }
    }
    forall i, j | 0 <= i < j < |s|
      ensures s[i] != s[j]
    {
      if s[i] == s[j] {
        PrimeCoprime(p, a);
        CoprimeCancel(a, i + 1, j + 1, p);
        SmallMod(i + 1, p);
        SmallMod(j + 1, p);
      }
    }
  }

  lemma {:induction false} FactorialCoprime(k: nat, p: int)
    requires IsPrime(p) && k < p
    ensures Coprime(Factorial(k), p)
    decreases k
  {
    if k == 0 {
      CoprimeFromBezout(1, p, 1, 0);
    } else {
      FactorialCoprime(k - 1, p);
      if Divides(p, k) { var j := DividesQuotient(p, k); }
      PrimeCoprime(p, k);
      CoprimeProduct(k, Factorial(k - 1), p);
    }
  }

  lemma LittleFermat(a: nat, p: int)
    requires IsPrime(p) && !Divides(p, a)
    ensures Pow(a, p - 1) % p == 1
  {
    var f, x := Factorial(p - 1), Pow(a, p - 1);
    MultiplesInjective(a, p);
    PermutationProduct(Multiples(a, p - 1, p), p - 1);
    MultiplesProduct(a, p - 1, p);
    FactorialCoprime(p - 1, p);
    CoprimeSymmetric(f, p);
    assert (f * x) % p == (f * 1) % p by { assert x * f == f * x; }
    CoprimeCancel(f, x, 1, p);
    SmallMod(1, p);
  }

  /** Modulo a prime, 1 has no square roots besides 1 and -1. */
  lemma SquareRootsOfOne(y: nat, p: int)
    requires IsPrime(p) && y < p && (y * y) % p == 1
    ensures y == 1 || y == p - 1
  {
    SmallMod(1, p);
    CongIffDivides(y * y, 1, p);
    if y == 0 {
      DividesFrom(p, 0, 0);
      DividesSum(p, 0, -1);
      DividesNeg(p, 1);
      var k := DividesQuotient(p, 1);
    } else {
      assert y * y - 1 == (y + 1) * (y - 1);
      EuclidsLemma(p, y + 1, y - 1);
      if Divides(p, y + 1) {
        var k := DividesQuotient(p, y + 1);
        if k >= 2 { MulMono(2, k, p); }
      } else if y != 1 {
        var k := DividesQuotient(p, y - 1);
      }
    }
  }

  // ----- orders and Lucas's primality criterion

  /** The least exponent from d upwards that sends a to 1 modulo n. */
  function OrderFrom(d: nat, a: nat, n: nat, e: nat): (r: nat)
    requires 2 <= n && 1 <= d <= e && Pow(a, e) % n == 1
    ensures d <= r <= e && Pow(a, r) % n == 1
    ensures forall i :: d <= i < r ==> Pow(a, i) % n != 1
    decreases e - d
  {
    if d == e || Pow(a, d) % n == 1 then d else OrderFrom(d + 1, a, n, e)
  }

  lemma PowSplit(a: nat, d: nat, k: nat, r: nat, n: nat)
    requires 2 <= n && Pow(a, d) % n == 1
    ensures 0 <= d * k && Pow(a, d * k + r) % n == Pow(a, r) % n
  {
    PowPow(a, d, k);
    PowAdd(a, d * k, r);
    SmallMod(1, n);
    PowCong(Pow(a, d), 1, k, n);
    PowOne(k);
    CongMul(Pow(a, d * k), 1, Pow(a, r), Pow(a, r), n);
  }

  /** Lucas: when a has order exactly n - 1 modulo n, its powers are n - 1
      distinct units, so every smaller positive number is a unit. */
  lemma LucasPrimality(a: nat, n: nat)
    requires 2 <= n && Pow(a, n - 1) % n == 1
    requires forall q :: IsPrime(q) && Divides(q, n - 1) ==> Pow(a, (n - 1) / q) % n != 1
    ensures IsPrime(n)
  {
    var d := OrderFrom(1, a, n, n - 1);
    OrderIsWhole(a, n, d);
    var s := Powers(a, n - 1, n);
    PowersInjective(a, n);
    forall v | 2 <= v < n
      ensures !Divides(v, n)
    {
      InjectiveCovers(s, n - 1, v);
      var i :| 0 <= i < |s| && s[i] == v;
      PowerIsUnit(a, i + 1, n);
      CoprimeMod(Pow(a, i + 1), n);
      if Divides(v, n) {
        DividesFrom(v, 1, v);
        CoprimeNotDivides(v, v, n);
      }
    }
  }

  lemma OrderIsWhole(a: nat, n: nat, d: nat)
    requires 2 <= n && Pow(a, n - 1) % n == 1
    requires d == OrderFrom(1, a, n, n - 1)
    requires forall q :: IsPrime(q) && Divides(q, n - 1) ==> Pow(a, (n - 1) / q) % n != 1
    ensures d == n - 1
  {
    hide Pow, IsPrime, Divides;
    var k, r := (n - 1) / d, (n - 1) % d;
    assert n - 1 == d * k + r;
    if k <= 0 { MulMono(k, 0, d); }
    PowSplit(a, d, k, r, n);
    assert r == 0;
    if k > 1 {
      OrderCofactor(a, n, d, k);
    }
  }

  lemma OrderCofactor(a: nat, n: nat, d: nat, k: nat)
    requires 2 <= n && 2 <= k && n - 1 == d * k && Pow(a, d) % n == 1
    ensures exists q :: IsPrime(q) && Divides(q, n - 1) && Pow(a, (n - 1) / q) % n == 1
  {
    var q := LeastPrimeFactor(k);
    LeastPrimeFactorIsPrime(k);
    var j := DividesQuotient(q, k);
    assert n - 1 == (d * j) * q by { assert d * (j * q) == (d * j) * q; }
    DivModUnique(n - 1, q, d * j, 0);
    PowSplit(a, d, j, 0, n);
    SmallMod(1, n);
    assert Divides(q, n - 1) && Pow(a, (n - 1) / q) % n == 1;
  }

  function Powers(a: nat, k: nat, n: nat): (s: seq<int>)
    requires 2 <= n
    ensures |s| == k && forall i :: 0 <= i < k ==> s[i] == Pow(a, i + 1) % n
  {
    if k == 0 then [] else Powers(a, k - 1, n) + [Pow(a, k) % n]
  }

  lemma PowerIsUnit(a: nat, i: nat, n: nat)
    requires 2 <= n && Pow(a, n - 1) % n == 1
    ensures 0 <= Pow(a, i) && Coprime(Pow(a, i), n) && Coprime(n, Pow(a, i))
  {
    var x := Pow(a, n - 2);
    var k := Pow(a, n - 1) / n;
    assert a * x + n * (-k) == 1 by {
      assert Pow(a, n - 1) == n * k + 1;
      assert n * (-k) == -(n * k);
    }
    CoprimeFromBezout(a, n, x, -k);
    CoprimePow(a, i, n);
    CoprimeSymmetric(Pow(a, i), n);
  }

  lemma PowersInjective(a: nat, n: nat)
    requires 2 <= n && Pow(a, n - 1) % n == 1
    requires n - 1 == OrderFrom(1, a, n, n - 1)
    ensures InjectiveInto(Powers(a, n - 1, n), n - 1)
  {
    var s := Powers(a, n - 1, n);
    forall i | 0 <= i < |s|
      ensures 1 <= s[i] <= n - 1
    {
      PowerIsUnit(a, i + 1, n);
      if s[i] == 0 {
        CoprimeNotDivides(n, Pow(a, i + 1), n);
        DividesFrom(n, 1, n);
      }
    }
    forall i, j | 0 <= i < j < |s|
      ensures s[i] != s[j]
    {
      if s[i] == s[j] {
        var x := Pow(a, i + 1);
        PowAdd(a, i + 1, j - i);
        PowerIsUnit(a, i + 1, n);
        CoprimeCancel(x, 1, Pow(a, j - i), n);
        SmallMod(1, n);
      }
    }
  }
}
