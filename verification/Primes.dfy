/** Divisibility, greatest common divisors and primes. */
module Primes {
  import opened Arith

  predicate Divides(d: int, n: int)
    requires 0 < d
  {
    n % d == 0
  }

  predicate IsPrime(n: int) {
    2 <= n && forall d :: 2 <= d < n ==> !Divides(d, n)
  }

  lemma DividesFrom(d: int, k: int, n: int)
    requires 0 < d && n == k * d
    ensures Divides(d, n)
  {
    DivModUnique(n, d, k, 0);
  }

  lemma DividesQuotient(d: int, n: int) returns (k: int)
    requires 0 < d && Divides(d, n)
    ensures n == k * d && k == n / d
    ensures 0 < n ==> 1 <= k <= n && d <= n
  {
    k := n / d;
    assert n == k * d;
    if 0 < n {
      if k <= 0 { MulMono(k, 0, d); }
      MulPositive(k, d);
    }
  }

  lemma DividesSum(d: int, a: int, b: int)
    requires 0 < d && Divides(d, a)
    ensures Divides(d, a + b) <==> Divides(d, b)
    ensures Divides(d, a - b) <==> Divides(d, b)
  {
    var k := DividesQuotient(d, a);
    ModAddMul(b, k, d);
    ModAddMul(-b, k, d);
    DividesNeg(d, b);
  }

  lemma DividesNeg(d: int, n: int)
    requires 0 < d
    ensures Divides(d, -n) <==> Divides(d, n)
  {
    if Divides(d, n) {
      DividesFrom(d, -(n / d), -n);
    }
    if Divides(d, -n) {
      DividesFrom(d, -(-n / d), n);
    }
  }

  lemma DividesProduct(d: int, a: int, b: int)
    requires 0 < d && Divides(d, a)
    ensures Divides(d, a * b) && Divides(d, b * a)
  {
    var k := DividesQuotient(d, a);
    assert a * b == (k * b) * d;
    DividesFrom(d, k * b, a * b);
  }

  lemma DividesTrans(c: int, d: int, n: int)
    requires 0 < c && 0 < d && Divides(c, d) && Divides(d, n)
    ensures Divides(c, n)
  {
    var k := DividesQuotient(d, n);
    DividesProduct(c, d, k);
  }

  lemma CongIffDivides(a: int, b: int, m: int)
    requires 0 < m
    ensures a % m == b % m <==> Divides(m, a - b)
  {
    if a % m == b % m {
      var k := CongWitness(a, b, m);
      DividesFrom(m, k, a - b);
    }
    if Divides(m, a - b) {
      var k := DividesQuotient(m, a - b);
      ModAddMul(b, k, m);
    }
  }

  // ----- greatest common divisors

  function Gcd(a: nat, b: nat): nat
    decreases b
  {
    if b == 0 then a else Gcd(b, a % b)
  }

  lemma {:induction false} GcdDivides(a: nat, b: nat)
    requires 0 < a || 0 < b
    ensures 0 < Gcd(a, b) && Divides(Gcd(a, b), a) && Divides(Gcd(a, b), b)
    decreases b
  {
    if b == 0 {
      DividesFrom(a, 1, a);
      DividesFrom(a, 0, 0);
    } else {
      GcdDivides(b, a % b);
      var g := Gcd(a, b);
      DividesProduct(g, b, a / b);
      assert a == b * (a / b) + a % b;
      DividesSum(g, b * (a / b), a % b);
    }
  }

  /** Extended Euclid: the coefficients of Bezout's identity. */
  function BezoutPair(a: nat, b: nat): (c: (int, int))
    ensures a * c.0 + b * c.1 == Gcd(a, b)
    decreases b
  {
    if b == 0 then (1, 0)
    else
      var (u, v) := BezoutPair(b, a % b);
      BezoutStep(a, b, u, v);
      (v, u - (a / b) * v)
  }

  lemma BezoutStep(a: int, b: int, u: int, v: int)
    requires b != 0
    ensures a * v + b * (u - (a / b) * v) == b * u + (a % b) * v
  {
    assert b * ((a / b) * v) == (b * (a / b)) * v;
    assert a * v == (b * (a / b)) * v + (a % b) * v;
  }

  lemma Bezout(a: nat, b: nat) returns (x: int, y: int)
    ensures a * x + b * y == Gcd(a, b)
  {
    var c := BezoutPair(a, b);
    x, y := c.0, c.1;
  }

  /** Every common divisor divides the greatest one. */
  lemma GcdGreatest(d: int, a: nat, b: nat)
    requires 0 < d && Divides(d, a) && Divides(d, b)
    ensures Divides(d, Gcd(a, b))
  {
    var x, y := Bezout(a, b);
    DividesProduct(d, a, x);
    DividesProduct(d, b, y);
    DividesSum(d, a * x, b * y);
  }

  predicate Coprime(a: nat, b: nat) {
    Gcd(a, b) == 1
  }

  lemma CoprimeFromBezout(a: nat, b: nat, x: int, y: int)
    requires a * x + b * y == 1
    ensures Coprime(a, b)
  {
    GcdDivides(a, b);
    var g := Gcd(a, b);
    DividesProduct(g, a, x);
    DividesProduct(g, b, y);
    DividesSum(g, a * x, b * y);
    var k := DividesQuotient(g, 1);
  }

  lemma CoprimeSymmetric(a: nat, b: nat)
    requires Coprime(a, b)
    ensures Coprime(b, a)
  {
    var x, y := Bezout(a, b);
    CoprimeFromBezout(b, a, y, x);
  }

  lemma CoprimeProduct(a: nat, b: nat, m: nat)
    requires Coprime(a, m) && Coprime(b, m)
    ensures Coprime(a * b, m)
  {
    var x, y := Bezout(a, m);
    var u, v := Bezout(b, m);
    calc {
      1;
      (a * x + m * y) * (b * u + m * v);
      { MulExpand(a * x, y, b * u, v, m); assert m * y == y * m; assert m * v == v * m; }
      (a * x) * (b * u) + ((a * x) * v + y * (b * u) + y * v * m) * m;
      { MulSwap(a, x, b, u); }
      (a * b) * (x * u) + m * ((a * x) * v + y * (b * u) + y * v * m);
    }
    CoprimeFromBezout(a * b, m, x * u, (a * x) * v + y * (b * u) + y * v * m);
  }

  lemma {:induction false} CoprimePow(a: nat, e: nat, m: nat)
    requires Coprime(a, m)
    ensures 0 <= Pow(a, e) && Coprime(Pow(a, e), m)
    decreases e
  {
    if e == 0 {
      CoprimeFromBezout(1, m, 1, 0);
    } else {
      CoprimePow(a, e - 1, m);
      CoprimeProduct(a, Pow(a, e - 1), m);
    }
  }

  /** A divisor coprime to one factor divides the other. */
  lemma CoprimeDivides(d: nat, a: nat, b: int)
    requires 0 < d && Coprime(d, a) && Divides(d, a * b)
    ensures Divides(d, b)
  {
    var x, y := Bezout(d, a);
    calc {
      b;
      (d * x + a * y) * b;
      { assert (d * x) * b == d * (x * b); assert (a * y) * b == (a * b) * y; }
      d * (x * b) + (a * b) * y;
    }
    DividesFrom(d, x * b, d * (x * b));
    DividesProduct(d, a * b, y);
    DividesSum(d, d * (x * b), (a * b) * y);
  }

  /** Two coprime divisors divide together. */
  lemma CoprimeBothDivide(m: nat, n: nat, x: int)
    requires 0 < m && 0 < n && Coprime(m, n) && Divides(m, x) && Divides(n, x)
    ensures 0 < m * n && Divides(m * n, x)
  {
    MulPositive(m, n);
    var k := DividesQuotient(n, x);
    assert x == n * k;
    CoprimeDivides(m, n, k);
    var j := DividesQuotient(m, k);
    assert x == n * (j * m) == j * (m * n);
    DividesFrom(m * n, j, x);
  }

  lemma CoprimeCong(m: nat, n: nat, x: int, y: int)
    requires 0 < m && 0 < n && Coprime(m, n) && x % m == y % m && x % n == y % n
    ensures 0 < m * n && x % (m * n) == y % (m * n)
  {
    CongIffDivides(x, y, m);
    CongIffDivides(x, y, n);
    CoprimeBothDivide(m, n, x - y);
    CongIffDivides(x, y, m * n);
  }

  /** A unit can be cancelled from a congruence. */
  lemma CoprimeCancel(a: nat, b: int, c: int, m: nat)
    requires 0 < m && Coprime(m, a) && (a * b) % m == (a * c) % m
    ensures b % m == c % m
  {
    CongIffDivides(a * b, a * c, m);
    assert a * b - a * c == a * (b - c);
    CoprimeDivides(m, a, b - c);
    CongIffDivides(b, c, m);
  }

  /** The coprimality of a number depends only on its remainder. */
  lemma CoprimeMod(a: nat, m: nat)
    requires 0 < m
    ensures Coprime(a, m) <==> Coprime(a % m, m)
    ensures Coprime(a, m) <==> Coprime(m, a)
  {
    assert Gcd(a, m) == Gcd(m, a % m);
    if Coprime(a, m) { CoprimeSymmetric(a, m); CoprimeSymmetric(m, a % m); }
    if Coprime(a % m, m) { CoprimeSymmetric(a % m, m); }
    if Coprime(m, a) { CoprimeSymmetric(m, a); }
  }

  // ----- primes

  lemma PrimeAtLeast2(p: int)
    requires IsPrime(p)
    ensures 2 <= p
  {
  }

  lemma TwoIsPrime()
    ensures IsPrime(2)
  {
  }

  lemma PrimeDividesPrime(q: int, p: int)
    requires IsPrime(q) && IsPrime(p) && Divides(q, p)
    ensures q == p
  {
    var k := DividesQuotient(q, p);
  }

  lemma PrimeCoprime(p: int, a: nat)
    requires IsPrime(p) && !Divides(p, a)
    ensures Coprime(p, a) && Coprime(a, p)
  {
    GcdDivides(p, a);
    var g := Gcd(p, a);
    var k := DividesQuotient(g, p);
    CoprimeSymmetric(p, a);
  }

  lemma CoprimeNotDivides(d: int, a: nat, m: nat)
    requires 2 <= d && Coprime(a, m) && Divides(d, a)
    ensures !Divides(d, m)
  {
    if Divides(d, m) {
      GcdGreatest(d, a, m);
      var k := DividesQuotient(d, 1);
    }
  }

  /** Euclid's lemma. */
  lemma EuclidsLemma(p: int, a: nat, b: int)
    requires IsPrime(p) && Divides(p, a * b)
    ensures Divides(p, a) || Divides(p, b)
  {
    if !Divides(p, a) {
      PrimeCoprime(p, a);
      CoprimeDivides(p, a, b);
    }
  }

  lemma {:induction false} PrimeDividesPow(p: int, a: nat, e: nat)
    requires IsPrime(p) && Divides(p, Pow(a, e))
    ensures 0 < e && Divides(p, a)
    decreases e
  {
    if e == 0 {
      var k := DividesQuotient(p, 1);
    } else {
      EuclidsLemma(p, a, Pow(a, e - 1));
      if Divides(p, Pow(a, e - 1)) { PrimeDividesPow(p, a, e - 1); }
    }
  }

  lemma DistinctPrimesCoprime(p: int, q: int)
    requires IsPrime(p) && IsPrime(q) && p != q
    ensures Coprime(p, q)
  {
    if Divides(p, q) {
      var k := DividesQuotient(p, q);
    }
    PrimeCoprime(p, q);
  }

  /** The least divisor from d upwards. */
  function LeastDivisorFrom(d: nat, n: nat): (r: nat)
    requires 2 <= d <= n
    ensures d <= r <= n && Divides(r, n)
    ensures forall k :: d <= k < r ==> !Divides(k, n)
    decreases n - d
  {
    if d == n || Divides(d, n) then
      (if d == n then DividesFrom(n, 1, n); d else d)
    else
      LeastDivisorFrom(d + 1, n)
  }

  /** The least divisor above 1; it is prime. */
  function LeastPrimeFactor(n: nat): (p: nat)
    requires 2 <= n
    ensures 2 <= p <= n && Divides(p, n)
    ensures forall k :: 2 <= k < p ==> !Divides(k, n)
  {
    LeastDivisorFrom(2, n)
  }

  lemma LeastPrimeFactorIsPrime(n: nat)
    requires 2 <= n
    ensures IsPrime(LeastPrimeFactor(n))
  {
    var p := LeastPrimeFactor(n);
    forall d | 2 <= d < p
      ensures !Divides(d, p)
    {
      if Divides(d, p) {
        DividesTrans(d, p, n);
        assert false;
      }
    }
  }

  /** A composite number has a prime factor no larger than its square root. */
  lemma CompositeHasSmallFactor(n: nat) returns (p: nat)
    requires 2 <= n && !IsPrime(n)
    ensures IsPrime(p) && Divides(p, n) && p < n && p * p <= n
    ensures p == LeastPrimeFactor(n)
  {
    p := LeastPrimeFactor(n);
    LeastPrimeFactorIsPrime(n);
    var k := DividesQuotient(p, n);
    DividesFrom(k, p, n);
    MulMono(p, k, p);
    MulMono(2, p, p);
  }

  function Factorial(n: nat): (f: nat)
    ensures 1 <= f
  {
    if n == 0 then 1 else (MulPositive(n, Factorial(n - 1)); n * Factorial(n - 1))
  }

  lemma {:induction false} DividesFactorial(d: nat, n: nat)
    requires 1 <= d <= n
    ensures Divides(d, Factorial(n))
    decreases n
  {
    if d == n {
      DividesFrom(d, Factorial(n - 1), Factorial(n));
    } else {
      DividesFactorial(d, n - 1);
      DividesProduct(d, Factorial(n - 1), n);
    }
  }

  /** There is always a larger prime. */
  lemma LargerPrime(n: nat) returns (p: nat)
    ensures n < p && IsPrime(p)
  {
    var f := Factorial(n) + 1;
    p := LeastPrimeFactor(f);
    LeastPrimeFactorIsPrime(f);
    if p <= n {
      DividesFactorial(p, n);
      DividesSum(p, Factorial(n), 1);
      var k := DividesQuotient(p, 1);
      assert false;
    }
  }
}
