/** The factorial tables of gen-fac.c: odd parts of factorials kept incrementally,
    central binomials updated by exact divisions, and the powers of two in both. */
module FactorialTables {
  import opened Arith
  import opened Primes
  import opened Binomials
  import opened Reciprocals

  // ----- odd parts

  function PopCount(b: nat): nat {
    if b == 0 then 0 else b % 2 + PopCount(b / 2)
  }

  function OddPart(b: nat): (a: nat)
    requires 0 < b
    ensures a % 2 == 1 && a <= b
  {
    if b % 2 == 0 then OddPart(b / 2) else b
  }

  /** The exponent of 2; together with OddPart what mpz_remove_twos yields. */
  function Twos(b: nat): nat
    requires 0 < b
  {
    if b % 2 == 0 then 1 + Twos(b / 2) else 0
  }

  /** The code's scan for the odd part. */
  method OddPartOf(b: nat) returns (a: nat)
    requires 0 < b
    ensures a == OddPart(b)
  {
    a := b;
    while a % 2 == 0
      invariant 0 < a && OddPart(a) == OddPart(b)
      decreases a
    {
      a := a / 2;
    }
  }

  /** mpz_remove_twos: x is divided by its power of two, whose exponent is returned. */
  method RemoveTwos(x: nat) returns (odd: nat, r: nat)
    requires 0 < x
    ensures odd == OddPart(x) && r == Twos(x)
  {
    odd, r := x, 0;
    while odd % 2 == 0
      invariant 0 < odd && OddPart(odd) == OddPart(x) && r + Twos(odd) == Twos(x)
      decreases odd
    {
      odd, r := odd / 2, r + 1;
    }
  }

  lemma {:induction false} OddTimesTwos(b: nat)
    requires 0 < b
    ensures OddPart(b) * Pow(2, Twos(b)) == b
    decreases b
  {
    if b % 2 == 0 {
      OddTimesTwos(b / 2);
      MulRotate(OddPart(b), 2, Pow(2, Twos(b / 2)));
    } else {
      assert Pow(2, 0) == 1;
    }
  }

  /** The decomposition is unique. */
  lemma {:induction false} DecompositionUnique(x: nat, a: nat, t: nat)
    requires 0 < x && x == a * Pow(2, t) && a % 2 == 1
    ensures OddPart(x) == a && Twos(x) == t
    decreases t
  {
    if t == 0 {
      assert Pow(2, 0) == 1;
    } else {
      PowPositive(2, t - 1);
      MulPositive(a, Pow(2, t - 1));
      MulRotate(a, 2, Pow(2, t - 1));
      assert x == 2 * (a * Pow(2, t - 1));
      DecompositionUnique(x / 2, a, t - 1);
    }
  }

  lemma OddTimesOdd(a: int, b: int)
    requires a % 2 == 1 && b % 2 == 1
    ensures (a * b) % 2 == 1
  {
    CongMul(a, 1, b, 1, 2);
  }

  lemma TwosOfProduct(x: nat, y: nat)
    requires 0 < x && 0 < y
    ensures 0 < x * y && Twos(x * y) == Twos(x) + Twos(y) && OddPart(x * y) == OddPart(x) * OddPart(y)
  {
    hide Pow, OddPart, Twos;
    MulPositive(x, y);
    OddTimesTwos(x);
    OddTimesTwos(y);
    MulSwap(OddPart(x), Pow(2, Twos(x)), OddPart(y), Pow(2, Twos(y)));
    PowAdd(2, Twos(x), Twos(y));
    OddTimesOdd(OddPart(x), OddPart(y));
    MulPositive(OddPart(x), OddPart(y));
    DecompositionUnique(x * y, OddPart(x) * OddPart(y), Twos(x) + Twos(y));
  }

  // ----- factorials

  /** Counting up changes the low ones and the lowest zero. */
  lemma {:induction false} PopCountNext(b: nat)
    requires 0 < b
    ensures PopCount(b) + Twos(b) == PopCount(b - 1) + 1
    decreases b
  {
    if b % 2 == 0 {
      PopCountNext(b / 2);
      assert (b - 1) / 2 == b / 2 - 1 && (b - 1) % 2 == 1;
    } else {
      assert (b - 1) / 2 == b / 2 && (b - 1) % 2 == 0;
    }
  }

  function OddFactorial(b: nat): (f: nat)
    ensures 0 < f
  {
    if b == 0 then 1 else MulPositive(OddFactorial(b - 1), OddPart(b)); OddFactorial(b - 1) * OddPart(b)
  }

  lemma OddFactorialNext(b: nat, f: nat, a: nat, t: nat)
    requires OddFactorial(b) == f && 0 <= a * Pow(2, t) == b + 1 && a % 2 == 1
    ensures OddFactorial(b + 1) == f * a
  {
    DecompositionUnique(b + 1, a, t);
  }

  lemma FirstOddFactorials()
    ensures OddFactorial(0) == 1 && OddFactorial(1) == 1 && OddFactorial(2) == 1 && OddFactorial(3) == 3
    ensures OddFactorial(4) == 3 && OddFactorial(5) == 15 && OddFactorial(6) == 45 && OddFactorial(7) == 315
    ensures OddFactorial(8) == 315 && OddFactorial(9) == 2835
  {
    hide OddFactorial, OddPart;
    OddFactorialZero();
    OddFactorialNext(0, 1, 1, 0);
    OddFactorialNext(1, 1, 1, 1);
    OddFactorialNext(2, 1, 3, 0);
    OddFactorialNext(3, 3, 1, 2);
    OddFactorialNext(4, 3, 5, 0);
    OddFactorialNext(5, 15, 3, 1);
    OddFactorialNext(6, 45, 7, 0);
    OddFactorialNext(7, 315, 1, 3);
    OddFactorialNext(8, 315, 9, 0);
  }

  lemma OddFactorialZero()
    ensures OddFactorial(0) == 1
  {
  }

  lemma MiddleOddFactorials()
    ensures OddFactorial(10) == 0x375f && OddFactorial(11) == 0x26115 && OddFactorial(12) == 0x7233f
    ensures OddFactorial(13) == 0x5cca33 && OddFactorial(14) == 0x2898765 && OddFactorial(15) == 0x260eeeeb
    ensures OddFactorial(16) == 0x260eeeeb && OddFactorial(17) == 0x286fddd9b
  {
    hide OddFactorial, OddPart;
    FirstOddFactorials();
    OddFactorialNext(9, 2835, 5, 1);
    OddFactorialNext(10, 0x375f, 11, 0);
    OddFactorialNext(11, 0x26115, 3, 2);
    OddFactorialNext(12, 0x7233f, 13, 0);
    OddFactorialNext(13, 0x5cca33, 7, 1);
    OddFactorialNext(14, 0x2898765, 15, 0);
    OddFactorialNext(15, 0x260eeeeb, 1, 4);
    OddFactorialNext(16, 0x260eeeeb, 17, 0);
  }

  lemma LastOddFactorials()
    ensures OddFactorial(18) == 0x16beecca73 && OddFactorial(19) == 0x1b02b930689
    ensures OddFactorial(20) == 0x870d9df20ad && OddFactorial(21) == 0xb141df4dae31
    ensures OddFactorial(22) == 0x79dd498567c1b && OddFactorial(23) == 0xaf2e19afc5266d
    ensures OddFactorial(24) == 0x20d8a4d0f4f7347 && OddFactorial(25) == 0x335281867ec241ef
    ensures OddFactorial(26) == 13 * 0x335281867ec241ef
  {
    hide OddFactorial, OddPart;
    MiddleOddFactorials();
    OddFactorialNext(17, 0x286fddd9b, 9, 1);
    OddFactorialNext(18, 0x16beecca73, 19, 0);
    OddFactorialNext(19, 0x1b02b930689, 5, 2);
    OddFactorialNext(20, 0x870d9df20ad, 21, 0);
    OddFactorialNext(21, 0xb141df4dae31, 11, 1);
    OddFactorialNext(22, 0x79dd498567c1b, 23, 0);
    OddFactorialNext(23, 0xaf2e19afc5266d, 3, 3);
    OddFactorialNext(24, 0x20d8a4d0f4f7347, 25, 0);
    OddFactorialNext(25, 0x335281867ec241ef, 13, 1);
  }

  /** A table for 64-bit limbs ends at 25, with the value that is shipped. */
  lemma ShippedLimit(limit: nat)
    requires forall k :: 0 <= k <= limit ==> OddFactorial(k) < 0x1_0000_0000_0000_0000
    requires 0x1_0000_0000_0000_0000 <= OddFactorial(limit + 1)
    ensures limit == 25 && OddFactorial(limit) == 0x335281867ec241ef
  {
    hide OddFactorial;
    FirstOddFactorials();
    MiddleOddFactorials();
    LastOddFactorials();
  }

  /** Legendre's formula: the running product of odd parts is b! without its
      b - popcount(b) factors 2. */
  lemma {:induction false} Legendre(b: nat)
    ensures PopCount(b) <= b && OddFactorial(b) % 2 == 1
    ensures OddFactorial(b) * Pow(2, b - PopCount(b)) == Factorial(b)
    decreases b
  {
    hide OddPart, Twos, PopCount, Pow, Factorial, OddFactorial;
    if b == 0 {
      FactorialZero();
    } else {
      Legendre(b - 1);
      PopCountNext(b);
      OddTimesTwos(b);
      FactorialNext(b);
      var e := b - 1 - PopCount(b - 1);
      PowAdd(2, e, Twos(b));
      MulSwap(OddFactorial(b - 1), OddPart(b), Pow(2, e), Pow(2, Twos(b)));
      OddTimesOdd(OddFactorial(b - 1), OddPart(b));
    }
  }

  lemma FactorialZero()
    ensures OddFactorial(0) == Factorial(0) == Pow(2, 0) == 1 && PopCount(0) == 0
  {
  }

  lemma FactorialNext(b: nat)
    requires 0 < b
    ensures Factorial(b) == Factorial(b - 1) * b && OddFactorial(b) == OddFactorial(b - 1) * OddPart(b)
  {
  }

  lemma TwosOfFactorial(b: nat)
    ensures PopCount(b) <= b && Twos(Factorial(b)) == b - PopCount(b) && OddPart(Factorial(b)) == OddFactorial(b)
  {
    Legendre(b);
    DecompositionUnique(Factorial(b), OddFactorial(b), b - PopCount(b));
  }

  // ----- binomials

  lemma {:induction false} BinomialFactorials(n: nat, k: nat)
    requires k <= n
    ensures Binomial(n, k) * Factorial(k) * Factorial(n - k) == Factorial(n)
    decreases n
  {
    if k == 0 {
      assert Factorial(0) == 1 && Binomial(n, 0) == 1;
    } else {
      BinomialFactorials(n - 1, k - 1);
      BinomialAbsorb(n, k);
      BinomialStep(n, k, Binomial(n, k), Binomial(n - 1, k - 1), Factorial(k - 1), Factorial(n - k));
    }
  }

  lemma BinomialStep(n: int, k: int, c: int, d: int, f: int, g: int)
    requires k * c == n * d
    ensures c * (k * f) * g == n * (d * f * g)
  {
    assert c * (k * f) == (k * c) * f == n * (d * f);
    MulAssoc(n, d * f, g);
  }

  /** Kummer: the power of two in binomial(2k, k) is popcount(k). */
  lemma TwosOfCentral(k: nat)
    ensures 0 < Binomial(2 * k, k) && Twos(Binomial(2 * k, k)) == PopCount(k)
  {
    BinomialPositive(2 * k, k);
    BinomialFactorials(2 * k, k);
    var c, f := Binomial(2 * k, k), Factorial(k);
    TwosOfProduct(c, f);
    TwosOfProduct(c * f, f);
    TwosOfFactorial(k);
    TwosOfFactorial(2 * k);
    assert PopCount(2 * k) == PopCount(k);
  }

  function Central(b: nat): nat {
    Binomial(b, b / 2)
  }

  lemma CentralIs(k: nat)
    ensures Central(2 * k) == Binomial(2 * k, k) && Central(2 * k + 1) == Binomial(2 * k + 1, k)
  {
    hide Binomial;
    assert 2 * k / 2 == k && (2 * k + 1) / 2 == k;
  }

  /** Catalan: binomial(2k, k) is divisible by k + 1, and the quotient times 2k + 1
      is the next central binomial. */
  lemma CentralFromEven(k: nat)
    ensures Central(2 * k) % (k + 1) == 0
    ensures Central(2 * k) / (k + 1) * (2 * k + 1) == Central(2 * k + 1)
  {
    hide Binomial, Central;
    CentralOdd(k);
    CentralIs(k);
    var c, d := Central(2 * k), Central(2 * k + 1);
    CatalanQuotient(k, c, d);
    DivModUnique(c, k + 1, 2 * c - d, 0);
  }

  lemma CatalanQuotient(k: nat, c: int, d: int)
    requires (k + 1) * d == (2 * k + 1) * c
    ensures c == (2 * c - d) * (k + 1) && (2 * c - d) * (2 * k + 1) == d
  {
    var q := 2 * c - d;
    assert (k + 1) * q == (2 * k + 2) * c - (k + 1) * d;
    assert (2 * k + 2) * c == (2 * k + 1) * c + c;
    assert (k + 1) * (q * (2 * k + 1)) == ((k + 1) * q) * (2 * k + 1);
    assert (q * (2 * k + 1)) * (k + 1) == d * (k + 1);
    MulCancel(q * (2 * k + 1), d, k + 1);
  }

  lemma CentralFromOdd(k: nat)
    ensures Central(2 * k + 2) == 2 * Central(2 * k + 1)
  {
    CentralDouble(k);
  }

  lemma CentralGrows(b: nat)
    requires 2 <= b
    ensures 0 < Central(b - 1) < Central(b)
  {
    hide Central;
    CentralPositive(b - 1);
    if b % 2 == 0 {
      CentralFromOdd(b / 2 - 1);
      assert b == 2 * (b / 2 - 1) + 2;
    } else {
      CentralFromEven(b / 2);
      assert b == 2 * (b / 2) + 1;
      QuotientGrows(Central(b - 1), b / 2);
    }
  }

  lemma CentralPositive(b: nat)
    ensures 0 < Central(b)
  {
    BinomialPositive(b, b / 2);
  }

  lemma QuotientGrows(c: int, k: nat)
    requires 0 < c && 0 < k && c % (k + 1) == 0
    ensures c < c / (k + 1) * (2 * k + 1)
  {
    var q := c / (k + 1);
    assert c == q * (k + 1);
    if q <= 0 { MulMono(q, 0, k + 1); }
    assert q * (2 * k + 1) == q * (k + 1) + q * k;
    MulPositive(q, k);
  }

  // ----- the table loops

  /** sizeinbase (x, 2) > numb. */
  lemma TooLong(x: nat, numb: nat)
    requires 0 < x
    ensures BitLength(x) > numb <==> Pow(2, numb) <= x
  {
    var len := BitLength(x);
    if len > numb { PowMono(2, numb, len - 1); } else { PowMono(2, len, numb); }
  }

  lemma {:induction false} OddFactorialAtLeast(b: nat)
    ensures b <= OddFactorial(b) + 1
    decreases b
  {
    if b >= 2 {
      OddFactorialAtLeast(b - 1);
      MulPositive(OddFactorial(b - 1), OddPart(b));
      if b % 2 == 0 {
        MulPositive(OddFactorial(b - 2), OddPart(b - 1));
        assert b - 1 <= OddFactorial(b - 1);
      }
    }
  }

  /** The odd factorials of one limb: entries up to limit, and last is the final one. */
  method OddFactorialTable(numb: nat) returns (table: seq<nat>, last: nat, limit: nat)
    requires 1 <= numb
    ensures 2 <= limit && |table| == limit + 1
    ensures forall k :: 0 <= k <= limit ==> table[k] == OddFactorial(k) && table[k] < Pow(2, numb)
    ensures last == OddFactorial(limit) && Pow(2, numb) <= OddFactorial(limit + 1)
  {
    hide Pow, OddPart, BitLength;
    StartOfTable(numb);
    table := [1, 1, 1];
    var x, b := 1, 3;
    while true
      invariant 3 <= b == |table| && x == OddFactorial(b - 1) && x < Pow(2, numb)
      invariant forall k :: 0 <= k < b ==> table[k] == OddFactorial(k) && table[k] < Pow(2, numb)
      decreases Pow(2, numb) + 2 - b
    {
      var a := OddPartOf(b);
      last := x;
      x := last * a;
      assert x == OddFactorial(b);
      TooLong(x, numb);
      OddFactorialAtLeast(b);
      if BitLength(x) > numb { break; }
      table := table + [x];
      b := b + 1;
    }
    limit := b - 1;
  }

  lemma StartOfTable(numb: nat)
    requires 1 <= numb
    ensures OddFactorial(0) == 1 && OddFactorial(1) == 1 && OddFactorial(2) == 1 && 1 < Pow(2, numb)
  {
    assert OddPart(1) == 1 && OddPart(2) == 1;
    PowPositive(2, numb - 1);
  }

  /** The continuation modulo 2^numb, as long as the central binomial fits. */
  method OddFactorialExtension(numb: nat, limit: nat) returns (table: seq<nat>, ofe: nat)
    requires 2 <= limit
    ensures 0 < Pow(2, numb) && limit < ofe && |table| == ofe - limit
    ensures forall k :: limit < k <= ofe ==> table[k - limit - 1] == OddFactorial(k) % Pow(2, numb)
    ensures forall k :: limit + 1 < k <= ofe ==> Central(k) < Pow(2, numb)
    ensures Pow(2, numb) <= Central(ofe + 1)
  {
    hide Pow, OddPart, BitLength, Central, OddFactorial;
    PowPositive(2, numb);
    var modulus := Pow(2, numb);
    var b := limit + 1;
    var x := OddFactorial(b) % modulus;
    table := [x];
    var y := Central(b);
    b := b + 1;
    while true
      invariant limit + 2 <= b && |table| == b - limit - 1 && y == Central(b - 1)
      invariant x == OddFactorial(b - 1) % modulus
      invariant forall k :: limit < k < b ==> table[k - limit - 1] == OddFactorial(k) % modulus
      invariant forall k :: limit + 1 < k < b ==> Central(k) < modulus
      decreases modulus - y
    {
      var a := OddPartOf(b);
      CentralGrows(b);
      y := NextCentral(y, a, b);
      TooLong(y, numb);
      if BitLength(y) > numb { break; }
      OddFactorialStep(x, a, b, modulus);
      x := (x * a) % modulus;
      table := table + [x];
      b := b + 1;
    }
    ofe := b - 1;
  }

  /** The update of y; the division is exact. */
  method NextCentral(y: nat, a: nat, b: nat) returns (r: nat)
    requires 2 <= b && y == Central(b - 1) && a == OddPart(b)
    ensures r == Central(b)
  {
    hide OddPart, Central;
    OddPartIsSelf(b);
    if a == b {
      CentralFromEven(b / 2);
      assert b == 2 * (b / 2) + 1;
      r := y / (a / 2 + 1);
      r := r * a;
    } else {
      CentralFromOdd(b / 2 - 1);
      assert b == 2 * (b / 2 - 1) + 2;
      r := y * 2;
    }
  }

  lemma OddPartIsSelf(b: nat)
    requires 0 < b
    ensures OddPart(b) == b <==> b % 2 == 1
  {
  }

  lemma OddFactorialStep(x: int, a: nat, b: nat, m: nat)
    requires 0 < m && 0 < b && x == OddFactorial(b - 1) % m && a == OddPart(b)
    ensures (x * a) % m == OddFactorial(b) % m
  {
    ModMod(OddFactorial(b - 1), m);
    CongMul(x, OddFactorial(b - 1), a, a, m);
  }
}
