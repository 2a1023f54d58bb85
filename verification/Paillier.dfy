/** The Paillier cryptosystem of zyltest-ntl.cpp: key generation, encryption,
    decryption, homomorphic addition and the per-character file pipeline. */
module Paillier {
  import opened Arith
  import opened Primes
  import opened Fermat

  datatype Option<T> = None | Some(value: T)

  // ----- the arithmetic primitives the program takes from its library

  /** An inverse of a modulo m when there is one; the library aborts otherwise. */
  function InvMod(a: nat, m: nat): (r: Option<nat>)
    requires 2 <= m
    ensures r.Some? <==> Coprime(a, m)
    ensures r.Some? ==> r.value < m && (a * r.value) % m == 1
  {
    if Coprime(a, m) then
      var c := BezoutPair(a, m);
      InverseFromBezout(a, m, c.0, c.1);
      Some(c.0 % m)
    else None
  }

  lemma InverseFromBezout(a: int, m: int, x: int, y: int)
    requires 2 <= m && a * x + m * y == 1
    ensures (a * (x % m)) % m == 1
  {
    ModMod(x, m);
    CongMul(a, a, x % m, x, m);
    ModAddMul(1, -y, m);
    assert a * x == 1 + (-y) * m;
    SmallMod(1, m);
  }

  /** Modular power; a negative exponent asks for the power of the inverse. */
  function PowerMod(a: int, e: int, m: nat): (r: nat)
    requires 2 <= m
    requires e < 0 ==> 0 <= a && Coprime(a, m)
  {
    if 0 <= e then Pow(a, e) % m
    else Pow(InvMod(a, m).value, -e) % m
  }

  // ----- the cryptosystem

  /** The function L; the division rounds down. */
  function LFunction(x: int, n: nat): int
    requires 0 < n
  {
    (x - 1) / n
  }

  function Encrypt(m: int, n: nat, g: nat, r: nat): nat
    requires 2 <= n * n
    requires m < 0 ==> Coprime(g, n * n)
  {
    (PowerMod(g, m, n * n) * PowerMod(r, n, n * n)) % (n * n)
  }

  function Decrypt(c: int, n: nat, lambda: nat, mu: nat): nat
    requires 2 <= n <= n * n
  {
    (LFunction(PowerMod(c, lambda, n * n), n) * mu) % n
  }

  datatype Keys = Keys(n: nat, phi: nat, lambda: nat, g: nat, mu: nat, r: nat)

  /** What a generated key satisfies. */
  ghost predicate ValidKeys(p: nat, q: nat, k: Keys) {
    && IsPrime(p) && IsPrime(q) && p != q
    && k.n == p * q && k.g == k.n + 1
    && 1 <= k.lambda && Divides(p - 1, k.lambda) && Divides(q - 1, k.lambda)
    && (k.lambda * k.mu) % k.n == 1
  }

  /** Key generation from the two stored primes and the drawn number r; the
      library call that inverts lambda fails exactly when n and phi share a
      factor. */
  method KeyGeneration(p: nat, q: nat, random: nat) returns (k: Option<Keys>)
    requires IsPrime(p) && IsPrime(q) && p != q && random < p * q
    ensures k.Some? <==> Coprime((p - 1) * (q - 1), p * q)
    ensures k.Some? ==> ValidKeys(p, q, k.value) && k.value.r == random
    ensures k.Some? ==> k.value.phi == (p - 1) * (q - 1) == k.value.lambda * Gcd(p - 1, q - 1)
  {
    MulPositive(p, q);
    MulPositive(p - 1, q - 1);
    var n := p * q;
    var g := n + 1;
    var phi := (p - 1) * (q - 1);
    LambdaFacts(p, q);
    var lambda := phi / Gcd(p - 1, q - 1);
    var mu := InvMod(lambda, n);
    LambdaCoprime(p, q);
    if mu.None? { return None; }
    return Some(Keys(n, phi, lambda, g, mu.value, random));
  }

  /** lambda is the least common multiple of p - 1 and q - 1. */
  lemma LambdaFacts(p: nat, q: nat)
    requires 2 <= p && 2 <= q
    ensures 0 < Gcd(p - 1, q - 1)
    ensures var g := Gcd(p - 1, q - 1); var lambda := ((p - 1) * (q - 1)) / g;
      && 1 <= lambda && Divides(p - 1, lambda) && Divides(q - 1, lambda)
      && (p - 1) * (q - 1) == lambda * g
  {
    GcdDivides(p - 1, q - 1);
    var g := Gcd(p - 1, q - 1);
    var a := DividesQuotient(g, p - 1);
    var b := DividesQuotient(g, q - 1);
    hide Gcd, Divides;
    SharedMultiple(p - 1, q - 1, a, b, g);
    MulPositive(p - 1, b);
    DividesFrom(p - 1, b, (p - 1) * b);
    DividesFrom(q - 1, a, (q - 1) * a);
  }

  /** x y / g is x times the cofactor of y and y times the cofactor of x. */
  lemma SharedMultiple(x: int, y: int, a: int, b: int, g: int)
    requires 0 < g && x == a * g && y == b * g
    ensures x * y / g == b * x == x * b == a * y == y * a && x * y == (x * y / g) * g
  {
    MulAssoc(x, b, g);
    MulAssoc(y, a, g);
    assert x * y == y * x;
    DivModUnique(x * y, g, x * b, 0);
    DivModUnique(x * y, g, y * a, 0);
  }

  /** lambda is invertible modulo n exactly when phi is. */
  lemma LambdaCoprime(p: nat, q: nat)
    requires IsPrime(p) && IsPrime(q)
    ensures 0 < Gcd(p - 1, q - 1) && 0 <= ((p - 1) * (q - 1)) / Gcd(p - 1, q - 1)
    ensures Coprime(((p - 1) * (q - 1)) / Gcd(p - 1, q - 1), p * q)
       <==> Coprime((p - 1) * (q - 1), p * q)
  {
    LambdaFacts(p, q);
    var g, phi := Gcd(p - 1, q - 1), (p - 1) * (q - 1);
    var lambda := phi / g;
    if Coprime(phi, p * q) {
      CoprimeFactor(lambda, g, p * q);
    }
    if Coprime(lambda, p * q) {
      var a := DividesQuotient(p - 1, lambda);
      var b := DividesQuotient(q - 1, lambda);
      CoprimeFactor(p - 1, a, p * q);
      CoprimeFactor(q - 1, b, p * q);
      CoprimeProduct(p - 1, q - 1, p * q);
    }
  }

  lemma CoprimeFactor(a: nat, b: nat, m: nat)
    requires Coprime(a * b, m) || Coprime(b * a, m)
    ensures Coprime(a, m)
  {
    var x, y := Bezout(a * b, m);
    assert a * b == b * a;
    assert (a * b) * x == a * (b * x);
    CoprimeFromBezout(a, m, b * x, y);
  }

  // ----- powers of 1 + jn modulo n * n

  /** The binomial collapse: (1 + jn)^k is 1 + kjn modulo n squared. */
  lemma {:induction false} PowOnePlus(j: int, n: nat, k: nat)
    requires 1 <= n && 0 < n * n
    ensures Pow(1 + j * n, k) % (n * n) == (1 + (k * j) * n) % (n * n)
    decreases k
  {
    if k > 0 {
      PowOnePlus(j, n, k - 1);
      var a, b := 1 + j * n, 1 + ((k - 1) * j) * n;
      CongMul(a, a, Pow(a, k - 1), b, n * n);
      var i := (k - 1) * j;
      assert k * j == i + j;
      OnePlusProduct(i, j, n);
      ModEqual(a * b, 1 + (k * j) * n, j * i, n * n);
    }
  }

  lemma OnePlusProduct(i: int, j: int, n: int)
    ensures (1 + j * n) * (1 + i * n) == 1 + (i + j) * n + (j * i) * (n * n)
  {
    MulExpand(1, j, 1, i, n);
    MulAssoc(j * i, n, n);
    assert (1 * i + j * 1 + j * i * n) * n == (i + j) * n + (j * i * n) * n;
  }

  /** x is 1 modulo n, so its n-th power is 1 modulo n squared. */
  lemma NthPowerOfOne(x: nat, n: nat)
    requires 2 <= n && x % n == 1
    ensures 2 <= n * n && Pow(x, n) % (n * n) == 1
  {
    MulMono(2, n, n);
    SmallMod(1, n);
    var j := CongWitness(x, 1, n);
    PowOnePlus(j, n, n);
    MulAssoc(n, j, n);
    MulRotate(n, j, n);
    ModAddMul(1, j, n * n);
    SmallMod(1, n * n);
  }

  lemma FermatMultiple(a: nat, p: int, e: nat)
    requires IsPrime(p) && !Divides(p, a) && Divides(p - 1, e)
    ensures Pow(a, e) % p == 1
  {
    LittleFermat(a, p);
    var k := e / (p - 1);
    assert e == (p - 1) * k + 0;
    PowSplit(a, p - 1, k, 0, p);
    SmallMod(1, p);
  }

  lemma UnitToLambda(p: nat, q: nat, k: Keys, x: nat)
    requires ValidKeys(p, q, k) && Coprime(x, k.n)
    ensures 2 <= k.n && Pow(x, k.lambda) % k.n == 1
  {
    MulMono(2, p, q);
    DividesFrom(p, q, k.n);
    DividesFrom(q, p, k.n);
    CoprimeSymmetric(x, k.n);
    if Divides(p, x) { CoprimeNotDivides(p, x, k.n); }
    if Divides(q, x) { CoprimeNotDivides(q, x, k.n); }
    FermatMultiple(x, p, k.lambda);
    FermatMultiple(x, q, k.lambda);
    SmallMod(1, p);
    SmallMod(1, q);
    DistinctPrimesCoprime(p, q);
    CoprimeCong(p, q, Pow(x, k.lambda), 1);
    SmallMod(1, k.n);
  }

  // ----- decryption undoes encryption

  /** Every c congruent to (1+n)^m * x^n with x a unit decrypts to m mod n, and
      the division inside L is exact. */
  lemma DecryptResidue(p: nat, q: nat, k: Keys, c: int, m: nat, x: nat)
    requires ValidKeys(p, q, k) && Coprime(x, k.n)
    requires 2 <= k.n <= k.n * k.n
    requires c % (k.n * k.n) == (Pow(k.g, m) * Pow(x, k.n)) % (k.n * k.n)
    ensures Decrypt(c, k.n, k.lambda, k.mu) == m % k.n
    ensures (Pow(c, k.lambda) % (k.n * k.n) - 1) % k.n == 0
  {
    var n, l := k.n, k.lambda;
    PowerOfCiphertext(p, q, k, c, m, x);
    LOfCollapsed(m * l, n);
    ModMod(m * l, n);
    CongMul((m * l) % n, m * l, k.mu, k.mu, n);
    MulAssoc(m, l, k.mu);
    SmallMod(1, n);
    CongMul(m, m, l * k.mu, 1, n);
  }

  /** L reads the coefficient s of 1 + sn off its remainder, without rounding. */
  lemma LOfCollapsed(s: int, n: nat)
    requires 2 <= n <= n * n
    ensures (1 + s * n) % (n * n) == 1 + (s % n) * n
    ensures LFunction((1 + s * n) % (n * n), n) == s % n
    ensures ((1 + s * n) % (n * n) - 1) % n == 0
  {
    var t, u := s % n, s / n;
    CollapsedParts(s, t, u, n);
    DivModUnique(1 + s * n, n * n, u, 1 + t * n);
    DivModUnique(t * n, n, t, 0);
  }

  lemma CollapsedParts(s: int, t: int, u: int, n: int)
    requires 0 <= t < n && 2 <= n && s == u * n + t
    ensures 1 + s * n == u * (n * n) + (1 + t * n) && 0 <= 1 + t * n < n * n
  {
    MulAssoc(u, n, n);
    MulSpread(u * n, t, n);
    MulMono(t, n - 1, n);
    MulMono(0, t, n);
    MulSpread(n, 1, n);
  }

  lemma PowerOfCiphertext(p: nat, q: nat, k: Keys, c: int, m: nat, x: nat)
    requires ValidKeys(p, q, k) && Coprime(x, k.n)
    requires 2 <= k.n <= k.n * k.n
    requires c % (k.n * k.n) == (Pow(k.g, m) * Pow(x, k.n)) % (k.n * k.n)
    ensures Pow(c, k.lambda) % (k.n * k.n) == (1 + (m * k.lambda) * k.n) % (k.n * k.n)
  {
    var n, l := k.n, k.lambda;
    var nn := n * n;
    var u, v := Pow(k.g, m), Pow(x, n);
    PowCong(c, u * v, l, nn);
    PowMulBase(u, v, l);
    // the blinding part vanishes
    PowPow(x, n, l);
    PowPow(x, l, n);
    assert n * l == l * n;
    PowNonNegative(x, l);
    UnitToLambda(p, q, k, x);
    NthPowerOfOne(Pow(x, l), n);
    SmallMod(1, nn);
    // the message part collapses
    PowPow(k.g, m, l);
    PowOnePlus(1, n, m * l);
    CongMul(Pow(u, l), 1 + (m * l) * n, Pow(v, l), 1, nn);
  }

  /** The round trip of a single message. */
  lemma RoundTrip(p: nat, q: nat, k: Keys, m: nat, r: nat)
    requires ValidKeys(p, q, k) && Coprime(r, k.n)
    ensures 2 <= k.n <= k.n * k.n
    ensures Decrypt(Encrypt(m, k.n, k.g, r), k.n, k.lambda, k.mu) == m % k.n
  {
    NTwo(p, q, k);
    EncryptResidue(m, k.n, k.g, r);
    DecryptResidue(p, q, k, Encrypt(m, k.n, k.g, r), m, r);
  }

  lemma NTwo(p: nat, q: nat, k: Keys)
    requires ValidKeys(p, q, k)
    ensures 2 <= k.n <= k.n * k.n
  {
    MulPositive(p, q);
    MulPositive(k.n, k.n);
  }

  lemma EncryptResidue(m: nat, n: nat, g: nat, r: nat)
    requires 2 <= n * n
    ensures Encrypt(m, n, g, r) % (n * n) == (Pow(g, m) * Pow(r, n)) % (n * n)
    ensures Encrypt(m, n, g, r) < n * n
  {
    var u, v := Pow(g, m), Pow(r, n);
    ModMod(u, n * n);
    ModMod(v, n * n);
    CongMul(u % (n * n), u, v % (n * n), v, n * n);
    ModMod((u % (n * n)) * (v % (n * n)), n * n);
  }

  datatype Blinded = Blinded(m: nat, r: nat)

  function Sum(ms: seq<Blinded>): nat {
    if ms == [] then 0 else ms[0].m + Sum(ms[1..])
  }

  function BlinderProduct(ms: seq<Blinded>): nat {
    if ms == [] then 1 else (MulMono(0, ms[0].r, BlinderProduct(ms[1..])); ms[0].r * BlinderProduct(ms[1..]))
  }

  /** The product modulo n squared of the ciphertexts of a list of messages, as
      repeated homomorphic addition computes it. */
  function CombinedCiphertext(ms: seq<Blinded>, n: nat, g: nat): (c: nat)
    requires 2 <= n * n
    ensures c < n * n
  {
    if ms == [] then 1
    else (MulMono(0, Encrypt(ms[0].m, n, g, ms[0].r), CombinedCiphertext(ms[1..], n, g));
      (Encrypt(ms[0].m, n, g, ms[0].r) * CombinedCiphertext(ms[1..], n, g)) % (n * n))
  }

  lemma {:induction false} CombinedResidue(ms: seq<Blinded>, n: nat, g: nat)
    requires 2 <= n * n
    ensures CombinedCiphertext(ms, n, g) % (n * n)
         == (Pow(g, Sum(ms)) * Pow(BlinderProduct(ms), n)) % (n * n)
    decreases |ms|
  {
    var nn := n * n;
    if ms == [] {
      PowOne(n);
    } else {
      var (m, r) := (ms[0].m, ms[0].r);
      var rest := ms[1..];
      CombinedResidue(rest, n, g);
      EncryptResidue(m, n, g, r);
      PowAdd(g, m, Sum(rest));
      PowMulBase(r, BlinderProduct(rest), n);
      CombineStep(Encrypt(m, n, g, r), Pow(g, m), Pow(r, n), CombinedCiphertext(rest, n, g),
                  Pow(g, Sum(rest)), Pow(BlinderProduct(rest), n), nn);
    }
  }

  lemma CombineStep(c: int, u: int, v: int, d: int, s: int, t: int, m: int)
    requires 0 < m && c % m == (u * v) % m && d % m == (s * t) % m
    ensures ((c * d) % m) % m == ((u * s) * (v * t)) % m
  {
    ModMod(c * d, m);
    CongMul(c, u * v, d, s * t, m);
    MulSwap(u, v, s, t);
  }

  lemma {:induction false} BlinderProductCoprime(ms: seq<Blinded>, n: nat)
    requires forall i :: 0 <= i < |ms| ==> Coprime(ms[i].r, n)
    ensures Coprime(BlinderProduct(ms), n)
    decreases |ms|
  {
    if ms == [] {
      CoprimeFromBezout(1, n, 1, 0);
    } else {
      BlinderProductCoprime(ms[1..], n);
      CoprimeProduct(ms[0].r, BlinderProduct(ms[1..]), n);
    }
  }

  /** Homomorphic addition: for every list of messages with unit blinders the
      product of the ciphertexts decrypts to the sum of the messages modulo n. */
  lemma HomomorphicSum(p: nat, q: nat, k: Keys, ms: seq<Blinded>)
    requires ValidKeys(p, q, k)
    requires forall i :: 0 <= i < |ms| ==> Coprime(ms[i].r, k.n)
    ensures 2 <= k.n <= k.n * k.n
    ensures Decrypt(CombinedCiphertext(ms, k.n, k.g), k.n, k.lambda, k.mu) == Sum(ms) % k.n
  {
    NTwo(p, q, k);
    CombinedResidue(ms, k.n, k.g);
    BlinderProductCoprime(ms, k.n);
    DecryptResidue(p, q, k, CombinedCiphertext(ms, k.n, k.g), Sum(ms), BlinderProduct(ms));
  }

  /** The program's homomorphism check on two ciphertexts: whatever the key and
      the two messages behind them, the sum of the messages comes out. */
  method ValidHomomorphic(c1: nat, c2: nat, n: nat, lambda: nat, mu: nat,
                          ghost p: nat, ghost q: nat, ghost k: Keys, ghost a: Blinded, ghost b: Blinded)
    returns (cSum: nat, mSum: nat)
    requires 2 <= n <= n * n
    ensures ValidKeys(p, q, k) && k.n == n && k.lambda == lambda && k.mu == mu
            && Coprime(a.r, n) && Coprime(b.r, n)
            && c1 == Encrypt(a.m, n, k.g, a.r) && c2 == Encrypt(b.m, n, k.g, b.r)
            ==> cSum == CombinedCiphertext([a, b], n, k.g) && mSum == (a.m + b.m) % n
  {
    MulMono(0, c1, c2);
    cSum := (c1 * c2) % (n * n);
    mSum := (LFunction(PowerMod(cSum, lambda, n * n), n) * mu) % n;
    if ValidKeys(p, q, k) && k.n == n && k.lambda == lambda && k.mu == mu
       && Coprime(a.r, n) && Coprime(b.r, n)
       && c1 == Encrypt(a.m, n, k.g, a.r) && c2 == Encrypt(b.m, n, k.g, b.r)
    {
      PairCombined(a, b, n, k.g);
      HomomorphicSum(p, q, k, [a, b]);
      PairSum(a, b);
      assert mSum == Decrypt(cSum, n, lambda, mu);
    }
  }

  lemma PairSum(a: Blinded, b: Blinded)
    ensures Sum([a, b]) == a.m + b.m
  {
    assert [a, b][1..] == [b] && [b][1..] == [];
    assert Sum([b]) == b.m + Sum([]);
  }

  lemma PairCombined(a: Blinded, b: Blinded, n: nat, g: nat)
    requires 2 <= n * n
    ensures CombinedCiphertext([a, b], n, g)
         == (Encrypt(a.m, n, g, a.r) * Encrypt(b.m, n, g, b.r)) % (n * n)
  {
    assert [a, b][1..] == [b] && [b][1..] == [];
    var e := Encrypt(b.m, n, g, b.r);
    EncryptResidue(b.m, n, g, b.r);
    SmallMod(e, n * n);
    assert CombinedCiphertext([b], n, g) == (e * CombinedCiphertext([], n, g)) % (n * n);
    assert e * 1 == e;
  }

  // ----- which blinders work

  /** When p divides the blinder, decryption forgets the message modulo p. */
  lemma SharedFactorForgets(p: nat, q: nat, k: Keys, r: nat, m1: nat, m2: nat)
    requires ValidKeys(p, q, k) && Divides(p, r)
    ensures 2 <= k.n <= k.n * k.n
    ensures Decrypt(Encrypt(m1, k.n, k.g, r), k.n, k.lambda, k.mu) % p
         == Decrypt(Encrypt(m2, k.n, k.g, r), k.n, k.lambda, k.mu) % p
  {
    NTwo(p, q, k);
    var n := k.n;
    SharedFactorPowers(p, q, k, r, m1, m2);
    var x1 := Pow(Encrypt(m1, n, k.g, r), k.lambda) % (n * n);
    var x2 := Pow(Encrypt(m2, n, k.g, r), k.lambda) % (n * n);
    LDifference(x1, x2, p, n, k.mu);
    ModOfMultiple(LFunction(x1, n) * k.mu, p, q);
    ModOfMultiple(LFunction(x2, n) * k.mu, p, q);
  }

  lemma SharedFactorPowers(p: nat, q: nat, k: Keys, r: nat, m1: nat, m2: nat)
    requires ValidKeys(p, q, k) && Divides(p, r) && 2 <= k.n <= k.n * k.n
    ensures 0 < k.n * p
    ensures (Pow(Encrypt(m1, k.n, k.g, r), k.lambda) % (k.n * k.n)) % (k.n * p)
         == (Pow(Encrypt(m2, k.n, k.g, r), k.lambda) % (k.n * k.n)) % (k.n * p)
  {
    var n, nn := k.n, k.n * k.n;
    var x1 := Pow(Encrypt(m1, n, k.g, r), k.lambda) % nn;
    var x2 := Pow(Encrypt(m2, n, k.g, r), k.lambda) % nn;
    MulPositive(p, p);
    ZeroModPP(p, q, k, r, m1);
    ZeroModPP(p, q, k, r, m2);
    OneModQ(p, q, k, r, m1);
    OneModQ(p, q, k, r, m2);
    DistinctPrimesCoprime(p, q);
    CoprimeProduct(p, p, q);
    CoprimeCong(p * p, q, x1, x2);
    MulAssoc(p, p, q);
    assert p * (p * q) == n * p;
  }

  lemma LDifference(x1: int, x2: int, p: int, n: int, mu: int)
    requires 0 < p && 0 < n && 0 < n * p && x1 % (n * p) == x2 % (n * p)
    ensures (LFunction(x1, n) * mu) % p == (LFunction(x2, n) * mu) % p
  {
    var j := CongWitness(x1, x2, n * p);
    var jp := j * p;
    assert x1 - 1 == (x2 - 1) + jp * n by { assert j * (n * p) == jp * n; }
    ModAddMul(x2 - 1, jp, n);
    var l1, l2 := LFunction(x1, n), LFunction(x2, n);
    assert l1 == l2 + j * p;
    ModAddMul(l2, j, p);
    CongMul(l1, l2, mu, mu, p);
  }

  lemma ZeroModPP(p: nat, q: nat, k: Keys, r: nat, m: nat)
    requires ValidKeys(p, q, k) && Divides(p, r) && 2 <= k.n <= k.n * k.n && 0 < p * p
    ensures (Pow(Encrypt(m, k.n, k.g, r), k.lambda) % (k.n * k.n)) % (p * p) == 0
  {
    var n, nn := k.n, k.n * k.n;
    var c := Encrypt(m, n, k.g, r);
    EncryptResidue(m, n, k.g, r);
    MulPositive(q, q);
    MulSwap(p, q, p, q);
    // r^n has the factor p squared
    var a := DividesQuotient(p, r);
    PowAdd(r, 2, n - 2);
    assert Pow(r, 2) == r * Pow(r, 1) == r * (r * Pow(r, 0));
    assert r * r == (a * a) * (p * p) by { MulSwap(a, p, a, p); }
    DividesFrom(p * p, a * a, r * r);
    DividesProduct(p * p, r * r, Pow(r, n - 2));
    DividesProduct(p * p, Pow(r, n), Pow(k.g, m));
    // and so have the ciphertext and its powers
    ModOfMultiple(c, p * p, q * q);
    ModOfMultiple(Pow(k.g, m) * Pow(r, n), p * p, q * q);
    assert Divides(p * p, c);
    DividesProduct(p * p, c, Pow(c, k.lambda - 1));
    ModOfMultiple(Pow(c, k.lambda), p * p, q * q);
  }

  lemma OneModQ(p: nat, q: nat, k: Keys, r: nat, m: nat)
    requires ValidKeys(p, q, k) && 2 <= k.n <= k.n * k.n
    ensures (Pow(Encrypt(m, k.n, k.g, r), k.lambda) % (k.n * k.n)) % q == Pow(Pow(r, k.n), k.lambda) % q
  {
    var n, nn := k.n, k.n * k.n;
    var c := Encrypt(m, n, k.g, r);
    EncryptResidue(m, n, k.g, r);
    MulPositive(p, n);
    assert nn == q * (p * n) by { MulAssoc(p, q, n); MulRotate(p, q, n); }
    ModAddMul(1, p, q);
    PowCong(k.g, 1, m, q);
    PowOne(m);
    var u, v := Pow(k.g, m), Pow(r, n);
    CongMul(u, 1, v, v, q);
    ModOfMultiple(c, q, p * n);
    ModOfMultiple(u * v, q, p * n);
    PowCong(c, v, k.lambda, q);
    ModOfMultiple(Pow(c, k.lambda), q, p * n);
  }

  /** Exactly the blinders coprime to n make every message survive: the key
      generation draws r below n without checking this. */
  lemma BlinderCondition(p: nat, q: nat, k: Keys, r: nat)
    requires ValidKeys(p, q, k) && r < k.n
    ensures 2 <= k.n <= k.n * k.n
    ensures Coprime(r, k.n) <==>
      forall m: nat :: m < k.n ==> Decrypt(Encrypt(m, k.n, k.g, r), k.n, k.lambda, k.mu) == m
  {
    NTwo(p, q, k);
    if Coprime(r, k.n) {
      forall m: nat | m < k.n
        ensures Decrypt(Encrypt(m, k.n, k.g, r), k.n, k.lambda, k.mu) == m
      {
        RoundTrip(p, q, k, m, r);
        SmallMod(m, k.n);
      }
    } else {
      if Divides(p, r) {
        SharedFactorFails(p, q, k, r);
      } else if Divides(q, r) {
        assert q * p == p * q;
        SharedFactorFails(q, p, k, r);
      } else {
        PrimeCoprime(p, r);
        PrimeCoprime(q, r);
        CoprimeProduct(p, q, r);
        CoprimeSymmetric(p * q, r);
      }
    }
  }

  /** With a shared factor, message 0 or message 1 is already lost. */
  lemma SharedFactorFails(p: nat, q: nat, k: Keys, r: nat)
    requires ValidKeys(p, q, k) && Divides(p, r)
    ensures 2 <= k.n <= k.n * k.n
    ensures exists m: nat :: m < k.n && Decrypt(Encrypt(m, k.n, k.g, r), k.n, k.lambda, k.mu) != m
  {
    SharedFactorForgets(p, q, k, r, 0, 1);
    SmallMod(0, p);
    SmallMod(1, p);
  }
}
