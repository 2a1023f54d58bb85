/** The factoriser of demos/factorize.c: trial division, Pollard's rho and the
    Lucas primality prover, which call each other recursively.  All of it ends: the
    sequence of rho comes back to itself, so every search finds a factor, and among
    the increments tried one after the other there is always one that splits the
    number at the first step. */
module Factorize {
  import opened Arith
  import opened Primes
  import opened Fermat
  import opened MillerRabin

  // ----- the factor list

  /** The number denoted by a list of bases and a list of exponents. */
  function Value(p: seq<nat>, e: seq<nat>): nat
    requires |p| == |e|
  {
    if p == [] then 1
    else
      PowNonNegative(p[0], e[0]);
      MulMono(0, Pow(p[0], e[0]), Value(p[1..], e[1..]));
      Pow(p[0], e[0]) * Value(p[1..], e[1..])
  }

  lemma {:induction false} ValueIncrement(p: seq<nat>, e: seq<nat>, i: nat)
    requires |p| == |e| && i < |p|
    ensures Value(p, e[i := e[i] + 1]) == Value(p, e) * p[i]
    decreases i
  {
    var q, f := p[1..], e[1..];
    assert p == [p[0]] + q && e == [e[0]] + f;
    ValueCons(p[0], e[0], q, f);
    if i == 0 {
      assert e[0 := e[0] + 1] == [e[0] + 1] + f;
      ValueCons(p[0], e[0] + 1, q, f);
      MulAssoc(p[0], Pow(p[0], e[0]), Value(q, f));
    } else {
      assert e[i := e[i] + 1] == [e[0]] + f[i - 1 := f[i - 1] + 1];
      ValueCons(p[0], e[0], q, f[i - 1 := f[i - 1] + 1]);
      ValueIncrement(q, f, i - 1);
      MulAssoc(Pow(p[0], e[0]), Value(q, f), p[i]);
    }
  }

  lemma ValueCons(x: nat, f: nat, p: seq<nat>, e: seq<nat>)
    requires |p| == |e|
    ensures Value([x] + p, [f] + e) == Pow(x, f) * Value(p, e)
  {
    assert ([x] + p)[1..] == p && ([f] + e)[1..] == e;
  }

  lemma {:induction false} ValueInsert(p: seq<nat>, e: seq<nat>, i: nat, x: nat)
    requires |p| == |e| && i <= |p|
    ensures Value(p[..i] + [x] + p[i..], e[..i] + [1] + e[i..]) == Value(p, e) * x
    decreases i
  {
    if i == 0 {
      ValueCons(x, 1, p, e);
      assert p[..0] + [x] + p[0..] == [x] + p && e[..0] + [1] + e[0..] == [1] + e;
      assert Pow(x, 1) == x * Pow(x, 0) == x;
    } else {
      var q, f := p[1..], e[1..];
      assert p == [p[0]] + q && e == [e[0]] + f;
      assert p[..i] + [x] + p[i..] == [p[0]] + (q[..i - 1] + [x] + q[i - 1..]);
      assert e[..i] + [1] + e[i..] == [e[0]] + (f[..i - 1] + [1] + f[i - 1..]);
      ValueInsert(q, f, i - 1, x);
      ValueCons(p[0], e[0], q[..i - 1] + [x] + q[i - 1..], f[..i - 1] + [1] + f[i - 1..]);
      MulAssoc(Pow(p[0], e[0]), Value(q, f), x);
    }
  }

  ghost predicate Ordered(p: seq<nat>, e: seq<nat>) {
    && |p| == |e|
    && (forall i, j :: 0 <= i < j < |p| ==> p[i] < p[j])
    && (forall i :: 0 <= i < |e| ==> 1 <= e[i])
  }

  /** The exponent of x in a list. */
  ghost function ExponentOf(p: seq<nat>, e: seq<nat>, x: nat): nat
    requires Ordered(p, e)
  {
    if i :| 0 <= i < |p| && p[i] == x then e[i] else 0
  }

  lemma InsertKeepsOrder(p: seq<nat>, e: seq<nat>, i: nat, x: nat)
    requires Ordered(p, e) && i <= |p|
    requires i > 0 ==> p[i - 1] < x
    requires i < |p| ==> x < p[i]
    ensures Ordered(p[..i] + [x] + p[i..], e[..i] + [1] + e[i..])
  {
    var p', e' := p[..i] + [x] + p[i..], e[..i] + [1] + e[i..];
    forall j, k | 0 <= j < k < |p'|
      ensures p'[j] < p'[k]
    {
      assert p'[j] == if j < i then p[j] else if j == i then x else p[j - 1];
      assert p'[k] == if k < i then p[k] else if k == i then x else p[k - 1];
    }
    forall k | 0 <= k < |e'|
      ensures 1 <= e'[k]
    {
      assert e'[k] == if k < i then e[k] else if k == i then 1 else e[k - 1];
    }
  }

  lemma InsertExponent(p: seq<nat>, e: seq<nat>, i: nat, x: nat, y: nat)
    requires Ordered(p, e) && i <= |p|
    requires i > 0 ==> p[i - 1] < x
    requires i < |p| ==> x < p[i]
    requires Ordered(p[..i] + [x] + p[i..], e[..i] + [1] + e[i..])
    ensures ExponentOf(p[..i] + [x] + p[i..], e[..i] + [1] + e[i..], y)
         == ExponentOf(p, e, y) + (if y == x then 1 else 0)
  {
    hide ExponentOf, Ordered;
    SameLength(p, e);
    var p', e' := p[..i] + [x] + p[i..], e[..i] + [1] + e[i..];
    ExponentIs(p', e', i);
    if k :| 0 <= k < |p| && p[k] == y {
      ExponentIs(p, e, k);
      ExponentIs(p', e', if k < i then k else k + 1);
      NotBetween(p, e, i, x, k);
    } else {
      ExponentAbsent(p, e, y);
      if y != x {
        forall k | 0 <= k < |p'|
          ensures p'[k] != y
        {
          assert k == i || p'[k] == p[if k < i then k else k - 1];
        }
        ExponentAbsent(p', e', y);
      }
    }
  }

  lemma SameLength(p: seq<nat>, e: seq<nat>)
    requires Ordered(p, e)
    ensures |p| == |e|
  {
  }

  lemma ExponentIs(p: seq<nat>, e: seq<nat>, i: nat)
    requires Ordered(p, e) && i < |p|
    ensures |e| == |p| && ExponentOf(p, e, p[i]) == e[i]
  {
  }

  lemma ExponentAbsent(p: seq<nat>, e: seq<nat>, y: nat)
    requires Ordered(p, e) && forall k :: 0 <= k < |p| ==> p[k] != y
    ensures ExponentOf(p, e, y) == 0
  {
  }

  lemma NotBetween(p: seq<nat>, e: seq<nat>, i: nat, x: nat, k: nat)
    requires Ordered(p, e) && i <= |p| && k < |p|
    requires (i > 0 ==> p[i - 1] < x) && (i < |p| ==> x < p[i])
    ensures p[k] != x && |e| == |p|
  {
  }

  /** What one insertion does: the number denoted is multiplied by x, the
      exponent of x grows by one and every other exponent stays. */
  ghost predicate InsertedOnce(p: seq<nat>, e: seq<nat>, p': seq<nat>, e': seq<nat>, x: nat)
    requires Ordered(p, e)
  {
    && Ordered(p', e')
    && Value(p', e') == Value(p, e) * x
    && (forall y: nat :: ExponentOf(p', e', y) == ExponentOf(p, e, y) + (if y == x then 1 else 0))
    && (forall y :: y in p' <==> y in p || y == x)
  }

  lemma InsertedFacts(p: seq<nat>, e: seq<nat>, p': seq<nat>, e': seq<nat>, x: nat)
    requires Ordered(p, e) && InsertedOnce(p, e, p', e', x)
    ensures Ordered(p', e') && Value(p', e') == Value(p, e) * x
    ensures (forall i :: 0 <= i < |p| ==> IsPrime(p[i])) && IsPrime(x) ==> forall i :: 0 <= i < |p'| ==> IsPrime(p'[i])
    ensures forall y :: y in p' ==> y in p || y == x
  {
    hide Value, ExponentOf, IsPrime;
    forall i | 0 <= i < |p'| ensures p'[i] in p || p'[i] == x {
      assert p'[i] in p';
    }
  }

  lemma InsertNew(p: seq<nat>, e: seq<nat>, i: nat, x: nat)
    requires Ordered(p, e) && i <= |p|
    requires i > 0 ==> p[i - 1] < x
    requires i < |p| ==> x < p[i]
    ensures InsertedOnce(p, e, p[..i] + [x] + p[i..], e[..i] + [1] + e[i..], x)
  {
    ValueInsert(p, e, i, x);
    InsertKeepsOrder(p, e, i, x);
    forall y: nat
      ensures ExponentOf(p[..i] + [x] + p[i..], e[..i] + [1] + e[i..], y)
           == ExponentOf(p, e, y) + (if y == x then 1 else 0)
    {
      InsertExponent(p, e, i, x, y);
    }
    assert p == p[..i] + p[i..];
  }

  lemma InsertAgain(p: seq<nat>, e: seq<nat>, i: nat)
    requires Ordered(p, e) && i < |p|
    ensures InsertedOnce(p, e, p, e[i := e[i] + 1], p[i])
  {
    ValueIncrement(p, e, i);
  }

  /** Entries moved up by one from i on leave a slot for x. */
  lemma ShiftedUp(s0: seq<nat>, s: seq<nat>, i: nat, x: nat)
    requires i <= |s0| && |s| == |s0| + 1 && s[i] == x
    requires forall k :: 0 <= k < i ==> s[k] == s0[k]
    requires forall k :: i < k <= |s0| ==> s[k] == s0[k - 1]
    ensures s == s0[..i] + [x] + s0[i..]
  {
  }

  class Factors {
    var p: seq<nat>
    var e: seq<nat>

    /** Strictly increasing bases with positive exponents. */
    ghost predicate Valid()
      reads this
    {
      Ordered(p, e)
    }

    ghost predicate AllPrime()
      reads this
    {
      forall i :: 0 <= i < |p| ==> IsPrime(p[i])
    }

    ghost function Denoted(): nat
      requires Valid()
      reads this
    {
      Value(p, e)
    }

    constructor ()
      ensures Valid() && AllPrime() && Denoted() == 1
    {
      p, e := [], [];
    }

    method Init()
      modifies this
      ensures Valid() && AllPrime() && Denoted() == 1
    {
      p, e := [], [];
    }

    /** Grow both arrays by one and shift the entries from i upwards. */
    method OpenSlot(i: nat, prime: nat)
      requires |p| == |e| && i <= |p|
      modifies this
      ensures p == old(p)[..i] + [prime] + old(p)[i..]
      ensures e == old(e)[..i] + [1] + old(e)[i..]
    {
      ghost var p0, e0 := p, e;
      var nfactors := |p|;
      p := p + [0];
      e := e + [0];
      var j := nfactors;
      while j > i
        invariant i <= j <= nfactors
        invariant |p| == |e| == nfactors + 1
        invariant forall k :: 0 <= k < j ==> p[k] == p0[k] && e[k] == e0[k]
        invariant forall k :: j < k <= nfactors ==> p[k] == p0[k - 1] && e[k] == e0[k - 1]
      {
        p := p[j := p[j - 1]];
        e := e[j := e[j - 1]];
        j := j - 1;
      }
      p := p[i := prime];
      e := e[i := 1];
      ShiftedUp(p0, p, i, prime);
      ShiftedUp(e0, e, i, 1);
    }

    /** Insert one more copy of a number, keeping the list ordered. */
    method FactorInsert(prime: nat)
      requires Valid()
      modifies this
      ensures Valid() && InsertedOnce(old(p), old(e), p, e, prime)
      ensures Denoted() == old(Denoted()) * prime
      ensures old(AllPrime()) && IsPrime(prime) ==> AllPrime()
      ensures forall y :: y in p ==> y in old(p) || y == prime
    {
      hide Value, ExponentOf, IsPrime, InsertedOnce;
      ghost var p0, e0 := p, e;
      var nfactors := |p|;
      var i := nfactors - 1;
      while i >= 0 && p[i] > prime
        invariant -1 <= i < nfactors
        invariant forall k :: i < k < nfactors ==> p[k] > prime
      {
        i := i - 1;
      }
      if i < 0 || p[i] != prime {
        InsertNew(p, e, i + 1, prime);
        OpenSlot(i + 1, prime);
      } else {
        InsertAgain(p, e, i);
        e := e[i := e[i] + 1];
      }
      InsertedFacts(p0, e0, p, e, prime);
    }
  }

  // ----- the table of small primes

  /** Differences between consecutive primes from 2 on, the first prime past the
      table, and the byte that one read past the end of the table delivers. */
  datatype PrimeTable = PrimeTable(diffs: seq<nat>, firstOmitted: nat, spare: nat)

  function PrimeAt(diffs: seq<nat>, i: nat): nat
    requires i <= |diffs|
  {
    if i == 0 then 2 else PrimeAt(diffs, i - 1) + diffs[i - 1]
  }

  ghost predicate ValidTable(t: PrimeTable) {
    && 1 <= |t.diffs| && PrimeAt(t.diffs, 1) == 3
    && (forall i :: 0 <= i <= |t.diffs| ==> IsPrime(PrimeAt(t.diffs, i)))
    && (forall i, x :: 0 <= i < |t.diffs| && PrimeAt(t.diffs, i) < x < PrimeAt(t.diffs, i + 1) ==> !IsPrime(x))
    && PrimeAt(t.diffs, |t.diffs|) < t.firstOmitted
    && (forall x :: PrimeAt(t.diffs, |t.diffs|) < x < t.firstOmitted ==> !IsPrime(x))
  }

  lemma {:induction false} PrimeAtBounded(t: PrimeTable, i: nat)
    requires ValidTable(t) && i <= |t.diffs|
    ensures 2 <= PrimeAt(t.diffs, i) < t.firstOmitted
    decreases |t.diffs| - i
  {
    assert IsPrime(PrimeAt(t.diffs, i));
    if i < |t.diffs| { PrimeAtBounded(t, i + 1); }
  }

  /** No divisor from 2 up to but not including d. */
  ghost predicate Rough(n: nat, d: nat) {
    forall x :: 2 <= x < d ==> !Divides(x, n)
  }

  /** What trial division leaves for the primality test. */
  ghost predicate CastOut(n: nat, t: PrimeTable) {
    n <= 1 || IsPrime(n) || Rough(n, t.firstOmitted)
  }

  lemma RoughExtend(n: nat, p: nat, d: nat)
    requires 2 <= p && Rough(n, p) && !Divides(p, n)
    requires forall x :: p < x < d ==> !IsPrime(x)
    ensures Rough(n, d)
  {
    forall x | 2 <= x < d
      ensures !Divides(x, n)
    {
      if x > p {
        var q := CompositeHasSmallFactor(x);
        if Divides(x, n) { DividesTrans(q, x, n); }
      }
    }
  }

  lemma RoughSmallIsPrime(n: nat, d: nat)
    requires 2 <= n < d * d && Rough(n, d)
    ensures IsPrime(n)
  {
    if !IsPrime(n) {
      var q := CompositeHasSmallFactor(n);
      MulMono(d, q, d);
      MulMono(d, q, q);
    }
  }

  lemma RoughDivisor(n: nat, m: nat, d: nat)
    requires 0 < m && Divides(m, n) && Rough(n, d)
    ensures Rough(m, d)
  {
    forall x | 2 <= x < d
      ensures !Divides(x, m)
    {
      if Divides(x, m) { DividesTrans(x, m, n); }
    }
  }

  lemma PrimeIsRough(n: nat, d: nat)
    requires IsPrime(n) && d <= n
    ensures Rough(n, d)
  {
  }

  /** Divide out the factors 2: the trailing zero bits of t. */
  method RemoveTwos(t0: nat, factors: Factors) returns (t: nat)
    requires 1 <= t0 && factors.Valid() && factors.AllPrime()
    modifies factors
    ensures factors.Valid() && factors.AllPrime()
    ensures 1 <= t && t % 2 == 1 && factors.Denoted() * t == old(factors.Denoted()) * t0
  {
    hide Pow, IsPrime, Divides;
    var s := Scan1(t0);
    t := t0 / Pow(2, s);
    ghost var m := factors.Denoted();
    OddPart(t0, Pow(2, s), t);
    MulAssoc(m, Pow(2, s), t);
    TwoIsPrime();
    while s > 0
      invariant factors.Valid() && factors.AllPrime()
      invariant (factors.Denoted() * Pow(2, s)) * t == m * t0
    {
      PowStep(2, s);
      MulAssoc(factors.Denoted(), 2, Pow(2, s - 1));
      factors.FactorInsert(2);
      s := s - 1;
    }
    PowZero(2);
  }

  lemma OddPart(t0: nat, p: int, t: int)
    requires 1 <= t0 && 0 < p && Divides(p, t0) && t == t0 / p
    ensures 1 <= t && t0 == p * t
  {
    var k := DividesQuotient(p, t0);
  }

  lemma DivideOut(t: nat, p: nat, d: nat)
    requires 1 <= t && 2 <= p && Divides(p, t) && Rough(t, p)
    ensures 1 <= t / p < t && Rough(t / p, p) && (d * p) * (t / p) == d * t
  {
    var k := DividesQuotient(p, t);
    DividesFrom(k, p, t);
    RoughDivisor(t, k, p);
    MulAssoc(d, p, k);
    MulMono(2, p, k);
  }

  method FactorUsingDivision(t0: nat, factors: Factors, table: PrimeTable) returns (t: nat)
    requires 1 <= t0 && factors.Valid() && factors.AllPrime() && ValidTable(table)
    modifies factors
    ensures factors.Valid() && factors.AllPrime()
    ensures 1 <= t && factors.Denoted() * t == old(factors.Denoted()) * t0
    ensures CastOut(t, table)
  {
    t := RemoveTwos(t0, factors);
    var p := 3;
    var i := 1;
    while i <= |table.diffs|
      invariant 1 <= i <= |table.diffs| + 1 && 1 <= t
      invariant factors.Valid() && factors.AllPrime()
      invariant factors.Denoted() * t == old(factors.Denoted()) * t0
      invariant i <= |table.diffs| ==> p == PrimeAt(table.diffs, i) && Rough(t, p)
      invariant i == |table.diffs| + 1 ==> Rough(t, table.firstOmitted)
      decreases |table.diffs| + 1 - i, t
    {
      assert IsPrime(p);
      if t % p != 0 {
        if i < |table.diffs| {
          RoughExtend(t, p, PrimeAt(table.diffs, i + 1));
          p := p + table.diffs[i];
        } else {
          RoughExtend(t, p, table.firstOmitted);
          p := p + table.spare;
        }
        i := i + 1;
        if t < p * p {
          if i <= |table.diffs| && 2 <= t { RoughSmallIsPrime(t, p); }
          break;
        }
      } else {
        DivideOut(t, p, factors.Denoted());
        t := t / p;
        factors.FactorInsert(p);
      }
    }
  }

  // ----- primality proof, rho and the driver

  datatype Answer = Yes | No | Aborted

  lemma {:induction false} PrimeDividesValue(p: seq<nat>, e: seq<nat>, q: nat)
    requires |p| == |e| && IsPrime(q) && Divides(q, Value(p, e))
    requires forall i :: 0 <= i < |p| ==> IsPrime(p[i])
    ensures q in p
    decreases |p|
  {
    hide Divides, Pow;
    if p == [] {
      var k := DividesQuotient(q, 1);
    } else {
      PowNonNegative(p[0], e[0]);
      EuclidsLemma(q, Pow(p[0], e[0]), Value(p[1..], e[1..]));
      if Divides(q, Pow(p[0], e[0])) {
        PrimeDividesPow(q, p[0], e[0]);
        PrimeDividesPrime(q, p[0]);
      } else {
        PrimeDividesValue(p[1..], e[1..], q);
      }
    }
  }

  ghost predicate PowerIsOne(a: nat, n: nat, p: nat)
    requires 2 <= n && 1 <= p
  {
    ExponentNonNegative(n - 1, p);
    Pow(a, (n - 1) / p) % n == 1
  }

  /** No a^((n-1)/f) is 1 modulo n for a listed f. */
  ghost predicate OrderOk(a: nat, n: nat, p: seq<nat>)
    requires 2 <= n
  {
    forall j :: 0 <= j < |p| && 1 <= p[j] ==> !PowerIsOne(a, n, p[j])
  }

  /** The order test against every listed prime factor of n - 1 proves n prime. */
  lemma LucasFromList(a: nat, n: nat, p: seq<nat>, e: seq<nat>)
    requires 2 <= n && Pow(a, n - 1) % n == 1
    requires |p| == |e| && Value(p, e) == n - 1
    requires (forall i :: 0 <= i < |p| ==> IsPrime(p[i])) && OrderOk(a, n, p)
    ensures IsPrime(n)
  {
    hide Pow, Divides;
    forall q | IsPrime(q) && Divides(q, n - 1)
      ensures Pow(a, (n - 1) / q) % n != 1
    {
      PrimeDividesValue(p, e, q);
      var i :| 0 <= i < |p| && p[i] == q;
      assert !PowerIsOne(a, n, p[i]);
    }
    LucasPrimality(a, n);
  }

  lemma OrderOkAt(a: nat, n: nat, p: seq<nat>, j: nat)
    requires 2 <= n && j < |p| && 1 <= p[j]
    ensures OrderOk(a, n, p) ==> !PowerIsOne(a, n, p[j])
  {
  }

  lemma NotOrderOk(a: nat, n: nat, p: seq<nat>) returns (j: nat)
    requires 2 <= n && !OrderOk(a, n, p)
    ensures j < |p| && 1 <= p[j] && PowerIsOne(a, n, p[j])
  {
    j :| j < |p| && 1 <= p[j] && PowerIsOne(a, n, p[j]);
  }

  lemma OrderOkListed(a: nat, n: nat, p: seq<nat>)
    requires 2 <= n
    ensures OrderOk(a, n, p) <==>
      forall f :: f in p && 1 <= f && 0 <= (n - 1) / f ==> Pow(a, (n - 1) / f) % n != 1
  {
    hide Pow, Divides, OrderOk;
    forall f | f in p && 1 <= f
      ensures OrderOk(a, n, p) ==> 0 <= (n - 1) / f && Pow(a, (n - 1) / f) % n != 1
    {
      ExponentNonNegative(n - 1, f);
      var j :| 0 <= j < |p| && p[j] == f;
      OrderOkAt(a, n, p, j);
    }
    if !OrderOk(a, n, p) {
      var j := NotOrderOk(a, n, p);
      ExponentNonNegative(n - 1, p[j]);
      assert p[j] in p;
    }
  }

  /** Lucas's order test to base a against the listed factors of n - 1. */
  method OrderTest(n: nat, nm1: nat, a: nat, factors: Factors) returns (isPrime: bool)
    requires 2 <= n && nm1 == n - 1 && factors.Valid() && factors.AllPrime()
    ensures isPrime <==> OrderOk(a, n, factors.p)
    ensures isPrime <==> forall f :: f in factors.p && 1 <= f && 0 <= (n - 1) / f ==> Pow(a, (n - 1) / f) % n != 1
  {
    OrderOkListed(a, n, factors.p);
    hide Pow, Divides;
    isPrime := true;
    var i := 0;
    while i < |factors.p| && isPrime
      invariant 0 <= i <= |factors.p|
      invariant isPrime ==> forall j :: 0 <= j < i && 1 <= factors.p[j] ==> !PowerIsOne(a, n, factors.p[j])
      invariant !isPrime ==> !OrderOk(a, n, factors.p)
    {
      assert IsPrime(factors.p[i]);
      var tmp := nm1 / factors.p[i];
      ExponentNonNegative(nm1, factors.p[i]);
      assert PowerIsOne(a, n, factors.p[i]) <==> Pow(a, tmp) % n == 1;
      tmp := Pow(a, tmp) % n;
      isPrime := tmp != 1;
      i := i + 1;
    }
  }

  lemma ExponentNonNegative(m: nat, p: nat)
    requires 1 <= p
    ensures 0 <= m / p
  {
    if m / p < 0 { MulMono(m / p, -1, p); }
  }

  /** a proves n prime, once a^(n-1) is 1: no a^((n-1)/f) is 1 for a prime f dividing
      n - 1. */
  ghost predicate LucasWitness(a: nat, n: nat)
    requires 2 <= n
  {
    forall f: nat :: IsPrime(f) && Divides(f, n - 1) ==> !PowerIsOne(a, n, f)
  }

  lemma {:induction false} EntryDividesValue(p: seq<nat>, e: seq<nat>, i: nat)
    requires |p| == |e| && i < |p| && 1 <= p[i] && 1 <= e[i]
    ensures Divides(p[i], Value(p, e))
    decreases i
  {
    hide Divides, Pow;
    PowNonNegative(p[0], e[0]);
    if i == 0 {
      PowStep(p[0], e[0]);
      DividesFrom(p[0], 1, p[0]);
      DividesProduct(p[0], p[0], Pow(p[0], e[0] - 1));
      DividesProduct(p[0], Pow(p[0], e[0]), Value(p[1..], e[1..]));
    } else {
      EntryDividesValue(p[1..], e[1..], i - 1);
      DividesProduct(p[i], Value(p[1..], e[1..]), Pow(p[0], e[0]));
    }
  }

  /** Testing the listed factors of n - 1 is testing all its prime factors. */
  lemma OrderOkIff(a: nat, n: nat, p: seq<nat>, e: seq<nat>)
    requires 2 <= n && Ordered(p, e) && Value(p, e) == n - 1
    requires forall i :: 0 <= i < |p| ==> IsPrime(p[i])
    ensures OrderOk(a, n, p) <==> LucasWitness(a, n)
  {
    hide Value, Divides, PowerIsOne;
    if OrderOk(a, n, p) {
      forall f: nat | IsPrime(f) && Divides(f, n - 1)
        ensures !PowerIsOne(a, n, f)
      {
        PrimeDividesValue(p, e, f);
        var i :| 0 <= i < |p| && p[i] == f;
        assert !PowerIsOne(a, n, p[i]);
      }
    }
    forall j | 0 <= j < |p| && 1 <= p[j]
      ensures LucasWitness(a, n) ==> !PowerIsOne(a, n, p[j])
    {
      EntryDividesValue(p, e, j);
    }
  }

  const MR_REPS: nat := 25

  /** The Miller-Rabin test to one base, with n - 1 split as the code splits it. */
  ghost predicate PassesBase(n: nat, a: nat)
    requires 2 <= n
  {
    var k := Scan1(n - 1);
    PowPositive(2, k);
    ExponentNonNegative(n - 1, Pow(2, k));
    Passes(n, a, (n - 1) / Pow(2, k), k)
  }

  /** The test in powers of the base, for n - 1 = 2^k q with q odd. */
  lemma PassesBaseInPowers(n: nat, a: nat, k: nat, q: nat)
    requires 2 <= n && n - 1 == Pow(2, k) * q && q % 2 == 1
    ensures PassesBase(n, a) <==>
      (Pow(a, q) % n == 1
       || exists i: nat :: i < k && 0 <= Pow(2, i) * q && Pow(a, Pow(2, i) * q) % n == n - 1)
  {
    hide Pow, Passes, Scan1;
    SplitUnique(n - 1, k, q);
    PassesInPowers(n, a, q, k);
  }

  /** A square root of 1 that shows n composite is seen by the test. */
  lemma FalseRootSeen(n: nat, a: nat, k: nat, q: nat, i: nat)
    requires 3 <= n && n - 1 == Pow(2, k) * q && q % 2 == 1
    requires i < k && 0 <= Pow(2, i) * q && 0 <= Pow(2, i + 1) * q
    requires Pow(a, Pow(2, i + 1) * q) % n == 1
    requires Pow(a, Pow(2, i) * q) % n != 1 && Pow(a, Pow(2, i) * q) % n != n - 1
    ensures !PassesBase(n, a) && FalseRoot(n, a)
  {
    hide Pow, Passes, Scan1;
    SplitUnique(n - 1, k, q);
    FalseRootFails(n, a, q, k, i);
  }

  /** Among the powers of a that the test looks at there is a square root of 1 other
      than 1 and -1. */
  ghost predicate FalseRoot(n: nat, a: nat) {
    exists k: nat, q: nat, i: nat ::
      && 3 <= n && n - 1 == Pow(2, k) * q && q % 2 == 1
      && i < k && 0 <= Pow(2, i) * q && 0 <= Pow(2, i + 1) * q
      && Pow(a, Pow(2, i + 1) * q) % n == 1
      && Pow(a, Pow(2, i) * q) % n != 1 && Pow(a, Pow(2, i) * q) % n != n - 1
  }

  lemma FalseRootsSeen(n: nat, a: nat)
    requires 2 <= n && FalseRoot(n, a)
    ensures !PassesBase(n, a)
  {
    hide Pow, Passes, Scan1;
    var k: nat, q: nat, i: nat :|
      && 3 <= n && n - 1 == Pow(2, k) * q && q % 2 == 1
      && i < k && 0 <= Pow(2, i) * q && 0 <= Pow(2, i + 1) * q
      && Pow(a, Pow(2, i + 1) * q) % n == 1
      && Pow(a, Pow(2, i) * q) % n != 1 && Pow(a, Pow(2, i) * q) % n != n - 1;
    FalseRootSeen(n, a, k, q, i);
  }

  /** The first m prime bases pass the test. */
  ghost predicate AllPass(n: nat, table: PrimeTable, m: nat)
    requires 2 <= n && m <= |table.diffs| + 1
  {
    forall i :: 0 <= i < m ==> PassesBase(n, PrimeAt(table.diffs, i))
  }

  /** The numbers at which the code aborts: every base of the table passes, and none
      that is tried ends the loop. */
  ghost predicate Stuck(n: nat, prove: bool, table: PrimeTable) {
    && 2 <= n && table.firstOmitted * table.firstOmitted <= n
    && AllPass(n, table, |table.diffs| + 1)
    && if prove then forall i :: 0 <= i < |table.diffs| ==> !LucasWitness(PrimeAt(table.diffs, i), n)
       else |table.diffs| < MR_REPS
  }

  ghost predicate StuckUpTo(n: nat, prove: bool, table: PrimeTable) {
    exists m: nat :: m <= n && Stuck(m, prove, table)
  }

  lemma StuckAbove(m: nat, n: nat, prove: bool, table: PrimeTable)
    requires m <= n && StuckUpTo(m, prove, table)
    ensures StuckUpTo(n, prove, table) && table.firstOmitted * table.firstOmitted <= n
  {
  }

  /** What is known of a number taken for prime: with proving off (the -w option) it
      may also be one that passes the first 25 tests. */
  ghost predicate Accepted(n: nat, prove: bool, table: PrimeTable) {
    IsPrime(n) || (!prove && 2 <= n && MR_REPS <= |table.diffs| && AllPass(n, table, MR_REPS))
  }

  /** With proving off an accepted number is prime or passes at least 25 bases. */
  lemma AcceptedMeans(n: nat, table: PrimeTable)
    ensures Accepted(n, true, table) <==> IsPrime(n)
    ensures Accepted(n, false, table) && !IsPrime(n) ==>
      2 <= n && 25 <= |table.diffs| && forall i :: 0 <= i < 25 ==> PassesBase(n, PrimeAt(table.diffs, i))
  {
    hide IsPrime, PassesBase;
  }

  /** No witness: each power that Lucas's test asks about, for a prime factor of n - 1. */
  lemma LucasWitnessMeans(a: nat, n: nat)
    requires 2 <= n
    ensures LucasWitness(a, n) <==>
      forall f: nat :: IsPrime(f) && Divides(f, n - 1) && 0 <= (n - 1) / f ==> Pow(a, (n - 1) / f) % n != 1
  {
    hide Pow, Divides;
    forall f: nat | IsPrime(f)
      ensures 0 <= (n - 1) / f
      ensures PowerIsOne(a, n, f) <==> Pow(a, (n - 1) / f) % n == 1
    {
      ExponentNonNegative(n - 1, f);
    }
  }

  /** What is known of a number at which the code aborts ... */
  lemma StuckMeans(n: nat, prove: bool, table: PrimeTable)
    requires Stuck(n, prove, table)
    ensures 2 <= n && table.firstOmitted * table.firstOmitted <= n
    ensures forall i :: 0 <= i <= |table.diffs| ==> PassesBase(n, PrimeAt(table.diffs, i))
    ensures prove ==> forall i :: 0 <= i < |table.diffs| ==> !LucasWitness(PrimeAt(table.diffs, i), n)
    ensures !prove ==> |table.diffs| < 25
  {
    hide PassesBase, LucasWitness;
  }

  /** ... and this is all that makes it abort. */
  lemma StuckWhen(n: nat, prove: bool, table: PrimeTable)
    requires 2 <= n && table.firstOmitted * table.firstOmitted <= n
    requires forall i :: 0 <= i <= |table.diffs| ==> PassesBase(n, PrimeAt(table.diffs, i))
    requires prove ==> forall i :: 0 <= i < |table.diffs| ==> !LucasWitness(PrimeAt(table.diffs, i), n)
    requires !prove ==> |table.diffs| < 25
    ensures Stuck(n, prove, table)
  {
    hide PassesBase, LucasWitness;
  }

  ghost predicate AllAccepted(p: seq<nat>, prove: bool, table: PrimeTable) {
    forall x :: x in p ==> Accepted(x, prove, table)
  }

  /** The primality test.  No means composite, Yes means prime or, with proving off,
      25 passed tests; it aborts only if there is a number up to n to abort at. */
  method MpPrimeP(n: nat, prove: bool, table: PrimeTable) returns (answer: Answer)
    requires ValidTable(table) && CastOut(n, table)
    ensures answer == No ==> !IsPrime(n)
    ensures answer == Yes ==> Accepted(n, prove, table)
    ensures n <= 1 ==> answer == No
    ensures 2 <= n < table.firstOmitted * table.firstOmitted ==> answer == Yes
    ensures table.firstOmitted * table.firstOmitted <= n && 2 <= n && !PassesBase(n, 2) ==> answer == No
    ensures table.firstOmitted * table.firstOmitted <= n && 2 <= n && FalseRoot(n, 2) ==> answer == No
    ensures Stuck(n, prove, table) ==> answer == Aborted
    ensures answer == Aborted ==> StuckUpTo(n, prove, table)
    decreases n, 0, 0
  {
    hide AllPass, PassesBase, LucasWitness, Rough, FalseRoot;
    if FalseRoot(n, 2) && 2 <= n { FalseRootsSeen(n, 2); }
    if n <= 1 {
      return No;
    }
    if n < table.firstOmitted * table.firstOmitted {
      if !IsPrime(n) { RoughSmallIsPrime(n, table.firstOmitted); }
      return Yes;
    }
    TableBounds(n, table);
    var nm1 := n - 1;
    var k := Scan1(nm1);
    var q := nm1 / Pow(2, k);
    RoughIsOdd(n, table, k);
    var passed := MpMillerrabin(n, nm1, 2, q, k);
    BaseIs(n, 2, q, k);
    if !passed {
      BaseBelow(n, 2, q, k);
      StuckPassesTwo(n, prove, table);
      return No;
    }
    var factors := new Factors();
    if prove {
      var done := Factor(nm1, factors, prove, table);
      if !done {
        StuckAbove(nm1, n, prove, table);
        return Aborted;
      }
    }
    answer := TryBases(n, nm1, q, k, factors, prove, table);
  }

  lemma BaseIs(n: nat, a: nat, q: nat, k: nat)
    requires 2 <= n && k == Scan1(n - 1) && 0 < Pow(2, k) && q == (n - 1) / Pow(2, k)
    ensures PassesBase(n, a) <==> Passes(n, a, q, k)
  {
  }

  lemma StuckPassesTwo(n: nat, prove: bool, table: PrimeTable)
    ensures Stuck(n, prove, table) ==> PassesBase(n, 2)
  {
    if Stuck(n, prove, table) { assert PassesBase(n, PrimeAt(table.diffs, 0)); }
  }

  /** Run through the prime bases until Lucas's test proves n prime or the
      Miller-Rabin test shows it composite. */
  method TryBases(n: nat, nm1: nat, q: nat, k: nat, factors: Factors, prove: bool, table: PrimeTable)
    returns (answer: Answer)
    requires ValidTable(table) && 3 <= n && table.firstOmitted <= n && nm1 == n - 1
    requires table.firstOmitted * table.firstOmitted <= n
    requires 1 <= k == Scan1(nm1) && 0 < Pow(2, k) && q == nm1 / Pow(2, k) && nm1 == Pow(2, k) * q
    requires Passes(n, 2, q, k)
    requires factors.Valid() && factors.AllPrime() && (prove ==> factors.Denoted() == nm1)
    ensures answer == No ==> !IsPrime(n)
    ensures answer == Yes ==> Accepted(n, prove, table)
    ensures answer == Aborted <==> Stuck(n, prove, table)
  {
    hide Passes, PassesBase, OrderOk, LucasWitness, Pow, IsPrime, Divides, ValidTable, Scan1, Value;
    var a := 2;
    var r := 0;
    BaseIs(n, 2, q, k);
    while r < |table.diffs|
      invariant 0 <= r <= |table.diffs|
      invariant a == PrimeAt(table.diffs, r)
      invariant Passes(n, a, q, k) && AllPass(n, table, r + 1)
      invariant prove ==> forall i :: 0 <= i < r ==> !LucasWitness(PrimeAt(table.diffs, i), n)
      invariant !prove ==> r < MR_REPS
    {
      var isPrime;
      if prove {
        isPrime := OrderTest(n, nm1, a, factors);
        OrderOkIff(a, n, factors.p, factors.e);
        if isPrime {
          PassesImpliesFermat(n, a, q, k);
          LucasFromList(a, n, factors.p, factors.e);
        }
      } else {
        isPrime := r == MR_REPS - 1;
      }
      if isPrime {
        return Yes;
      }
      PrimeAtBounded(table, r + 1);
      a := a + table.diffs[r];
      var passed := MpMillerrabin(n, nm1, a, q, k);
      BaseIs(n, a, q, k);
      if !passed {
        BaseBelow(n, a, q, k);
        assert !PassesBase(n, PrimeAt(table.diffs, r + 1));
        return No;
      }
      r := r + 1;
    }
    return Aborted;
  }

  lemma TableBounds(n: nat, table: PrimeTable)
    requires ValidTable(table) && table.firstOmitted * table.firstOmitted <= n
    ensures 4 <= table.firstOmitted <= n
  {
    PrimeAtBounded(table, 1);
    MulMono(1, table.firstOmitted, table.firstOmitted);
  }

  lemma BaseBelow(n: nat, a: nat, q: nat, k: nat)
    requires 3 <= n && 2 <= a < n && n - 1 == Pow(2, k) * q && !Passes(n, a, q, k)
    ensures !IsPrime(n)
  {
    if IsPrime(n) {
      if Divides(n, a) { var j := DividesQuotient(n, a); }
      PrimePasses(n, a, q, k);
    }
  }

  lemma EvenScan(m: nat)
    requires 0 < m && m % 2 == 0
    ensures 1 <= Scan1(m)
  {
  }

  lemma RoughIsOdd(n: nat, table: PrimeTable, k: nat)
    requires ValidTable(table) && CastOut(n, table) && 4 <= table.firstOmitted <= n
    requires k == Scan1(n - 1)
    ensures 1 <= k && 0 < Pow(2, k) && n - 1 == Pow(2, k) * ((n - 1) / Pow(2, k))
    ensures 0 <= (n - 1) / Pow(2, k)
  {
    if IsPrime(n) { PrimeIsRough(n, table.firstOmitted); }
    assert !Divides(2, n);
    EvenScan(n - 1);
    var j := DividesQuotient(Pow(2, k), n - 1);
  }

  function Abs(x: int): nat {
    if x < 0 then -x else x
  }

  /** One step of the rho sequence. */
  function RhoStep(x: int, n: nat, a: nat): int
    requires 1 <= n
  {
    (x * x) % n + a
  }

  /** x^2 + a, with the reduction before the addition; and the same sequence without
      reductions. */
  lemma StepInPowers(x: int, n: nat, a: nat)
    requires 1 <= n
    ensures RhoStep(x, n, a) == Pow(x, 2) % n + a
    ensures Orbit(x, a, 1) == Pow(x, 2) + a && Orbit(x, a, 2) == Pow(Pow(x, 2) + a, 2) + a
  {
    hide Orbit, Pow;
    Squared(x);
    Squared(x * x + a);
    OrbitNext(x, a, 0);
    OrbitNext(x, a, 1);
  }

  lemma Squared(x: int)
    ensures Pow(x, 2) == x * x
  {
    assert Pow(x, 1) == x * Pow(x, 0);
  }

  lemma OrbitNext(x: int, a: nat, j: nat)
    ensures Orbit(x, a, 0) == x && Orbit(x, a, j + 1) == Orbit(x, a, j) * Orbit(x, a, j) + a
  {
  }

  function Accumulate(P: int, z: int, x: int, n: nat): int
    requires 1 <= n
  {
    (P * (z - x)) % n
  }

  /** The state of one rho search. */
  datatype Rho = Rho(x: int, y: int, z: int, P: int, k: nat, l: nat)

  // ----- where the sequence is, modulo the factors of n

  /** The sequence x, x^2 + a, ... without reductions. */
  function Orbit(x: int, a: nat, j: nat): int {
    if j == 0 then x else Orbit(x, a, j - 1) * Orbit(x, a, j - 1) + a
  }

  lemma {:induction false} OrbitAdd(x: int, a: nat, i: nat, j: nat)
    ensures Orbit(Orbit(x, a, i), a, j) == Orbit(x, a, i + j)
    decreases j
  {
    if j > 0 { OrbitAdd(x, a, i, j - 1); }
  }

  lemma {:induction false} OrbitCong(x: int, y: int, a: nat, j: nat, p: nat)
    requires 1 <= p && x % p == y % p
    ensures Orbit(x, a, j) % p == Orbit(y, a, j) % p
    decreases j
  {
    if j > 0 {
      OrbitCong(x, y, a, j - 1, p);
      var u, v := Orbit(x, a, j - 1), Orbit(y, a, j - 1);
      CongMul(u, v, u, v, p);
      CongAdd(u * u, v * v, a, a, p);
    }
  }

  /** x is g steps after z, modulo n. */
  predicate At(x: int, z: int, n: nat, a: nat, g: nat)
    requires 1 <= n
  {
    x % n == Orbit(z, a, g) % n
  }

  lemma AtStep(x: int, z: int, n: nat, a: nat, g: nat)
    requires 1 <= n && At(x, z, n, a, g)
    ensures At(RhoStep(x, n, a), z, n, a, g + 1)
  {
    var o := Orbit(z, a, g);
    ModMod(x * x, n);
    CongMul(x, o, x, o, n);
    CongAdd((x * x) % n, o * o, a, a, n);
  }

  lemma AtDivisor(x: int, z: int, n: nat, a: nat, g: nat, p: nat)
    requires 1 <= n && 1 <= p && Divides(p, n) && At(x, z, n, a, g)
    ensures At(x, z, p, a, g)
  {
    var k := DividesQuotient(p, n);
    assert n == p * k;
    ModOfMultiple(x, p, k);
    ModOfMultiple(Orbit(z, a, g), p, k);
  }

  /** x lies somewhere on the sequence from z, modulo n. */
  ghost predicate OnTrack(x: int, z: int, n: nat, a: nat)
    requires 1 <= n
  {
    exists g: nat :: At(x, z, n, a, g)
  }

  lemma IsOnTrack(x: int, z: int, n: nat, a: nat, g: nat)
    requires 1 <= n && At(x, z, n, a, g)
    ensures OnTrack(x, z, n, a)
  {
  }

  /** Modulo p the sequence from z comes back to z. */
  ghost predicate Cycles(z: int, p: nat, a: nat) {
    1 <= p && exists g: nat :: 1 <= g && At(z, z, p, a, g)
  }

  predicate CommonPrime(p: nat, x: int, n: nat) {
    IsPrime(p) && Divides(p, n) && Divides(p, x)
  }

  /** What every state of a search keeps: x and y are on the sequence from z, and the
      accumulated product only shares those prime factors with n modulo which the
      sequence comes back to z. */
  ghost predicate OnCourse(n: nat, a: nat, s: Rho)
    requires 1 <= n
  {
    && 1 <= s.k && 1 <= s.l && 0 <= s.P
    && OnTrack(s.x, s.z, n, a) && OnTrack(s.y, s.z, n, a)
    && forall p: nat :: CommonPrime(p, s.P, n) ==> Cycles(s.z, p, a)
  }

  /** The j-th number after y shares a factor with n when compared to z. */
  ghost predicate Meets(n: nat, a: nat, y: int, z: int, j: nat)
    requires 1 <= n
  {
    Gcd(Abs(z - Iterate(y, n, a, j)), n) != 1
  }

  /** The sequence from y on. */
  function Iterate(y: int, n: nat, a: nat, j: nat): int
    requires 1 <= n
  {
    if j == 0 then y else RhoStep(Iterate(y, n, a, j - 1), n, a)
  }

  lemma IterateNext(y: int, n: nat, a: nat, j: nat)
    requires 1 <= n
    ensures Iterate(y, n, a, 0) == y && Iterate(y, n, a, j + 1) == RhoStep(Iterate(y, n, a, j), n, a)
  {
  }

  lemma {:induction false} IterateAt(y: int, z: int, n: nat, a: nat, e: nat, j: nat)
    requires 1 <= n && At(y, z, n, a, e)
    ensures At(Iterate(y, n, a, j), z, n, a, e + j)
    decreases j
  {
    if j > 0 {
      IterateAt(y, z, n, a, e, j - 1);
      AtStep(Iterate(y, n, a, j - 1), z, n, a, e + j - 1);
    }
  }

  lemma {:induction false} CycleRepeats(z: int, p: nat, a: nat, g: nat, r: nat)
    requires 1 <= p && At(z, z, p, a, g)
    ensures 0 <= g * r && At(z, z, p, a, g * r)
    decreases r
  {
    MulMono(0, g, r);
    if r > 0 {
      CycleRepeats(z, p, a, g, r - 1);
      MulMono(0, g, r - 1);
      assert g * r == g + g * (r - 1);
      OrbitAdd(z, a, g, g * (r - 1));
      OrbitCong(z, Orbit(z, a, g), a, g * (r - 1), p);
    }
  }

  /** On course with a shared factor, the sequence from y meets z again. */
  lemma WillMeet(n: nat, a: nat, s: Rho) returns (j: nat)
    requires 2 <= n && 0 <= s.P && OnCourse(n, a, s) && Gcd(s.P, n) != 1
    ensures 1 <= j && Meets(n, a, s.y, s.z, j)
  {
    hide Divides, Gcd, IsPrime, Orbit;
    var p := SharedPrime(s.P, n);
    assert CommonPrime(p, s.P, n);
    var g: nat :| 1 <= g && At(s.z, s.z, p, a, g);
    var e: nat :| At(s.y, s.z, n, a, e);
    CycleRepeats(s.z, p, a, g, e + 1);
    MulMono(1, g, e + 1);
    j := g * (e + 1) - e;
    IterateAt(s.y, s.z, n, a, e, j);
    var y' := Iterate(s.y, n, a, j);
    AtDivisor(y', s.z, n, a, e + j, p);
    CongIffDivides(s.z, y', p);
    SharedGcd(s.z - y', n, p);
  }

  lemma SharedPrime(x: nat, n: nat) returns (p: nat)
    requires 2 <= n && Gcd(x, n) != 1
    ensures IsPrime(p) && Divides(p, x) && Divides(p, n)
  {
    GcdDivides(x, n);
    var g := Gcd(x, n);
    p := LeastPrimeFactor(g);
    LeastPrimeFactorIsPrime(g);
    DividesTrans(p, g, x);
    DividesTrans(p, g, n);
  }

  lemma SharedGcd(d: int, n: nat, p: nat)
    requires IsPrime(p) && Divides(p, d) && Divides(p, n)
    ensures Gcd(Abs(d), n) != 1
  {
    DividesNeg(p, d);
    GcdGreatest(p, Abs(d), n);
    if Gcd(Abs(d), n) == 1 { var q := DividesQuotient(p, 1); }
  }

  /** One step of the search. */
  lemma CourseStep(n: nat, a: nat, s: Rho)
    requires 2 <= n && OnCourse(n, a, s)
    ensures var x' := RhoStep(s.x, n, a); OnCourse(n, a, s.(x := x', P := Accumulate(s.P, s.z, x', n)))
  {
    hide Divides, IsPrime, Orbit, At;
    var x' := RhoStep(s.x, n, a);
    var P' := Accumulate(s.P, s.z, x', n);
    var g: nat :| At(s.x, s.z, n, a, g);
    AtStep(s.x, s.z, n, a, g);
    ModMod(s.P * (s.z - x'), n);
    IsOnTrack(x', s.z, n, a, g + 1);
    forall p: nat | CommonPrime(p, P', n)
      ensures Cycles(s.z, p, a)
    {
      PrimeAtLeast2(p);
      ProductShares(s.P, s.z - x', n, p);
      if Divides(p, s.P) {
        assert CommonPrime(p, s.P, n);
      } else {
        AtDivisor(x', s.z, n, a, g + 1, p);
        BackToStart(x', s.z, p, a, g + 1);
      }
    }
  }

  lemma ProductShares(P: nat, d: int, n: nat, p: nat)
    requires IsPrime(p) && 1 <= n && Divides(p, n) && Divides(p, (P * d) % n)
    ensures Divides(p, P) || Divides(p, d)
  {
    hide Divides, IsPrime;
    PrimeAtLeast2(p);
    var k := P * d / n;
    assert P * d == k * n + (P * d) % n;
    DividesProduct(p, n, k);
    DividesSum(p, (P * d) % n, k * n);
    EuclidsLemma(p, P, d);
  }

  lemma BackToStart(x: int, z: int, p: nat, a: nat, g: nat)
    requires 1 <= p && 1 <= g && Divides(p, z - x) && At(x, z, p, a, g)
    ensures Cycles(z, p, a)
  {
    CongIffDivides(z, x, p);
    assert At(z, z, p, a, g);
  }

  lemma NoCommonPrime(x: nat, n: nat)
    requires Gcd(x, n) == 1
    ensures forall p: nat :: !CommonPrime(p, x, n)
  {
    forall p: nat ensures !CommonPrime(p, x, n) {
      if CommonPrime(p, x, n) { SharedGcd(x, n, p); }
    }
  }

  lemma AtStart(x: int, n: nat, a: nat)
    requires 1 <= n
    ensures At(x, x, n, a, 0)
  {
  }

  /** Without a shared factor y may be recorded, or the search may start over from x. */
  lemma CourseRecorded(n: nat, a: nat, s: Rho)
    requires 2 <= n && OnCourse(n, a, s)
    ensures OnCourse(n, a, s.(y := s.x))
  {
  }

  /** Dividing n and reducing the state keeps the course. */
  lemma CourseDivided(n: nat, a: nat, s: Rho, y: int, j: nat, m: nat)
    requires 2 <= n && OnCourse(n, a, s) && y == Iterate(s.y, n, a, j) && 1 <= m && Divides(m, n)
    ensures OnCourse(m, a, s.(x := s.x % m, z := s.z % m, y := y % m))
  {
    hide Divides, IsPrime, Orbit, At, Iterate;
    var e: nat :| At(s.y, s.z, n, a, e);
    IterateAt(s.y, s.z, n, a, e, j);
    var g: nat :| At(s.x, s.z, n, a, g);
    hide OnTrack;
    TrackDivided(s.x, s.z, n, a, g, m);
    TrackDivided(y, s.z, n, a, e + j, m);
    forall p: nat | CommonPrime(p, s.P, m) ensures Cycles(s.z % m, p, a) {
      PrimeAtLeast2(p);
      DividesTrans(p, m, n);
      assert CommonPrime(p, s.P, n);
      var h: nat :| 1 <= h && At(s.z, s.z, p, a, h);
      CycleReduced(s.z, p, a, h, m);
    }
  }

  lemma TrackDivided(x: int, z: int, n: nat, a: nat, g: nat, m: nat)
    requires 1 <= n && 1 <= m && Divides(m, n) && At(x, z, n, a, g)
    ensures OnTrack(x % m, z % m, m, a)
  {
    AtDivisor(x, z, n, a, g, m);
    ModMod(x, m);
    ModMod(z, m);
    OrbitCong(z % m, z, a, g, m);
    assert At(x % m, z % m, m, a, g);
  }

  lemma CycleReduced(z: int, p: nat, a: nat, h: nat, m: nat)
    requires 1 <= p && 1 <= m && Divides(p, m) && 1 <= h && At(z, z, p, a, h)
    ensures Cycles(z % m, p, a)
  {
    var k := DividesQuotient(p, m);
    assert m == p * k;
    ModOfMultiple(z, p, k);
    OrbitCong(z % m, z, a, h, p);
    assert At(z % m, z % m, p, a, h);
  }

  // ----- the search

  /** The i-th number after x is congruent to z. */
  predicate Hits(x: int, z: int, n: nat, a: nat, i: nat)
    requires 1 <= n
  {
    Iterate(x, n, a, i) % n == z % n
  }

  lemma ProductVanishes(P: int, z: int, x: int, n: nat)
    requires 1 <= n
    ensures P == 0 || x % n == z % n ==> Accumulate(P, z, x, n) == 0
  {
    if x % n == z % n {
      CongAdd(z, x, x, x, n);
      CongMul(P, P, z - x, 0, n);
    }
    assert P == 0 ==> P * (z - x) == 0;
    ModMod(0, n);
  }

  lemma GcdOfZero(n: nat)
    requires 2 <= n
    ensures Gcd(0, n) == n
  {
    SmallMod(0, n);
  }

  /** The inner loop: k steps with a gcd at every 32nd.  Left with no factor found, it
      has met no number congruent to z. */
  method Round(n: nat, a: nat, s0: Rho) returns (found: bool, s: Rho)
    requires 2 <= n && OnCourse(n, a, s0)
    ensures OnCourse(n, a, s) && 0 <= s.P && s.z == s0.z && s.l == s0.l
    ensures found <==> Gcd(s.P, n) != 1
    ensures !found ==> s.x == s.y == Iterate(s0.x, n, a, s0.k)
    ensures !found ==> forall i :: 1 <= i <= s0.k ==> !Hits(s0.x, s0.z, n, a, i)
    ensures s0.k == 1 && SplitsAtOnce(n, a, s0) ==> found && s.y == s0.y
  {
    hide Iterate, OnCourse, Accumulate, RhoStep, Gcd;
    s := s0;
    CourseFacts(n, a, s);
    IterateNext(s0.x, n, a, 0);
    GcdOfZero(n);
    while true
      invariant OnCourse(n, a, s) && 0 <= s.P && 1 <= s.k <= s0.k && s.z == s0.z && s.l == s0.l
      invariant s.x == Iterate(s0.x, n, a, s0.k - s.k)
      invariant s.k == s0.k ==> s == s0
      invariant forall i :: 1 <= i <= s0.k - s.k && Hits(s0.x, s0.z, n, a, i) ==> s.P == 0
      decreases s.k
    {
      CourseStep(n, a, s);
      IterateNext(s0.x, n, a, s0.k - s.k);
      var x := RhoStep(s.x, n, a);
      ProductVanishes(s.P, s.z, x, n);
      s := s.(x := x, P := Accumulate(s.P, s.z, x, n));
      CourseFacts(n, a, s);
      if s.k % 32 == 1 {
        var t := Gcd(s.P, n);
        if t != 1 { return true, s; }
        CourseRecorded(n, a, s);
        s := s.(y := s.x);
      }
      if s.k == 1 { break; }
      CourseCount(n, a, s, s.k - 1);
      s := s.(k := s.k - 1);
    }
    found := false;
  }

  /** The first step of the search already shares a factor with n. */
  ghost predicate SplitsAtOnce(n: nat, a: nat, s: Rho)
    requires 1 <= n
  {
    0 <= Accumulate(s.P, s.z, RhoStep(s.x, n, a), n)
    && Gcd(Accumulate(s.P, s.z, RhoStep(s.x, n, a), n), n) != 1
  }

  lemma CourseFacts(n: nat, a: nat, s: Rho)
    requires 1 <= n && OnCourse(n, a, s)
    ensures 1 <= s.k && 1 <= s.l && 0 <= s.P
  {
  }

  lemma CourseCount(n: nat, a: nat, s: Rho, k: nat)
    requires 1 <= n && OnCourse(n, a, s) && 1 <= k
    ensures OnCourse(n, a, s.(k := k))
  {
  }

  // ----- why the search ends

  lemma {:induction false} IterateAdd(y: int, n: nat, a: nat, i: nat, j: nat)
    requires 1 <= n
    ensures Iterate(Iterate(y, n, a, i), n, a, j) == Iterate(y, n, a, i + j)
    decreases j
  {
    if j > 0 { IterateAdd(y, n, a, i, j - 1); }
  }

  /** Among the first n + 1 numbers of the sequence two agree modulo n. */
  lemma Repeats(b: int, n: nat, a: nat) returns (i: nat, j: nat)
    requires 1 <= n
    ensures i < j <= n && Iterate(b, n, a, i) % n == Iterate(b, n, a, j) % n
  {
    hide Iterate;
    var s := seq(n + 1, i requires 0 <= i <= n => Iterate(b, n, a, i) % n + 1);
    forall i | 0 <= i < |s| ensures 1 <= s[i] <= n { ModMod(Iterate(b, n, a, i), n); }
    if InjectiveInto(s, n) { InjectiveBound(s, n); }
    i, j :| 0 <= i < j < |s| && s[i] == s[j];
  }

  /** From the n-th number on the sequence runs on a cycle. */
  lemma OnCycle(b: int, n: nat, a: nat, m: nat) returns (g: nat)
    requires 1 <= n <= m
    ensures 1 <= g <= n && At(Iterate(b, n, a, m), Iterate(b, n, a, m), n, a, g)
  {
    hide Iterate, Orbit;
    var i, j := Repeats(b, n, a);
    g := j - i;
    var u, z := Iterate(b, n, a, i), Iterate(b, n, a, m);
    AtStart(u, n, a);
    IterateAdd(b, n, a, i, m - i);
    IterateAt(u, u, n, a, 0, m - i);
    IterateAdd(b, n, a, i, g);
    IterateAt(u, u, n, a, 0, g);
    OrbitCong(z, Orbit(u, a, m - i), a, g, n);
    OrbitAdd(u, a, m - i, g);
    OrbitAdd(u, a, g, m - i);
    OrbitCong(Orbit(u, a, g), u, a, m - i, n);
  }

  /** A round that starts k after z, on a cycle no longer than k, meets z again. */
  lemma RoundHits(z: int, n: nat, a: nat, g: nat, k: nat) returns (j: nat)
    requires 1 <= n && At(z, z, n, a, g) && 1 <= g <= k
    ensures 1 <= j <= k && Hits(Iterate(z, n, a, k), z, n, a, j)
  {
    hide Iterate, Orbit;
    var r := k / g + 1;
    assert g * r == k / g * g + g && k == k / g * g + k % g;
    j := g * r - k;
    CycleRepeats(z, n, a, g, r);
    AtStart(z, n, a);
    IterateAt(z, z, n, a, 0, k + j);
    IterateAdd(z, n, a, k, j);
  }

  /** The search starts over from where it is, with rounds twice as long. */
  method Restart(n: nat, a: nat, s0: Rho) returns (s: Rho)
    requires 2 <= n && OnCourse(n, a, s0) && 0 <= s0.P && Gcd(s0.P, n) == 1
    ensures OnCourse(n, a, s) && s.z == s0.x && s.k == s0.l && s.l == 2 * s0.l
    ensures s.x == Iterate(s.z, n, a, s.k)
  {
    hide OnCourse, Iterate, RhoStep, Gcd, At, OnTrack, CommonPrime, Orbit;
    CourseFacts(n, a, s0);
    var k, l, x := s0.l, 2 * s0.l, s0.x;
    IterateNext(s0.x, n, a, 0);
    for i := 0 to k
      invariant x == Iterate(s0.x, n, a, i)
    {
      IterateNext(s0.x, n, a, i);
      x := RhoStep(x, n, a);
    }
    s := Rho(x, x, s0.x, s0.P, k, l);
    AtStart(s.z, n, a);
    IterateAt(s.z, s.z, n, a, 0, k);
    IsOnTrack(x, s.z, n, a, k);
    NoCommonPrime(s.P, n);
    NewCourse(n, a, s);
  }

  lemma NewCourse(n: nat, a: nat, s: Rho)
    requires 1 <= n && 1 <= s.k && 1 <= s.l && 0 <= s.P && s.x == s.y && OnTrack(s.x, s.z, n, a)
    requires forall p: nat :: !CommonPrime(p, s.P, n)
    ensures OnCourse(n, a, s)
  {
  }

  /** After the first round z is m numbers after base, and x as many after z as the
      round is long. */
  ghost predicate Pace(n: nat, a: nat, s: Rho, base: int, m: nat, k0: nat)
    requires 1 <= n
  {
    && 1 <= k0 && m == 2 * (s.k - k0) && s.l == 2 * s.k
    && s.z == Iterate(base, n, a, m) && s.x == Iterate(s.z, n, a, s.k)
  }

  lemma PaceKept(n: nat, a: nat, s: Rho, s': Rho, base: int, m: nat, k0: nat)
    requires 1 <= n && Pace(n, a, s, base, m, k0)
    requires s'.z == Iterate(s.x, n, a, s.k) && s'.k == s.l && s'.l == 2 * s.l
    requires s'.x == Iterate(s'.z, n, a, s'.k)
    ensures Pace(n, a, s', base, m + 2 * s.k, k0)
  {
    hide Iterate;
    IterateAdd(s.z, n, a, s.k, s.k);
    IterateAdd(base, n, a, m, s.k + s.k);
  }

  /** Once z is 2n numbers along, the next round meets it. */
  lemma PaceEnds(n: nat, a: nat, s: Rho, base: int, m: nat, k0: nat) returns (j: nat)
    requires 2 <= n && Pace(n, a, s, base, m, k0) && 2 * n <= m
    ensures 1 <= j <= s.k && Hits(s.x, s.z, n, a, j)
  {
    hide Iterate;
    var g := OnCycle(base, n, a, m);
    j := RoundHits(s.z, n, a, g, s.k);
  }

  /** Advance the sequence until the accumulated product shares a factor with n; it
      always comes to that. */
  method Advance(n: nat, a: nat, s0: Rho) returns (s: Rho)
    requires 2 <= n && OnCourse(n, a, s0)
    ensures OnCourse(n, a, s) && 0 <= s.P && Gcd(s.P, n) != 1
    ensures s0.k == 1 && SplitsAtOnce(n, a, s0) ==> s.y == s0.y && s.z == s0.z
  {
    hide OnCourse, Iterate, Hits, SplitsAtOnce, Gcd, Pace;
    s := s0;
    ghost var base, m: int, k0 := s0.x, -1, 0;
    while true
      invariant OnCourse(n, a, s) && -1 <= m
      invariant if m == -1 then s == s0 else Pace(n, a, s, base, m, k0)
      invariant m >= 0 ==> !(s0.k == 1 && SplitsAtOnce(n, a, s0))
      decreases 2 * n - m
    {
      ghost var was := s;
      CourseFacts(n, a, was);
      if m >= 2 * n { ghost var j := PaceEnds(n, a, s, base, m, k0); }
      var found;
      found, s := Round(n, a, s);
      if found { return; }
      s := Restart(n, a, s);
      if m == -1 {
        base, m, k0 := s.z, 0, s.k;
        PaceStart(n, a, s);
      } else {
        PaceFacts(n, a, was, base, m, k0);
        PaceKept(n, a, was, s, base, m, k0);
        m := m + 2 * was.k;
      }
    }
  }

  lemma PaceStart(n: nat, a: nat, s: Rho)
    requires 1 <= n && 1 <= s.k && s.l == 2 * s.k && s.x == Iterate(s.z, n, a, s.k)
    ensures Pace(n, a, s, s.z, 0, s.k)
  {
  }

  lemma PaceFacts(n: nat, a: nat, s: Rho, base: int, m: nat, k0: nat)
    requires 1 <= n && Pace(n, a, s, base, m, k0)
    ensures 1 <= s.k && s.l == 2 * s.k
  {
  }

  /** y is the j-th number after y0, and the first that meets z. */
  ghost predicate FirstMeeting(n: nat, a: nat, y0: int, z: int, j: nat, y: int)
    requires 1 <= n
  {
    y == Iterate(y0, n, a, j) && Meets(n, a, y0, z, j) && forall i :: 1 <= i < j ==> !Meets(n, a, y0, z, i)
  }

  /** Retrace the last stretch one step at a time, up to the first number that meets
      z; what it finds is a divisor of n above 1, possibly n itself.  The loop ends
      because some later number does meet z. */
  method Retrace(n: nat, a: nat, y0: int, z: int, ghost end: nat) returns (t: nat, y: int, ghost j: nat)
    requires 2 <= n && 1 <= end && Meets(n, a, y0, z, end)
    ensures 2 <= t <= n && Divides(t, n) && t == Gcd(Abs(z - y), n)
    ensures 1 <= j && y == Iterate(y0, n, a, j) && FirstMeeting(n, a, y0, z, j, y)
  {
    hide Divides, Gcd, RhoStep;
    y := y0;
    j := 0;
    while true
      invariant j < end && y == Iterate(y0, n, a, j)
      invariant forall i :: 1 <= i <= j ==> !Meets(n, a, y0, z, i)
      decreases end - j
    {
      y := RhoStep(y, n, a);
      j := j + 1;
      t := Gcd(Abs(z - y), n);
      GcdDivides(Abs(z - y), n);
      var q := DividesQuotient(t, n);
      if t != 1 {
        assert FirstMeeting(n, a, y0, z, j, y);
        return;
      }
    }
  }

  lemma FreshStart(n: nat, a: nat)
    requires 2 <= n
    ensures OnCourse(n, a, Rho(2, 2, 2, 1, 1, 1))
  {
    AtStart(2, n, a);
    IsOnTrack(2, 2, n, a, 0);
    CoprimeFromBezout(1, n, 1, 0);
    NoCommonPrime(1, n);
  }

  lemma Cofactor(n: nat, t: nat)
    requires 2 <= t && 2 <= n && Divides(t, n)
    ensures 1 <= n / t && Divides(n / t, n)
  {
    var k := DividesQuotient(t, n);
    DividesFrom(k, t, n);
  }

  lemma SplitFactor(d: nat, n: nat, t: nat, m: nat)
    requires 2 <= t && Divides(t, n) && 2 <= n && Rough(n, m)
    ensures 1 <= n / t < n && Rough(t, m) && Rough(n / t, m)
    ensures (d * t) * (n / t) == d * n
  {
    var k := DividesQuotient(t, n);
    DividesFrom(k, t, n);
    RoughDivisor(n, t, m);
    RoughDivisor(n, k, m);
    MulAssoc(d, t, k);
    MulMono(2, t, k);
  }

  // ----- why the restarts end

  /** How many increments on from a there is one that splits n at the first step. */
  function Distance(n: nat, a: nat): (d: nat)
    requires 2 <= n
    ensures d < n
  {
    ModMod(LeastPrimeFactor(n) - 2 - a, n);
    (LeastPrimeFactor(n) - 2 - a) % n
  }

  lemma DistanceStep(n: nat, a: nat)
    requires 2 <= n && Distance(n, a) != 0
    ensures Distance(n, a + 1) == Distance(n, a) - 1
  {
    var x := LeastPrimeFactor(n) - 2 - a;
    assert x == (x / n) * n + x % n;
    DivModUnique(x - 1, n, x / n, x % n - 1);
  }

  /** At distance 0, a + 2 is the least prime factor p up to a multiple of n. */
  lemma DistanceZero(n: nat, a: nat) returns (p: nat)
    requires 2 <= n && !IsPrime(n) && Distance(n, a) == 0
    ensures IsPrime(p) && p < n && Divides(p, n) && Divides(p, a + 2) && !Divides(n, a + 2)
  {
    hide Divides, IsPrime;
    p := CompositeHasSmallFactor(n);
    PrimeAtLeast2(p);
    assert Divides(n, p - 2 - a) by { CongIffDivides(p - 2 - a, 0, n); SmallMod(0, n); }
    DividesNeg(n, p - 2 - a);
    var j := DividesQuotient(n, a + 2 - p);
    DividesTrans(p, n, a + 2 - p);
    DividesFrom(p, 1, p);
    DividesSum(p, p, a + 2 - p);
    if Divides(n, a + 2) {
      DividesSum(n, a + 2, a + 2 - p);
      assert a + 2 - (a + 2 - p) == p;
      var i := DividesQuotient(n, p);
    }
  }

  /** The state in which every search for a number starts. */
  const START: Rho := Rho(2, 2, 2, 1, 1, 1)

  /** At distance 0 the search meets at its first step, with a proper divisor. */
  lemma ProperAtOnce(n: nat, a: nat)
    requires 5 <= n && !IsPrime(n) && Distance(n, a) == 0
    ensures SplitsAtOnce(n, a, START) && Meets(n, a, 2, 2, 1)
    ensures Gcd(Abs(2 - Iterate(2, n, a, 1)), n) != n
  {
    hide Divides, IsPrime, Gcd;
    var p := DistanceZero(n, a);
    PrimeAtLeast2(p);
    SmallMod(4, n);
    IterateNext(2, n, a, 0);
    var x := RhoStep(2, n, a);
    assert x == 4 + a && 2 - x == -(a + 2);
    DividesNeg(p, a + 2);
    SharedGcd(2 - x, n, p);
    GcdDivides(a + 2, n);
    FirstProduct(x, n);
    DividesRemainder(p, 2 - x, n);
    SharedGcd((2 - x) % n, n, p);
  }

  lemma FirstProduct(x: int, n: nat)
    requires 1 <= n
    ensures Accumulate(1, 2, x, n) == (2 - x) % n && 0 <= (2 - x) % n
  {
    assert 1 * (2 - x) == 2 - x;
    ModMod(2 - x, n);
  }

  lemma DividesRemainder(p: nat, d: int, n: nat)
    requires 1 <= p && 1 <= n && Divides(p, d) && Divides(p, n)
    ensures Divides(p, d % n)
  {
    hide Divides;
    DividesProduct(p, n, d / n);
    assert d == n * (d / n) + d % n;
    DividesSum(p, n * (d / n), d % n);
  }

  /** So a search from the start that finds all of n is not at distance 0. */
  lemma WholeMeansDistance(n: nat, a: nat, s: Rho, j: nat, y: int, t: nat)
    requires 5 <= n && !IsPrime(n) && 1 <= j && t == n
    requires SplitsAtOnce(n, a, START) ==> s.y == 2 && s.z == 2
    requires FirstMeeting(n, a, s.y, s.z, j, y) && t == Gcd(Abs(s.z - y), n)
    ensures Distance(n, a + 1) < Distance(n, a)
  {
    hide Gcd, Iterate, IsPrime, SplitsAtOnce, Distance;
    if Distance(n, a) == 0 {
      ProperAtOnce(n, a);
    } else {
      DistanceStep(n, a);
    }
  }

  /** A composite number without small factors is not tiny. */
  lemma RoughComposite(n: nat, table: PrimeTable)
    requires ValidTable(table) && 2 <= n && Rough(n, table.firstOmitted) && !IsPrime(n)
    ensures 5 <= n
  {
    PrimeAtBounded(table, 1);
    var p := CompositeHasSmallFactor(n);
    if p < 3 { assert false; }
    MulMono(3, p, p);
  }

  lemma InsertAccepted(before: seq<nat>, after: seq<nat>, x: nat, prove: bool, table: PrimeTable)
    requires AllAccepted(before, prove, table) && Accepted(x, prove, table)
    requires forall y :: y in after ==> y in before || y == x
    ensures AllAccepted(after, prove, table)
  {
  }

  /** Insert a number taken for prime. */
  method InsertTaken(x: nat, factors: Factors, prove: bool, table: PrimeTable)
    requires factors.Valid() && AllAccepted(factors.p, prove, table) && Accepted(x, prove, table)
    modifies factors
    ensures factors.Valid() && AllAccepted(factors.p, prove, table)
    ensures factors.Denoted() == old(factors.Denoted()) * x
  {
    factors.FactorInsert(x);
    InsertAccepted(old(factors.p), factors.p, x, prove, table);
  }

  /** Pollard's rho on a composite number: unless the primality test aborts, the list
      denotes n times what it denoted before; every iteration and every restart
      conserves the product of the list and the number still to be factored. */
  method FactorUsingPollardRho(n0: nat, a: nat, factors: Factors, prove: bool, table: PrimeTable)
    returns (done: bool)
    requires ValidTable(table) && 2 <= n0 && Rough(n0, table.firstOmitted) && !IsPrime(n0)
    requires factors.Valid() && AllAccepted(factors.p, prove, table)
    modifies factors
    ensures factors.Valid() && AllAccepted(factors.p, prove, table)
    ensures done ==> factors.Denoted() == old(factors.Denoted()) * n0
    ensures !done ==> StuckUpTo(n0, prove, table)
    decreases n0, 1, Distance(n0, a)
  {
    hide OnCourse, AllAccepted, Accepted, StuckUpTo, Distance, Stuck, ValidTable, Rough;
    hide FirstMeeting, Meets, SplitsAtOnce, Gcd, IsPrime;
    var n := n0;
    var s := START;
    FreshStart(n0, a);
    RoughComposite(n0, table);
    while n != 1
      invariant 1 <= n <= n0 && (n != 1 ==> OnCourse(n, a, s))
      invariant n == n0 ==> s == START
      invariant Rough(n, table.firstOmitted)
      invariant factors.Valid() && AllAccepted(factors.p, prove, table)
      invariant factors.Denoted() * n == old(factors.Denoted()) * n0
      decreases n
    {
      s := Advance(n, a, s);
      ghost var end := WillMeet(n, a, s);
      var t, y;
      ghost var j;
      t, y, j := Retrace(n, a, s.y, s.z, end);
      if t == n0 { WholeMeansDistance(n, a, s, j, y, t); }
      SplitFactor(factors.Denoted(), n, t, table.firstOmitted);
      ghost var whole := n;
      n := n / t;
      var answer := MpPrimeP(t, prove, table);
      match answer {
        case No =>
          var ok := FactorUsingPollardRho(t, a + 1, factors, prove, table);
          if !ok { StuckAbove(t, n0, prove, table); return false; }
        case Yes =>
          InsertTaken(t, factors, prove, table);
        case Aborted =>
          StuckAbove(t, n0, prove, table);
          return false;
      }
      answer := MpPrimeP(n, prove, table);
      match answer {
        case Yes =>
          InsertTaken(n, factors, prove, table);
          return true;
        case No =>
        case Aborted =>
          StuckAbove(n, n0, prove, table);
          return false;
      }
      Cofactor(whole, t);
      CourseDivided(whole, a, s, y, j, n);
      s := s.(x := s.x % n, z := s.z % n, y := y % n);
    }
    return true;
  }

  /** The factorisation of t: unless the primality test aborts, it leaves an ordered
      list with positive exponents that denotes t, all of whose bases are prime when
      proving is on, and otherwise prime or past 25 tests. */
  method Factor(t0: nat, factors: Factors, prove: bool, table: PrimeTable) returns (done: bool)
    requires ValidTable(table)
    modifies factors
    ensures factors.Valid() && AllAccepted(factors.p, prove, table)
    ensures prove ==> factors.AllPrime()
    ensures done && 1 <= t0 ==> factors.Denoted() == t0
    ensures t0 == 0 ==> done && factors.Denoted() == 1
    ensures !done ==> StuckUpTo(t0, prove, table)
    ensures t0 < table.firstOmitted * table.firstOmitted ==> done
    ensures !prove && MR_REPS <= |table.diffs| ==> done
    decreases t0, 3, 0
  {
    factors.Init();
    done := true;
    NoneYet(prove, table);
    if t0 > 0 {
      done := FactorPositive(t0, factors, prove, table);
    }
    AcceptedPrimes(factors.p, prove, table);
  }

  lemma NoneYet(prove: bool, table: PrimeTable)
    ensures AllAccepted([], prove, table)
  {
  }

  lemma AcceptedPrimes(p: seq<nat>, prove: bool, table: PrimeTable)
    requires AllAccepted(p, prove, table)
    ensures prove ==> forall i :: 0 <= i < |p| ==> IsPrime(p[i])
  {
    hide IsPrime;
    forall i | 0 <= i < |p| ensures prove ==> IsPrime(p[i]) { assert p[i] in p; }
  }

  lemma PrimesAccepted(p: seq<nat>, prove: bool, table: PrimeTable)
    requires forall i :: 0 <= i < |p| ==> IsPrime(p[i])
    ensures AllAccepted(p, prove, table)
  {
  }

  lemma CastOutComposite(t: nat, table: PrimeTable)
    requires CastOut(t, table) && !IsPrime(t) && 2 <= t
    ensures Rough(t, table.firstOmitted)
  {
  }

  method FactorPositive(t0: nat, factors: Factors, prove: bool, table: PrimeTable) returns (done: bool)
    requires ValidTable(table) && 1 <= t0 && factors.Valid() && factors.AllPrime() && factors.Denoted() == 1
    modifies factors
    ensures factors.Valid() && AllAccepted(factors.p, prove, table)
    ensures done ==> factors.Denoted() == t0
    ensures !done ==> StuckUpTo(t0, prove, table) && table.firstOmitted * table.firstOmitted <= t0
    decreases t0, 2, 0
  {
    hide StuckUpTo, Stuck, ValidTable, IsPrime, AllAccepted, Accepted, CastOut, Rough;
    var t := FactorUsingDivision(t0, factors, table);
    PrimesAccepted(factors.p, prove, table);
    CofactorSmaller(factors.Denoted(), t, t0);
    if t == 1 { return true; }
    var answer := MpPrimeP(t, prove, table);
    match answer {
      case Yes =>
        InsertTaken(t, factors, prove, table);
        return true;
      case No =>
        CastOutComposite(t, table);
        done := FactorUsingPollardRho(t, 1, factors, prove, table);
        if !done { StuckAbove(t, t0, prove, table); }
      case Aborted =>
        StuckAbove(t, t0, prove, table);
        return false;
    }
  }

  lemma CofactorSmaller(d: nat, t: nat, t0: nat)
    requires 1 <= t0 && d * t == t0
    ensures 1 <= t <= t0
  {
    if d > 0 { MulMono(1, d, t); }
  }

  // ----- the completed list is the prime factorisation

  lemma {:induction false} PowDividesSelf(x: nat, f: nat)
    requires 2 <= x && 1 <= f
    ensures 0 < Pow(x, f) && Divides(x, Pow(x, f))
  {
    PowPositive(x, f);
    DividesFrom(x, Pow(x, f - 1), Pow(x, f));
  }

  lemma HeadDivides(p: seq<nat>, e: seq<nat>)
    requires Ordered(p, e) && p != [] && 2 <= p[0]
    ensures Divides(p[0], Value(p, e))
  {
    PowDividesSelf(p[0], e[0]);
    DividesProduct(p[0], Pow(p[0], e[0]), Value(p[1..], e[1..]));
  }

  lemma OrderedTail(p: seq<nat>, e: seq<nat>)
    requires Ordered(p, e) && p != []
    ensures Ordered(p[1..], e[1..]) && p[0] !in p[1..]
  {
  }

  lemma PrimeIsPositive(x: nat)
    requires IsPrime(x)
    ensures 2 <= x
  {
  }

  /** A surplus of the head prime on one side would have to divide the tail. */
  lemma SurplusImpossible(x: nat, a: nat, b: nat, p: seq<nat>, e: seq<nat>, v: nat)
    requires IsPrime(x) && a < b && Ordered(p, e) && x !in p
    requires forall i :: 0 <= i < |p| ==> IsPrime(p[i])
    ensures Pow(x, a) * Value(p, e) != Pow(x, b) * v
  {
    hide Pow, Value, IsPrime, Divides, Ordered;
    SameLength(p, e);
    PrimeIsPositive(x);
    if Pow(x, a) * Value(p, e) == Pow(x, b) * v {
      PowAdd(x, a, b - a);
      PowPositive(x, a);
      MulAssoc(Pow(x, a), Pow(x, b - a), v);
      MulCancel(Value(p, e), Pow(x, b - a) * v, Pow(x, a));
      PowDividesSelf(x, b - a);
      DividesProduct(x, Pow(x, b - a), v);
      PrimeDividesValue(p, e, x);
    }
  }

  /** Ordered prime lists with positive exponents that denote the same number are
      the same list: what Factor delivers is the prime factorisation. */
  lemma {:induction false} FactorisationUnique(p: seq<nat>, e: seq<nat>, q: seq<nat>, f: seq<nat>)
    requires Ordered(p, e) && Ordered(q, f) && Value(p, e) == Value(q, f)
    requires forall i :: 0 <= i < |p| ==> IsPrime(p[i])
    requires forall i :: 0 <= i < |q| ==> IsPrime(q[i])
    ensures p == q && e == f
    decreases |p| + |q|
  {
    hide Pow, Divides;
    if p != [] {
      HeadDivides(p, e);
      PrimeDividesValue(q, f, p[0]);
    }
    if q != [] {
      HeadDivides(q, f);
      PrimeDividesValue(p, e, q[0]);
    }
    if p != [] {
      var x := p[0];
      assert q[0] == x;
      OrderedTail(p, e);
      OrderedTail(q, f);
      if e[0] < f[0] {
        SurplusImpossible(x, e[0], f[0], p[1..], e[1..], Value(q[1..], f[1..]));
      }
      if f[0] < e[0] {
        SurplusImpossible(x, f[0], e[0], q[1..], f[1..], Value(p[1..], e[1..]));
      }
      PowPositive(x, e[0]);
      MulCancel(Value(p[1..], e[1..]), Value(q[1..], f[1..]), Pow(x, e[0]));
      FactorisationUnique(p[1..], e[1..], q[1..], f[1..]);
      assert p == [x] + p[1..] && q == [x] + q[1..] && e == [e[0]] + e[1..] && f == [f[0]] + f[1..];
    }
  }
}
