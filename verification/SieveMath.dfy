/** The numbering of the sieve of primesieve.c: bit b stands for the b-th number
    from 5 on that is divisible by neither 2 nor 3. */
module SieveMath {
  import opened Arith
  import opened Primes

  /** (3b + 4) | 1. */
  function BitToN(b: nat): nat {
    3 * b + 4 + (if b % 2 == 0 then 1 else 0)
  }

  /** The code's id_to_n; ids count from 1. */
  function IdToN(id: nat): nat {
    id * 3 + 1 + id % 2
  }

  /** The code's n_to_bit: ((n - 5) | 1) / 3. */
  function NToBit(n: nat): nat
    requires 5 <= n
  {
    var m := n - 5;
    (if m % 2 == 0 then m + 1 else m) / 3
  }

  lemma IdIsNextBit(id: nat)
    requires 1 <= id
    ensures IdToN(id) == BitToN(id - 1)
  {
  }

  /** n_to_bit finds the last bit that stands for a number up to n. */
  lemma NToBitMeaning(n: nat, b: nat)
    requires 5 <= n
    ensures b <= NToBit(n) <==> BitToN(b) <= n
  {
    hide NToBit, BitToN;
    var q := NToBit(n);
    NToBitBounds(n);
    BitAround(n, q, n / 2, q / 2);
    if b <= q { BitMono(b, q); } else { BitMono(q + 1, b); }
  }

  lemma BitAround(n: nat, q: nat, h: nat, j: nat)
    requires n == 2 * h || n == 2 * h + 1
    requires q == 2 * j || q == 2 * j + 1
    requires 5 <= n && 3 * q <= 2 * h - (if n == 2 * h then 5 else 3) < 3 * q + 3
    ensures BitToN(q) <= n < BitToN(q + 1)
  {
    hide BitToN;
    BitPair(j);
    var u := h - 3 * j;
    if q == 2 * j {
      assert u == if n == 2 * h then 3 else 2;
    } else {
      assert u == 4 || u == if n == 2 * h then 5 else 3;
    }
  }

  lemma NToBitBounds(n: nat)
    requires 5 <= n
    ensures var m := 2 * (n / 2) - (if n == 2 * (n / 2) then 5 else 3); 3 * NToBit(n) <= m < 3 * NToBit(n) + 3
  {
    FiveLess(n);
    Third(n - 4);
    Third(n - 5);
  }

  lemma FiveLess(n: nat)
    requires 5 <= n
    ensures (n - 5) % 2 == 0 <==> n % 2 == 1
  {
  }

  lemma Third(m: nat)
    ensures 3 * (m / 3) <= m < 3 * (m / 3) + 3
  {
  }

  lemma BitPair(j: nat)
    ensures BitToN(2 * j) == 6 * j + 5 && BitToN(2 * j + 1) == 6 * j + 7 && BitToN(2 * j + 2) == 6 * j + 11
  {
  }

  lemma BitMono(a: nat, b: nat)
    requires a <= b
    ensures BitToN(a) <= BitToN(b)
  {
  }

  lemma BitOrder(a: nat, b: nat)
    ensures a < b <==> BitToN(a) < BitToN(b)
  {
  }

  predicate NoTwoThree(n: int) {
    n % 2 != 0 && n % 3 != 0
  }

  lemma BitToNSpecial(b: nat)
    ensures NoTwoThree(BitToN(b)) && 5 <= BitToN(b)
  {
    if b % 2 == 0 {
      assert BitToN(b) == 2 * (3 * (b / 2) + 2) + 1 == 3 * (b + 1) + 2;
    } else {
      assert BitToN(b) == 2 * (3 * (b / 2) + 3) + 1 == 3 * (b + 1) + 1;
    }
  }

  lemma NotSpecial(n: int, h: int, t: int)
    requires n == 2 * h || n == 3 * t
    ensures !NoTwoThree(n)
  {
  }

  /** Every number from 5 on without factors 2 and 3 has its bit. */
  lemma BitOfSpecial(n: nat)
    requires 5 <= n && NoTwoThree(n)
    ensures BitToN(NToBit(n)) == n
  {
    hide NoTwoThree;
    var b := NToBit(n);
    NToBitMeaning(n, b);
    NToBitMeaning(n, b + 1);
    var j := b / 2;
    assert BitToN(b) <= n < BitToN(b + 1);
    if b % 2 == 0 {
      NotSpecial(6 * j + 6, 3 * j + 3, 2 * j + 2);
    } else {
      NotSpecial(6 * j + 8, 3 * j + 4, 0);
      NotSpecial(6 * j + 9, 0, 2 * j + 3);
      NotSpecial(6 * j + 10, 3 * j + 5, 0);
    }
  }

  lemma BitShift(b: nat, m: nat)
    ensures BitToN(b + 2 * m) == BitToN(b) + 6 * m
  {
  }

  /** Primes from 5 on and their multiples' cofactors have no factor 2 or 3. */
  lemma PrimeSpecial(p: nat)
    requires IsPrime(p) && 5 <= p
    ensures NoTwoThree(p)
  {
    assert !Divides(2, p) && !Divides(3, p);
  }

  lemma FactorSpecial(p: nat, k: nat, n: nat)
    requires n == p * k && NoTwoThree(n)
    ensures NoTwoThree(p) && NoTwoThree(k)
  {
    if p % 2 == 0 { DividesProduct(2, p, k); }
    if p % 3 == 0 { DividesProduct(3, p, k); }
    if k % 2 == 0 { DividesProduct(2, k, p); }
    if k % 3 == 0 { DividesProduct(3, k, p); }
  }

  // ----- the state of the sieve

  /** Bit b is a composite whose least prime factor is at most m. */
  predicate SievedBy(b: nat, m: nat) {
    !IsPrime(BitToN(b)) && (BitToNSpecial(b); LeastPrimeFactor(BitToN(b)) <= m)
  }

  lemma LeastFactorFacts(b: nat) returns (p: nat)
    ensures 2 <= BitToN(b) && p == LeastPrimeFactor(BitToN(b)) && IsPrime(p) && Divides(p, BitToN(b))
    ensures 5 <= p && NoTwoThree(p)
    ensures !IsPrime(BitToN(b)) ==> p < BitToN(b) && p * p <= BitToN(b)
  {
    BitToNSpecial(b);
    var n := BitToN(b);
    p := LeastPrimeFactor(n);
    LeastPrimeFactorIsPrime(n);
    var k := DividesQuotient(p, n);
    FactorSpecial(k, p, n);
    assert p != 2 && p != 3 && p != 4;
    if !IsPrime(n) { var q := CompositeHasSmallFactor(n); }
  }

  /** A bit not sieved by the smaller ids stands for a prime. */
  lemma UnsievedIsPrime(id: nat)
    requires 1 <= id && !SievedBy(id - 1, IdToN(id - 1))
    ensures IsPrime(IdToN(id))
  {
    IdIsNextBit(id);
    if !IsPrime(IdToN(id)) {
      var p := LeastFactorFacts(id - 1);
      BelowMeansPrevious(p, id);
    }
  }

  /** Below id_to_n(id), a number without factors 2 and 3 is at most the previous
      entry. */
  lemma BelowMeansPrevious(p: nat, id: nat)
    requires 1 <= id && 5 <= p < IdToN(id) && NoTwoThree(p)
    ensures p <= IdToN(id - 1)
  {
    BitOfSpecial(p);
    IdIsNextBit(id);
    BitOrder(NToBit(p), id - 1);
    if id >= 2 { IdIsNextBit(id - 1); BitOrder(id - 2, NToBit(p)); }
  }

  /** A composite id adds nothing to the sieved bits. */
  lemma CompositeIdAddsNothing(b: nat, id: nat)
    requires 1 <= id && !IsPrime(IdToN(id))
    ensures SievedBy(b, IdToN(id)) <==> SievedBy(b, IdToN(id - 1))
  {
    if SievedBy(b, IdToN(id)) {
      var p := LeastFactorFacts(b);
      assert p != IdToN(id);
      BelowMeansPrevious(p, id);
    }
  }

  /** A prime id adds its multiples from its square on. */
  lemma PrimeIdAddsMultiples(b: nat, id: nat)
    requires 1 <= id && IsPrime(IdToN(id))
    ensures SievedBy(b, IdToN(id)) <==>
      SievedBy(b, IdToN(id - 1)) || (Divides(IdToN(id), BitToN(b)) && IdToN(id) * IdToN(id) <= BitToN(b))
  {
    var q, n := IdToN(id), BitToN(b);
    var p := LeastFactorFacts(b);
    if SievedBy(b, q) && !SievedBy(b, IdToN(id - 1)) {
      if p < q { BelowMeansPrevious(p, id); }
    }
    if Divides(q, n) && q * q <= n {
      MulMono(2, q, q);
      assert !IsPrime(n);
    }
  }

  /** With a prime id whose square is beyond the last bit, the sieve is finished. */
  lemma FinishedSieve(b: nat, id: nat, bits: nat)
    requires 1 <= id && b <= bits && BitToN(bits) < IdToN(id) * IdToN(id)
    ensures SievedBy(b, IdToN(id - 1)) <==> !IsPrime(BitToN(b))
  {
    if !IsPrime(BitToN(b)) {
      var p := LeastFactorFacts(b);
      BitOrder(b, bits);
      if p >= IdToN(id) {
        MulMono(IdToN(id), p, IdToN(id));
        MulMono(IdToN(id), p, p);
      }
      BelowMeansPrevious(p, id);
    }
  }

  // ----- the two progressions of multiples

  /** The code's index of the square of id_to_n(i). */
  function SquareIndex(i: nat): int {
    var step := IdToN(i);
    i * (step + 1) - 1 + (if i % 2 == 1 then i + 1 else 0)
  }

  /** The code's index of id_to_n(i) times the following entry. */
  function NextIndex(i: nat): nat {
    i * (i * 3 + 6) + i % 2
  }

  lemma SquareIndexMeaning(i: nat)
    requires 1 <= i
    ensures 0 <= SquareIndex(i) && BitToN(SquareIndex(i)) == IdToN(i) * IdToN(i)
  {
    var j := i / 2;
    var h := j * j;
    MulMono(0, j, j);
    if i == 2 * j {
      assert (2 * j) * (6 * j + 2) == 12 * h + 4 * j;
      assert (6 * j + 1) * (6 * j + 1) == 36 * h + 12 * j + 1;
    } else {
      assert (2 * j + 1) * (6 * j + 6) == 12 * h + 18 * j + 6;
      assert (6 * j + 5) * (6 * j + 5) == 36 * h + 60 * j + 25;
      assert SquareIndex(i) == 12 * h + 18 * j + 6 - 1 + 2 * j + 2;
    }
  }

  lemma NextIndexMeaning(i: nat)
    requires 1 <= i
    ensures BitToN(NextIndex(i)) == IdToN(i) * BitToN(i)
  {
    hide BitToN, IdToN;
    var j := i / 2;
    MulMono(0, j, j);
    BitPair(j);
    IdPair(j);
    if i == 2 * j {
      EvenProducts(j);
      BitPair(6 * (j * j) + 6 * j);
    } else {
      OddProducts(j);
      BitPair(6 * (j * j) + 12 * j + 5);
    }
  }

  lemma IdPair(j: nat)
    ensures IdToN(2 * j) == 6 * j + 1 && IdToN(2 * j + 1) == 6 * j + 5
  {
  }

  lemma EvenProducts(j: int)
    ensures (2 * j) * (6 * j + 6) == 12 * (j * j) + 12 * j
    ensures (6 * j + 1) * (6 * j + 5) == 36 * (j * j) + 36 * j + 5
  {
  }

  lemma OddProducts(j: int)
    ensures (2 * j + 1) * (6 * j + 9) == 12 * (j * j) + 24 * j + 9
    ensures (6 * j + 5) * (6 * j + 7) == 36 * (j * j) + 72 * j + 35
  {
  }

  /** Index b is reached from l by steps of m. */
  predicate OnLine(b: int, l: int, m: nat)
    requires 1 <= m
  {
    l <= b && (b - l) % m == 0
  }

  /** The multiples of q = id_to_n(i) from its square on are exactly the bits on
      the two lines with step 2q. */
  lemma MultiplesAreLines(b: nat, i: nat)
    requires 1 <= i
    ensures Divides(IdToN(i), BitToN(b)) && IdToN(i) * IdToN(i) <= BitToN(b)
       <==> OnLine(b, SquareIndex(i), 2 * IdToN(i)) || OnLine(b, NextIndex(i), 2 * IdToN(i))
  {
    hide Divides;
    var q, n := IdToN(i), BitToN(b);
    SquareIndexMeaning(i);
    NextIndexMeaning(i);
    if OnLine(b, SquareIndex(i), 2 * q) {
      LineIsMultiple(b, SquareIndex(i), q, q);
    }
    if OnLine(b, NextIndex(i), 2 * q) {
      LineIsMultiple(b, NextIndex(i), q, BitToN(i));
    }
    if Divides(q, n) && q * q <= n {
      MultipleOnLine(b, i);
    }
  }

  lemma LineIsMultiple(b: nat, l: nat, q: nat, k: nat)
    requires 1 <= q <= k && OnLine(b, l, 2 * q) && BitToN(l) == q * k
    ensures Divides(q, BitToN(b)) && q * q <= BitToN(b)
  {
    hide Divides;
    var t := (b - l) / (2 * q);
    assert b - l == t * (2 * q);
    if t < 0 { MulMono(t, -1, 2 * q); }
    assert t * (2 * q) == 2 * (t * q);
    BitShift(l, t * q);
    assert BitToN(b) == (k + 6 * t) * q;
    DividesFrom(q, k + 6 * t, BitToN(b));
    MulMono(q, k, q);
  }

  lemma MultipleOnLine(b: nat, i: nat)
    requires 1 <= i && Divides(IdToN(i), BitToN(b)) && IdToN(i) * IdToN(i) <= BitToN(b)
    ensures OnLine(b, SquareIndex(i), 2 * IdToN(i)) || OnLine(b, NextIndex(i), 2 * IdToN(i))
  {
    hide Divides, NoTwoThree, SquareIndex, NextIndex, IdToN, BitToN;
    IdAtLeast(i);
    var q, n := IdToN(i), BitToN(b);
    SquareIndexMeaning(i);
    NextIndexMeaning(i);
    BitToNSpecial(b);
    var k := DividesQuotient(q, n);
    FactorSpecial(q, k, n);
    CofactorAtLeast(q, k);
    TwoResidues(k, q, i);
    if (k - q) % 6 == 0 {
      LineFrom(b, SquareIndex(i), q, q, (k - q) / 6);
    } else {
      LineFrom(b, NextIndex(i), q, BitToN(i), (k - BitToN(i)) / 6);
    }
  }

  lemma IdAtLeast(i: nat)
    requires 1 <= i
    ensures 5 <= IdToN(i)
  {
  }

  lemma CofactorAtLeast(q: nat, k: int)
    requires 1 <= q && q * q <= k * q
    ensures q <= k
  {
    if k < q { MulMono(k + 1, q, q); }
  }

  /** Numbers from q on without factors 2 and 3 continue q or the entry after it. */
  lemma TwoResidues(k: nat, q: nat, i: nat)
    requires 1 <= i && q == IdToN(i) <= k && NoTwoThree(k)
    ensures (k - q) % 6 == 0 || ((k - BitToN(i)) % 6 == 0 && BitToN(i) <= k)
  {
    hide NToBit, BitToN, IdToN, NoTwoThree;
    IdAtLeast(i);
    BitOfSpecial(k);
    var b := NToBit(k);
    IdIsNextBit(i);
    BitOrder(b, i - 1);
    var t := (b - (i - 1)) / 2;
    if b == i - 1 + 2 * t { SixApart(k, b, i - 1, t); } else { SixApart(k, b, i, t); }
  }

  lemma SixApart(k: nat, b: nat, c: nat, t: nat)
    requires k == BitToN(b) && b == c + 2 * t
    ensures BitToN(c) <= k && (k - BitToN(c)) % 6 == 0
  {
    hide BitToN;
    BitShift(c, t);
    DivModUnique(k - BitToN(c), 6, t, 0);
  }

  lemma LineFrom(b: nat, l: nat, q: nat, k: nat, t: nat)
    requires 1 <= q && BitToN(l) == q * k && BitToN(b) == (k + 6 * t) * q
    ensures OnLine(b, l, 2 * q)
  {
    LineDistance(q, k, t);
    BitShift(l, t * q);
    SameBit(b, l + 2 * (t * q));
    DivModUnique(b - l, 2 * q, t, 0);
  }

  lemma LineDistance(q: nat, k: nat, t: nat)
    ensures (k + 6 * t) * q == q * k + 6 * (t * q) && 0 <= t * q
    ensures t * (2 * q) == 2 * (t * q)
  {
    MulMono(0, t, q);
  }

  lemma SameBit(a: nat, b: nat)
    requires BitToN(a) == BitToN(b)
    ensures a == b
  {
  }
}
