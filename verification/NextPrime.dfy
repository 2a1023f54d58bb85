/** The resumable segmented sieve of nextprime.c.  The word-sized fields wrap
    modulo 2^64 exactly as unsigned long does; near the end of a word that makes the
    sieve lose primes, and this module says exactly which numbers it returns. */
module NextPrime {
  import opened Arith
  import opened Primes

  const SIEVESIZE: nat := 512
  const WORD: nat := 0x1_0000_0000_0000_0000

  /** (2^32 - 1) squared: from here on the square-root update has to test 2^32,
      whose square does not fit a word. */
  const SQRT_LIMIT: nat := 0xFFFF_FFFE_0000_0001

  /** Its square is 2^64 - 7 modulo 2^64, so the square-root update stops before it. */
  const ROOT_OF_MINUS_7: nat := 0x19B4_BB63_9C98_C0B5

  // ----- the sequence of primes

  ghost predicate IsNextPrime(n: nat, p: nat) {
    n < p && IsPrime(p) && forall x :: n < x < p ==> !IsPrime(x)
  }

  lemma {:induction false} LeastPrimeAbove(n: nat, m: nat, b: nat)
    requires n <= m < b && IsPrime(b)
    requires forall x :: n < x <= m ==> !IsPrime(x)
    ensures exists p: nat :: IsNextPrime(n, p)
    decreases b - m
  {
    if IsPrime(m + 1) {
      assert IsNextPrime(n, m + 1);
    } else {
      LeastPrimeAbove(n, m + 1, b);
    }
  }

  ghost function NextPrimeAfter(n: nat): (p: nat)
    ensures IsNextPrime(n, p)
  {
    NextPrimeExists(n);
    var p: nat :| IsNextPrime(n, p);
    p
  }

  lemma NextPrimeExists(n: nat)
    ensures exists p: nat :: IsNextPrime(n, p)
  {
    var b := LargerPrime(n);
    LeastPrimeAbove(n, n, b);
  }

  /** The k-th prime, counting from 0; PrimeBefore(k) is the one before it. */
  ghost function PrimeBefore(k: nat): nat {
    if k == 0 then 1 else NextPrimeAfter(PrimeBefore(k - 1))
  }

  ghost function NthPrime(k: nat): nat {
    NextPrimeAfter(PrimeBefore(k))
  }

  /** NthPrime goes through the primes in order, from 2 on and without a gap. */
  lemma {:induction false} PrimesInOrder(k: nat)
    ensures IsPrime(NthPrime(k)) && (k == 0 ==> NthPrime(k) == 2)
    ensures forall j: nat :: j < k ==> NthPrime(j) < NthPrime(k)
    ensures forall p: nat :: IsPrime(p) && p < NthPrime(k) ==> exists j: nat :: j < k && NthPrime(j) == p
    decreases k
  {
    hide IsPrime, NthPrime, IsNextPrime;
    if k == 0 {
      TwoIsFirst();
    } else {
      PrimesInOrder(k - 1);
      NthPrimeNext(k);
      forall p: nat | IsPrime(p) && p < NthPrime(k)
        ensures exists j: nat :: j < k && NthPrime(j) == p
      {
        if p >= NthPrime(k - 1) {
          assert p == NthPrime(k - 1);
        } else {
          var j: nat :| j < k - 1 && NthPrime(j) == p;
        }
      }
    }
  }

  lemma NthPrimeNext(k: nat)
    requires 1 <= k
    ensures NthPrime(k - 1) < NthPrime(k) && IsPrime(NthPrime(k))
    ensures forall x: nat :: NthPrime(k - 1) < x < NthPrime(k) ==> !IsPrime(x)
  {
    hide IsPrime;
    assert IsNextPrime(NthPrime(k - 1), NthPrime(k));
  }

  lemma TwoIsFirst()
    ensures IsNextPrime(1, 2) && NthPrime(0) == 2 && forall p: nat :: IsPrime(p) ==> 2 <= p
  {
    assert IsPrime(2);
    assert IsNextPrime(1, NthPrime(0));
  }

  // ----- the wheel modulo 210

  /** The table of 48 gaps between the numbers coprime to 210, from 11 on. */
  function AddTab(i: nat): nat
    requires i < 48
  {
    match i
    case 0 => 2 case 1 => 4 case 2 => 2 case 3 => 4 case 4 => 6 case 5 => 2 case 6 => 6 case 7 => 4
    case 8 => 2 case 9 => 4 case 10 => 6 case 11 => 6 case 12 => 2 case 13 => 6 case 14 => 4 case 15 => 2
    case 16 => 6 case 17 => 4 case 18 => 6 case 19 => 8 case 20 => 4 case 21 => 2 case 22 => 4 case 23 => 2
    case 24 => 4 case 25 => 8 case 26 => 6 case 27 => 4
    case 28 => 6 case 29 => 2 case 30 => 4 case 31 => 6
    case 32 => 2 case 33 => 6 case 34 => 6 case 35 => 4
    case 36 => 2 case 37 => 4 case 38 => 6 case 39 => 2
    case 40 => 6 case 41 => 4 case 42 => 2 case 43 => 4
    case 44 => 2 case 45 => 10 case 46 => 2 case _ => 10
  }

  predicate HasWheelFactor(y: int) {
    y % 2 == 0 || y % 3 == 0 || y % 5 == 0 || y % 7 == 0
  }

  /** p is 3, 5, 7 or a stop of the wheel. */
  predicate Sieving(p: nat) {
    p == 3 || p == 5 || p == 7 || (11 <= p && !HasWheelFactor(p))
  }

  /** Position of the wheel before its i-th step. */
  function Wheel(i: nat): nat
    requires i <= 48
  {
    match i
    case 0 => 11 case 1 => 13 case 2 => 17 case 3 => 19 case 4 => 23 case 5 => 29 case 6 => 31 case 7 => 37
    case 8 => 41 case 9 => 43 case 10 => 47 case 11 => 53 case 12 => 59 case 13 => 61 case 14 => 67 case 15 => 71
    case 16 => 73 case 17 => 79 case 18 => 83 case 19 => 89 case 20 => 97 case 21 => 101 case 22 => 103 case 23 => 107
    case 24 => 109 case 25 => 113 case 26 => 121 case 27 => 127
    case 28 => 131 case 29 => 137 case 30 => 139 case 31 => 143
    case 32 => 149 case 33 => 151 case 34 => 157 case 35 => 163
    case 36 => 167 case 37 => 169 case 38 => 173 case 39 => 179
    case 40 => 181 case 41 => 187 case 42 => 191 case 43 => 193
    case 44 => 197 case 45 => 199 case 46 => 209 case 47 => 211 case _ => 221
  }

  /** The odd numbers strictly inside a gap of even length up to 10. */
  predicate GapOk(y: nat, gap: nat) {
    && gap % 2 == 0 && 2 <= gap <= 10 && !HasWheelFactor(y)
    && (4 <= gap ==> HasWheelFactor(y + 2))
    && (6 <= gap ==> HasWheelFactor(y + 4))
    && (8 <= gap ==> HasWheelFactor(y + 6))
    && (10 <= gap ==> HasWheelFactor(y + 8))
  }

  lemma WheelStepLow(i: nat)
    requires i < 24
    ensures Wheel(i) + AddTab(i) == Wheel(i + 1)
    ensures 11 <= Wheel(i) && GapOk(Wheel(i), AddTab(i))
  {
  }

  lemma WheelStepHigh(i: nat)
    requires 24 <= i < 48
    ensures Wheel(i) + AddTab(i) == Wheel(i + 1)
    ensures 11 <= Wheel(i) && GapOk(Wheel(i), AddTab(i))
  {
  }

  lemma WheelStep(i: nat)
    requires i < 48
    ensures Wheel(i) + AddTab(i) == Wheel(i + 1)
    ensures 11 <= Wheel(i) && GapOk(Wheel(i), AddTab(i))
  {
    hide Wheel, AddTab, GapOk;
    if i < 24 { WheelStepLow(i); } else { WheelStepHigh(i); }
  }

  /** The factors 2, 3, 5 and 7 recur with period 210. */
  lemma WheelShift(c: nat, y: nat)
    ensures HasWheelFactor(210 * c + y) <==> HasWheelFactor(y)
  {
    ModAddMul(y, 105 * c, 2);
    ModAddMul(y, 70 * c, 3);
    ModAddMul(y, 42 * c, 5);
    ModAddMul(y, 30 * c, 7);
  }

  lemma GapInside(y: nat, gap: nat, x: nat)
    requires GapOk(y, gap) && y <= x < y + gap
    ensures HasWheelFactor(x) <==> x != y
  {
    hide HasWheelFactor;
    EvenHasFactor(y);
    EvenHasFactor(x);
    var g := x - y;
    assert g % 2 == 0 ==> g == 0 || g == 2 || g == 4 || g == 6 || g == 8;
  }

  lemma EvenHasFactor(x: int)
    ensures x % 2 == 0 ==> HasWheelFactor(x)
  {
  }

  /** From one stop of the wheel to the next only the stop itself is free of the
      factors 2, 3, 5 and 7. */
  lemma WheelStops(c: nat, i: nat, x: nat)
    requires i < 48
    requires 210 * c + Wheel(i) <= x < 210 * c + Wheel(i) + AddTab(i)
    ensures HasWheelFactor(x) <==> x != 210 * c + Wheel(i)
  {
    hide Wheel, AddTab, GapOk, HasWheelFactor;
    WheelStep(i);
    GapInside(Wheel(i), AddTab(i), x - 210 * c);
    WheelShift(c, x - 210 * c);
  }

  ghost predicate OnWheel(p: nat, ai: nat, c: nat) {
    ai < 48 && p == 210 * c + Wheel(ai) && 11 <= p
  }

  /** Where a step of the wheel leads. */
  lemma WheelNext(i: nat)
    requires i < 48
    ensures Wheel((i + 1) % 48) == Wheel(i) + AddTab(i) - (if i == 47 then 210 else 0)
    ensures 2 <= AddTab(i) <= 10 && AddTab(i) % 2 == 0
  {
    hide Wheel, AddTab, GapOk;
    WheelStep(i);
    GapBounds(Wheel(i), AddTab(i));
    if i == 47 {
      assert (i + 1) % 48 == 0;
      WheelEnds();
    } else {
      SmallMod(i + 1, 48);
    }
  }

  lemma GapBounds(y: nat, gap: nat)
    requires GapOk(y, gap)
    ensures 2 <= gap <= 10 && gap % 2 == 0
  {
  }

  lemma WheelEnds()
    ensures Wheel(48) == Wheel(0) + 210
  {
  }

  /** One step of the wheel. */
  method WheelAdvance(p: nat, ai: nat, ghost c: nat) returns (p': nat, ai': nat, ghost c': nat)
    requires OnWheel(p, ai, c)
    ensures OnWheel(p', ai', c') && p < p' <= p + 10 && Sieving(p)
    ensures forall q :: p < q < p' ==> !Sieving(q)
  {
    hide Wheel, AddTab, HasWheelFactor;
    WheelNext(ai);
    WheelStops(c, ai, p);
    StopSieves(p);
    forall q | p < q < p + AddTab(ai)
      ensures !Sieving(q)
    {
      WheelStops(c, ai, q);
    }
    p' := p + AddTab(ai);
    c' := if ai == 47 then c + 1 else c;
    ai' := (ai + 1) % 48;
  }

  lemma StopSieves(p: nat)
    requires 11 <= p && !HasWheelFactor(p)
    ensures Sieving(p)
  {
  }

  // ----- striking out multiples

  /** The least index of a multiple of p above p itself, as the code computes it in
      words. */
  function FirstIndex(s0: nat, p: nat): nat
    requires 1 <= p
  {
    var pi := ((s0 + p) % WORD / 2) % p;
    var pi := if pi > 0 then p - pi else pi;
    if (s0 + 2 * pi) % WORD <= p then pi + p else pi
  }

  /** Index i of the segment denotes a proper multiple of p. */
  predicate Struck(s0: nat, p: nat, i: nat)
    requires 1 <= p
  {
    Divides(p, s0 + 2 * i) && p < s0 + 2 * i
  }

  /** The complement pi of the remainder r of h makes h + pi a multiple of p. */
  lemma ComplementIsMultiple(h: nat, p: nat, r: nat, pi: nat)
    requires 1 <= p && r == h % p && pi == if r > 0 then p - r else 0
    ensures Divides(p, h + pi)
  {
    var k := h / p;
    assert h == k * p + r;
    if r > 0 {
      DividesFrom(p, k + 1, h + pi);
    } else {
      DividesFrom(p, k, h + pi);
    }
  }

  /** Index i is marked for p.  Once s0 + p wraps nothing is marked, except entry 0
      when the sum is exactly a word. */
  predicate Hit(s0: nat, p: nat, i: nat) {
    1 <= p && if s0 + p < WORD then Struck(s0, p, i) else s0 + p == WORD && i == 0
  }

  lemma FirstIndexHit(s0: nat, p: nat)
    requires s0 % 2 == 1 && p % 2 == 1 && 3 <= p < WORD / 2 && 3 <= s0 && s0 + 2 * SIEVESIZE <= WORD
    ensures FirstIndex(s0, p) < SIEVESIZE ==> Hit(s0, p, FirstIndex(s0, p))
    ensures forall i :: 0 <= i < FirstIndex(s0, p) && i < SIEVESIZE ==> !Hit(s0, p, i)
  {
    hide Divides, Struck;
    if s0 + p < WORD {
      SmallMod(s0 + p, WORD);
      FirstIndexStruck(s0, p);
    } else if s0 + p == WORD {
      SmallMod(0, p);
      ModAddMul(0, 1, WORD);
      SmallMod(s0, WORD);
    } else {
      WrappedIndexBeyond(s0, p);
    }
  }

  /** Without a wrap of s0 + p the index is that of the first proper multiple. */
  lemma FirstIndexStruck(s0: nat, p: nat)
    requires s0 % 2 == 1 && p % 2 == 1 && 3 <= p && 3 <= s0 && s0 + 2 * SIEVESIZE <= WORD && s0 + p < WORD
    ensures FirstIndex(s0, p) < SIEVESIZE ==> Struck(s0, p, FirstIndex(s0, p))
    ensures forall i :: 0 <= i < FirstIndex(s0, p) && i < SIEVESIZE ==> !Struck(s0, p, i)
  {
    hide Divides, FirstIndex, Struck;
    SmallMod(s0 + p, WORD);
    var h := HalfOf(s0 + p);
    var pi := FirstIndexIs(s0, p, h);
    DividesProduct(p, h + pi, 2);
    DividesFrom(p, 1, p);
    assert 2 * (h + pi) == p + (s0 + 2 * pi);
    DividesSum(p, p, s0 + 2 * pi);
    IndexFromMultiple(s0, p, pi);
    if s0 + 2 * pi < WORD { SmallMod(s0 + 2 * pi, WORD); }
  }

  lemma HalfOf(x: nat) returns (h: nat)
    requires x % 2 == 0
    ensures h == x / 2 && x == 2 * h
  {
    h := x / 2;
  }

  /** The index by way of the complement of half the sum. */
  lemma FirstIndexIs(s0: nat, p: nat, h: nat) returns (pi: nat)
    requires 1 <= p && h == (s0 + p) % WORD / 2
    ensures pi < p && Divides(p, h + pi)
    ensures FirstIndex(s0, p) == if (s0 + 2 * pi) % WORD <= p then pi + p else pi
  {
    hide Divides;
    pi := if h % p > 0 then p - h % p else 0;
    ModMod(h, p);
    ComplementIsMultiple(h, p, h % p, pi);
  }

  /** When s0 + p wraps, the index lies beyond the segment. */
  lemma WrappedIndexBeyond(s0: nat, p: nat)
    requires s0 % 2 == 1 && p % 2 == 1 && 3 <= p < WORD / 2 && s0 + 2 * SIEVESIZE <= WORD < s0 + p
    ensures SIEVESIZE <= FirstIndex(s0, p)
  {
    hide Divides, FirstIndex;
    var x := s0 + p - WORD;
    ModAddMul(x, 1, WORD);
    SmallMod(x, WORD);
    var h := HalfOf(x);
    var pi := FirstIndexIs(s0, p, h);
    DividesProduct(p, h + pi, 2);
    DividesFrom(p, 1, p);
    assert 2 * (h + pi) == p - (WORD - s0 - 2 * pi);
    DividesSum(p, p, WORD - s0 - 2 * pi);
    if pi < SIEVESIZE { var k := DividesQuotient(p, WORD - s0 - 2 * pi); }
  }

  /** From a multiple of p on the segment to its first proper multiple. */
  lemma IndexFromMultiple(s0: nat, p: nat, pi: nat)
    requires 3 <= s0 && 3 <= p && p % 2 == 1 && pi < p && Divides(p, s0 + 2 * pi)
    ensures var f := if s0 + 2 * pi <= p then pi + p else pi;
      Struck(s0, p, f) && forall i :: 0 <= i < f ==> !Struck(s0, p, i)
  {
    hide Divides;
    var m := DividesQuotient(p, s0 + 2 * pi);
    DividesFrom(p, 2, 2 * p);
    DividesSum(p, 2 * p, s0 + 2 * pi);
    forall i | 0 <= i < (if s0 + 2 * pi <= p then pi + p else pi)
      ensures !Struck(s0, p, i)
    {
      if i < pi {
        GapBefore(s0, p, i, pi);
      } else if pi < i {
        GapBefore(s0, p, i, pi + p);
      }
    }
  }

  /** Indices of multiples of p lie p apart. */
  lemma GapBefore(s0: nat, p: nat, i: nat, j: nat)
    requires p % 2 == 1 && 3 <= p && i < j < i + p
    requires Divides(p, s0 + 2 * j) || (p <= j && Divides(p, s0 + 2 * (j - p)))
    ensures !Divides(p, s0 + 2 * i)
  {
    hide Divides;
    if !Divides(p, s0 + 2 * j) {
      DividesFrom(p, 2, 2 * p);
      DividesSum(p, 2 * p, s0 + 2 * (j - p));
    }
    if Divides(p, s0 + 2 * i) {
      DividesSum(p, s0 + 2 * j, s0 + 2 * i);
      assert s0 + 2 * j - (s0 + 2 * i) == 2 * (j - i);
      assert p * 1 + 2 * (-(p / 2)) == 1;
      CoprimeFromBezout(p, 2, 1, -(p / 2));
      CoprimeDivides(p, 2, j - i);
      var k := DividesQuotient(p, j - i);
    }
  }

  /** After a marked entry of the segment the next one is p further. */
  lemma NextHit(s0: nat, p: nat, j: nat)
    requires s0 % 2 == 1 && p % 2 == 1 && 3 <= p && s0 + 2 * SIEVESIZE <= WORD && j < SIEVESIZE && Hit(s0, p, j)
    ensures j + p < SIEVESIZE ==> Hit(s0, p, j + p)
    ensures forall i :: j < i < j + p && i < SIEVESIZE ==> !Hit(s0, p, i)
  {
    hide Divides;
    if s0 + p < WORD {
      DividesFrom(p, 2, 2 * p);
      DividesSum(p, 2 * p, s0 + 2 * j);
      forall i | j < i < j + p
        ensures !Struck(s0, p, i)
      {
        GapBefore(s0, p, i, j + p);
      }
    }
  }

  // ----- the square-root update

  /** The word-sized test of the update loop at r, e being the segment's end. */
  predicate StepsOver(r: nat, e: nat) {
    ((r + 1) * (r + 1)) % WORD <= e
  }

  /** Where the loop stops when it starts at 0. */
  ghost predicate RootFor(r: nat, e: nat) {
    !StepsOver(r, e) && forall k: nat :: k < r ==> StepsOver(k, e)
  }

  lemma NotPassed(r: nat, e: nat, k: nat)
    requires RootFor(r, e) && !StepsOver(k, e)
    ensures r <= k
  {
  }

  lemma LastRootPassed(e: nat)
    ensures StepsOver(0xFFFF_FFFF, e)
  {
  }

  /** The loop only passes the true root at the end of a word. */
  lemma RootReaches(r: nat, e: nat, q: nat)
    requires RootFor(r, e) && q * q <= e < WORD
    ensures q <= r
  {
    if r < q {
      MulMono(r + 1, q, r + 1);
      MulMono(r + 1, q, q);
      SmallMod((r + 1) * (r + 1), WORD);
    }
  }

  /** The loop stops at the true root, below the limit, and beyond every root of a
      word from there on. */
  lemma RootIs(r: nat, e: nat)
    requires RootFor(r, e) && e < WORD
    ensures e < SQRT_LIMIT ==> r < 0xFFFF_FFFF && r * r <= e < (r + 1) * (r + 1)
    ensures SQRT_LIMIT <= e ==> 0x1_0000_0000 <= r
  {
    if e < SQRT_LIMIT {
      var q := Root(e);
      RootReaches(r, e, q);
      BelowLimit(q);
      NotPassed(r, e, q);
    } else {
      RootReaches(r, e, 0xFFFF_FFFF);
      LastRootPassed(e);
    }
  }

  lemma RootUnique(r: nat, q: nat, e: nat)
    requires RootFor(r, e) && RootFor(q, e)
    ensures r == q
  {
    NotPassed(r, e, q);
    NotPassed(q, e, r);
  }

  /** With an exact square root r of the segment's end e, the word-sized test of
      the update loop fails to stop exactly when r is 2^32 - 1. */
  lemma SqrtTestStops(r: nat, e: nat)
    requires r * r <= e < (r + 1) * (r + 1) && e < WORD
    ensures StepsOver(r, e) <==> r == 0xFFFF_FFFF
  {
    if r >= 0x1_0000_0000 {
      MulMono(0x1_0000_0000, r, 0x1_0000_0000);
      MulMono(0x1_0000_0000, r, r);
    }
    if r < 0xFFFF_FFFF {
      MulMono(r + 1, 0xFFFF_FFFF, r + 1);
      MulMono(r + 1, 0xFFFF_FFFF, 0xFFFF_FFFF);
      SmallMod((r + 1) * (r + 1), WORD);
    }
  }

  /** A segment whose end keeps the update loop from running for ever.  As segments
      start at 3, 1027, ..., it is one whose end fits a word. */
  predicate Fits(t: nat) {
    3 <= t && t % 2 == 1 && t + 2 * SIEVESIZE <= WORD - 7
  }

  lemma FitsToTheEnd(t: nat)
    requires 3 <= t && t % (2 * SIEVESIZE) == 3
    ensures Fits(t) <==> EndOf(t) < WORD
  {
    var j := t / (2 * SIEVESIZE);
    assert t == 2 * SIEVESIZE * j + 3;
  }

  function EndOf(t: nat): nat {
    t + 2 * SIEVESIZE - 1
  }

  lemma RootExists(e: nat) returns (r: nat)
    requires e < WORD - 7
    ensures RootFor(r, e) && r < ROOT_OF_MINUS_7
  {
    r := 0;
    while StepsOver(r, e)
      invariant r < ROOT_OF_MINUS_7 && forall k: nat :: k < r ==> StepsOver(k, e)
      decreases ROOT_OF_MINUS_7 - r
    {
      r := r + 1;
    }
  }

  // ----- which entries stay clear

  /** Some p up to r marks entry i. */
  ghost predicate Marked(t: nat, r: nat, i: nat) {
    exists p: nat :: Sieving(p) && (p <= 7 || p <= r) && Hit(t, p, i)
  }

  lemma SievingOdd(p: nat)
    requires Sieving(p)
    ensures p % 2 == 1 && 3 <= p
  {
  }

  /** Some p below m marks entry i. */
  ghost predicate MarkedBelow(t: nat, m: nat, i: nat) {
    exists p: nat :: Sieving(p) && p < m && Hit(t, p, i)
  }

  lemma NothingMarked(t: nat, i: nat)
    ensures !MarkedBelow(t, 3, i)
  {
  }

  lemma MarkedNext(t: nat, p: nat, m: nat, i: nat)
    requires Sieving(p) && p < m && forall q: nat :: p < q < m ==> !Sieving(q)
    ensures MarkedBelow(t, m, i) <==> MarkedBelow(t, p, i) || Hit(t, p, i)
  {
    hide Hit, Sieving;
    SievingOdd(p);
    if MarkedBelow(t, m, i) {
      var q: nat :| Sieving(q) && q < m && Hit(t, q, i);
      assert q <= p;
    }
  }

  /** The loop over the stops has covered everything up to r. */
  lemma MarkedAll(t: nat, r: nat, m: nat, i: nat)
    requires 11 <= m && r < m && forall q: nat :: q < m && Sieving(q) ==> q <= 7 || q <= r
    ensures Marked(t, r, i) <==> MarkedBelow(t, m, i)
  {
    hide Hit, Sieving;
  }

  lemma FewBelowEleven(r: nat)
    ensures forall q: nat :: q < 11 && Sieving(q) ==> q <= 7 || q <= r
    ensures !Sieving(4) && !Sieving(6) && !Sieving(8) && !Sieving(9) && !Sieving(10)
  {
  }

  /** p = 2^64 - t is among the p, so that entry 0 is marked by a wrapped sum. */
  predicate FalseHit(t: nat, r: nat) {
    t < WORD && WORD - t <= r && Sieving(WORD - t)
  }

  /** An entry is marked when its number is composite with a factor below 2^64 - t, or
      by a wrapped sum. */
  lemma MarkedMeaning(t: nat, r: nat, i: nat)
    requires Fits(t) && RootFor(r, EndOf(t)) && i < SIEVESIZE
    ensures Marked(t, r, i) <==>
      (!IsPrime(t + 2 * i) && LeastPrimeFactor(t + 2 * i) + t < WORD) || (i == 0 && FalseHit(t, r))
  {
    hide Marked, RootFor, FalseHit, IsPrime, LeastPrimeFactor;
    if Marked(t, r, i) { MarkedWhy(t, r, i); }
    if !IsPrime(t + 2 * i) && LeastPrimeFactor(t + 2 * i) + t < WORD { CompositeMarked(t, r, i); }
    if i == 0 && FalseHit(t, r) { FalseHitMarks(t, r); }
  }

  lemma MarkedWhy(t: nat, r: nat, i: nat)
    requires Fits(t) && i < SIEVESIZE && Marked(t, r, i)
    ensures (!IsPrime(t + 2 * i) && LeastPrimeFactor(t + 2 * i) + t < WORD) || (i == 0 && FalseHit(t, r))
  {
    hide Sieving, IsPrime, Divides;
    var p: nat :| Sieving(p) && (p <= 7 || p <= r) && Hit(t, p, i);
    SievingOdd(p);
    if t + p < WORD { FactorFound(t + 2 * i, p); }
  }

  lemma CompositeMarked(t: nat, r: nat, i: nat)
    requires Fits(t) && RootFor(r, EndOf(t)) && i < SIEVESIZE
    requires !IsPrime(t + 2 * i) && LeastPrimeFactor(t + 2 * i) + t < WORD
    ensures Marked(t, r, i)
  {
    hide RootFor, Sieving, IsPrime, Divides;
    var q := CompositeHasSmallFactor(t + 2 * i);
    RootReaches(r, EndOf(t), q);
    PrimeAtLeast2(q);
    OddPrimeSieves(t + 2 * i, q);
    SievingOdd(q);
    assert Hit(t, q, i);
  }

  lemma FalseHitMarks(t: nat, r: nat)
    requires FalseHit(t, r)
    ensures Marked(t, r, 0)
  {
    hide Sieving;
    SievingOdd(WORD - t);
    assert Hit(t, WORD - t, 0);
  }

  lemma FactorFound(x: nat, p: nat)
    requires 2 <= p < x && Divides(p, x)
    ensures !IsPrime(x) && LeastPrimeFactor(x) <= p
  {
  }

  lemma NoFactor(q: nat, d: nat)
    requires IsPrime(q) && 2 <= d < q
    ensures q % d != 0
  {
    assert !Divides(d, q);
  }

  /** An odd prime, here a factor of an odd number, is among the p. */
  lemma OddPrimeSieves(x: nat, q: nat)
    requires IsPrime(q) && x % 2 == 1 && 2 <= q && Divides(q, x)
    ensures Sieving(q)
  {
    hide IsPrime;
    if q > 2 { NoFactor(q, 2); }
    if q > 3 { NoFactor(q, 3); }
    if q > 5 { NoFactor(q, 5); }
    if q > 7 { NoFactor(q, 7); }
  }

  // ----- the numbers returned

  /** The start of the segment with x. */
  function SegmentStart(x: nat): (t: nat)
    requires 3 <= x
    ensures 3 <= t <= x < t + 2 * SIEVESIZE && t % (2 * SIEVESIZE) == 3
  {
    var j := (x - 3) / (2 * SIEVESIZE);
    DivModUnique(3 + 2 * SIEVESIZE * j, 2 * SIEVESIZE, j, 3);
    x - (x - 3) % (2 * SIEVESIZE)
  }

  /** x is 2, or its entry stays clear; no claim is made beyond the end of a word. */
  ghost predicate Listed(x: nat) {
    x == 2 || (3 <= x && x % 2 == 1 && Fits(SegmentStart(x)) &&
      forall r: nat :: RootFor(r, EndOf(SegmentStart(x))) ==> !Marked(SegmentStart(x), r, (x - SegmentStart(x)) / 2))
  }

  lemma SegmentIs(t: nat, x: nat)
    requires 3 <= t <= x < t + 2 * SIEVESIZE && t % (2 * SIEVESIZE) == 3
    ensures SegmentStart(x) == t
  {
    var u := SegmentStart(x);
    var j, k := t / (2 * SIEVESIZE), u / (2 * SIEVESIZE);
    assert t == 2 * SIEVESIZE * j + 3 && u == 2 * SIEVESIZE * k + 3;
  }

  lemma ListedEntry(t: nat, r: nat, i: nat)
    requires Fits(t) && t % (2 * SIEVESIZE) == 3 && RootFor(r, EndOf(t)) && i < SIEVESIZE
    ensures Listed(t + 2 * i) <==> !Marked(t, r, i)
  {
    hide Marked, RootFor;
    SegmentIs(t, t + 2 * i);
    assert (t + 2 * i - t) / 2 == i;
    forall q: nat | RootFor(q, EndOf(t)) ensures q == r { RootUnique(q, r, EndOf(t)); }
  }

  ghost predicate IsNextListed(n: nat, p: nat) {
    n < p && Listed(p) && forall x: nat :: n < x < p ==> !Listed(x)
  }

  ghost predicate HasNext(n: nat) {
    exists p: nat :: IsNextListed(n, p)
  }

  ghost function NextListed(n: nat): (p: nat)
    requires HasNext(n)
    ensures IsNextListed(n, p)
  {
    var p: nat :| IsNextListed(n, p);
    p
  }

  /** The k-th number returned, counting from 1; 0 when there is none. */
  ghost function ListedBefore(k: nat): nat {
    if k == 0 then 1 else
      var n := ListedBefore(k - 1);
      if HasNext(n) then NextListed(n) else 0
  }

  lemma NextListedIs(k: nat, p: nat)
    requires IsNextListed(ListedBefore(k), p)
    ensures HasNext(ListedBefore(k)) && NextListed(ListedBefore(k)) == p == ListedBefore(k + 1)
  {
  }

  // ----- the sieve object

  class GmpPrimesieve {
    var d: nat
    var s0: nat
    var sqrtS0: nat
    const s: array<nat>
    /** How many numbers have been returned, and the last one of them. */
    ghost var count: nat
    ghost var last: nat

    /** Nothing returned yet. */
    ghost predicate Start()
      reads this
    {
      s0 == 0 && sqrtS0 == 0 && d == SIEVESIZE && count == 0
    }

    /** Only 2 returned; s0 holds 3 - 2 * SIEVESIZE as a wrapped word. */
    ghost predicate AfterTwo()
      reads this
    {
      s0 == WORD + 3 - 2 * SIEVESIZE && sqrtS0 == 0 && d == SIEVESIZE && last == 2
    }

    /** The entries of the segment are clear for the numbers to return. */
    ghost predicate Segment()
      reads this, s
    {
      && s.Length == SIEVESIZE + 1
      && Fits(s0) && s0 % (2 * SIEVESIZE) == 3 && RootFor(sqrtS0, EndOf(s0))
      && d <= SIEVESIZE
      && (forall i :: 0 <= i < SIEVESIZE ==> (s[i] == 0 <==> Listed(s0 + 2 * i)))
      && last < s0 + 2 * d
      && (forall x: nat :: last < x < s0 + 2 * d ==> !Listed(x))
    }

    ghost predicate Valid()
      reads this, s
    {
      && s.Length == SIEVESIZE + 1 && s[SIEVESIZE] == 0 && last == ListedBefore(count)
      && (Start() || AfterTwo() || Segment())
    }

    constructor Init()
      ensures Valid() && fresh(s) && count == 0
      ensures s.Length == 513 && s[512] == 0 && d == 512 && s0 == 0 && sqrtS0 == 0
    {
      s0 := 0;
      sqrtS0 := 0;
      d := SIEVESIZE;
      s := new nat[SIEVESIZE + 1];
      count := 0;
      last := 1;
      new;
      s[SIEVESIZE] := 0;
    }

    /** Mark the entries for p. */
    method StrikeOut(p: nat)
      requires s.Length == SIEVESIZE + 1 && Fits(s0) && Sieving(p) && p < WORD / 2
      modifies s
      ensures s[SIEVESIZE] == old(s[SIEVESIZE])
      ensures forall i :: 0 <= i < SIEVESIZE ==> s[i] == if Hit(s0, p, i) then 1 else old(s[i])
    {
      hide Sieving, Hit, FirstIndex;
      SievingOdd(p);
      var sp := FirstIndex(s0, p);
      FirstIndexHit(s0, p);
      while sp < SIEVESIZE
        invariant sp < SIEVESIZE ==> Hit(s0, p, sp)
        invariant s[SIEVESIZE] == old(s[SIEVESIZE])
        invariant forall i :: 0 <= i < SIEVESIZE && i < sp ==> s[i] == if Hit(s0, p, i) then 1 else old(s[i])
        invariant forall i :: sp <= i < SIEVESIZE ==> s[i] == old(s[i])
        decreases SIEVESIZE + p - sp
      {
        NextHit(s0, p, sp);
        s[sp] := 1;
        sp := sp + p;
      }
    }

    /** The marked entries are those for the p below m. */
    ghost predicate StruckBelow(m: nat)
      requires s.Length == SIEVESIZE + 1
      reads this, s
    {
      forall i :: 0 <= i < SIEVESIZE ==> (s[i] != 0 <==> MarkedBelow(s0, m, i))
    }

    /** Strike out p, after everything below it. */
    method StrikeNext(p: nat, ghost m: nat)
      requires s.Length == SIEVESIZE + 1 && Fits(s0) && Sieving(p) && p < WORD / 2
      requires StruckBelow(p) && p < m && forall q: nat :: p < q < m ==> !Sieving(q)
      modifies s
      ensures s[SIEVESIZE] == old(s[SIEVESIZE])
      ensures StruckBelow(m)
    {
      hide Sieving, Hit, MarkedBelow;
      StrikeOut(p);
      forall i | 0 <= i < SIEVESIZE
        ensures s[i] != 0 <==> MarkedBelow(s0, m, i)
      {
        MarkedNext(s0, p, m, i);
      }
    }

    /** Advance sqrtS0 until the word-sized test stops it. */
    method UpdateSqrt()
      requires Fits(s0) && forall k: nat :: k < sqrtS0 ==> StepsOver(k, EndOf(s0))
      modifies this`sqrtS0
      ensures RootFor(sqrtS0, EndOf(s0)) && sqrtS0 < ROOT_OF_MINUS_7
    {
      hide StepsOver;
      StopsAtMinus7(EndOf(s0));
      while StepsOver(sqrtS0, EndOf(s0))
        invariant forall k: nat :: k < sqrtS0 ==> StepsOver(k, EndOf(s0))
        invariant sqrtS0 < ROOT_OF_MINUS_7
        decreases ROOT_OF_MINUS_7 - sqrtS0
      {
        sqrtS0 := sqrtS0 + 1;
      }
    }

    /** Refill the table for the next segment. */
    method Resieve(ghost t: nat)
      requires s.Length == SIEVESIZE + 1 && s[SIEVESIZE] == 0
      requires t == (s0 + 2 * SIEVESIZE) % WORD && Fits(t)
      requires forall k: nat :: k < sqrtS0 ==> StepsOver(k, EndOf(t))
      modifies this`s0, this`sqrtS0, this`d, s
      ensures s0 == t && d == 0 && RootFor(sqrtS0, EndOf(s0))
      ensures s[SIEVESIZE] == 0
      ensures forall i :: 0 <= i < SIEVESIZE ==> (s[i] != 0 <==> Marked(s0, sqrtS0, i))
    {
      hide StepsOver, RootFor, Marked;
      forall i | 0 <= i < SIEVESIZE {
        s[i] := 0;
      }
      s0 := (s0 + 2 * SIEVESIZE) % WORD;
      UpdateSqrt();
      StrikeAll();
      d := 0;
    }

    /** Strike out 3, 5, 7 and every stop of the wheel up to sqrtS0. */
    method StrikeAll()
      requires s.Length == SIEVESIZE + 1 && Fits(s0) && sqrtS0 < ROOT_OF_MINUS_7
      requires forall i :: 0 <= i < SIEVESIZE ==> s[i] == 0
      modifies s
      ensures s[SIEVESIZE] == old(s[SIEVESIZE])
      ensures forall i :: 0 <= i < SIEVESIZE ==> (s[i] != 0 <==> Marked(s0, sqrtS0, i))
    {
      hide MarkedBelow, Marked;
      FewBelowEleven(sqrtS0);
      forall i | 0 <= i < SIEVESIZE ensures !MarkedBelow(s0, 3, i) { NothingMarked(s0, i); }
      StrikeNext(3, 5);
      StrikeNext(5, 7);
      StrikeNext(7, 11);
      var p := 11;
      var ai := 0;
      ghost var c := 0;
      hide Sieving;
      while p <= sqrtS0
        invariant OnWheel(p, ai, c)
        invariant s[SIEVESIZE] == old(s[SIEVESIZE])
        invariant StruckBelow(p)
        invariant forall q: nat :: q < p && Sieving(q) ==> q <= 7 || q <= sqrtS0
        decreases sqrtS0 + 10 - p
      {
        var next, ni, nc := WheelAdvance(p, ai, c);
        StrikeNext(p, next);
        p, ai, c := next, ni, nc;
      }
      forall i | 0 <= i < SIEVESIZE
        ensures s[i] != 0 <==> Marked(s0, sqrtS0, i)
      {
        MarkedAll(s0, sqrtS0, p, i);
      }
    }

    /** The scan over marked entries; the sentinel stops it. */
    method Scan() returns (sp: nat)
      requires s.Length == SIEVESIZE + 1 && s[SIEVESIZE] == 0 && d <= SIEVESIZE
      ensures d <= sp <= SIEVESIZE && s[sp] == 0
      ensures forall i :: d <= i < sp ==> s[i] != 0
    {
      sp := d;
      while s[sp] != 0
        invariant d <= sp <= SIEVESIZE
        invariant forall i :: d <= i < sp ==> s[i] != 0
        decreases SIEVESIZE - sp
      {
        sp := sp + 1;
      }
    }

    /** Return the number of entry sp. */
    method Take(sp: nat) returns (p: nat)
      requires Valid() && Segment() && d <= sp < SIEVESIZE && s[sp] == 0
      requires forall i :: d <= i < sp ==> s[i] != 0
      modifies this`d, this`count, this`last
      ensures Valid()
      ensures IsNextListed(old(last), p) && last == p && count == old(count) + 1
    {
      hide Listed, RootFor, StepsOver, ListedBefore, HasNext;
      Covered(sp);
      p := s0 + 2 * sp;
      assert Listed(p);
      NextListedIs(count, p);
      EvenNotListed(p + 1);
      d := sp + 1;
      count := count + 1;
      last := p;
    }

    /** Where the next segment starts, that it skips no number, and that it fits. */
    lemma NextStart() returns (t: nat)
      requires Valid() && !Start() && HasNext(last)
      requires forall i :: d <= i < SIEVESIZE ==> s[i] != 0
      ensures t == (s0 + 2 * SIEVESIZE) % WORD
      ensures Segment() ==> t == s0 + 2 * SIEVESIZE
      ensures Fits(t) && t % (2 * SIEVESIZE) == 3 && (forall k: nat :: k < sqrtS0 ==> StepsOver(k, EndOf(t)))
      ensures last < t <= NextListed(last)
      ensures forall x: nat :: last < x < t ==> !Listed(x)
    {
      hide Listed, StepsOver, ListedBefore;
      var p := NextListed(last);
      if Segment() {
        t := s0 + 2 * SIEVESIZE;
        Covered(SIEVESIZE);
        LaterRoot(sqrtS0, EndOf(s0), EndOf(t));
        ModAddMul(s0, 1, 2 * SIEVESIZE);
      } else {
        assert AfterTwo();
        t := 3;
      }
      StartFits(t, p);
      SmallMod(t, WORD);
      if !Segment() { ModAddMul(t, 1, WORD); }
    }

    /** Move on to the next segment when the current one holds nothing more to return. */
    method Refill()
      requires Valid() && !Start() && HasNext(last)
      requires forall i :: d <= i < SIEVESIZE ==> s[i] != 0
      modifies this`s0, this`sqrtS0, this`d, s
      ensures Valid() && Segment()
      ensures old(Segment()) ==> s0 == old(s0) + 2 * SIEVESIZE
      ensures s0 <= NextListed(last)
    {
      hide Listed, RootFor, StepsOver, Marked, ListedBefore, HasNext;
      ghost var t := NextStart();
      Resieve(t);
      forall i | 0 <= i < SIEVESIZE
        ensures s[i] == 0 <==> Listed(s0 + 2 * i)
      {
        ListedEntry(s0, sqrtS0, i);
      }
    }

    /** The k-th call returns the k-th listed number. */
    method GmpNextprime() returns (p: nat)
      requires Valid() && HasNext(last)
      modifies this, s
      ensures Valid()
      ensures count == old(count) + 1 && p == last == ListedBefore(count)
      ensures IsNextListed(old(last), p)
      decreases if Segment() then NextListed(last) + 1 - s0 else NextListed(last) + 2
    {
      hide Listed, RootFor, ListedBefore, HasNext;
      var sp := Scan();
      if sp != SIEVESIZE {
        p := Take(sp);
        return;
      }
      if s0 < 3 {
        FirstIsTwo();
        NextListedIs(0, 2);
        s0 := (WORD + 3 - 2 * SIEVESIZE) % WORD;
        count := count + 1;
        last := 2;
        return 2;
      }
      Refill();
      p := GmpNextprime();
    }

    /** Nothing from the last number up to the entries already found marked is
        listed. */
    lemma Covered(sp: nat)
      requires Segment() && d <= sp <= SIEVESIZE
      requires forall i :: d <= i < sp ==> s[i] != 0
      ensures forall x: nat :: last < x < s0 + 2 * sp ==> !Listed(x)
    {
      hide Listed, RootFor, StepsOver;
      forall x: nat | last < x < s0 + 2 * sp
        ensures !Listed(x)
      {
        if x >= s0 + 2 * d {
          if x % 2 == 0 {
            EvenNotListed(x);
          } else {
            var i := HalfGap(s0, x);
            assert s[i] != 0;
          }
        }
      }
    }
  }

  lemma StopsAtMinus7(e: nat)
    requires e < WORD - 7
    ensures !StepsOver(ROOT_OF_MINUS_7 - 1, e)
  {
  }

  lemma LaterRoot(r: nat, e: nat, e': nat)
    requires RootFor(r, e) && e <= e'
    ensures forall k: nat :: k < r ==> StepsOver(k, e')
  {
    forall k: nat | k < r ensures StepsOver(k, e') { assert StepsOver(k, e); }
  }

  lemma EvenNotListed(x: nat)
    requires 4 <= x && x % 2 == 0
    ensures !Listed(x)
  {
  }

  /** A segment that starts no later than a listed number fits. */
  lemma StartFits(t: nat, p: nat)
    requires 3 <= t <= p && t % (2 * SIEVESIZE) == 3 && Listed(p)
    ensures Fits(t)
  {
    var u := SegmentStart(p);
    var j, k := t / (2 * SIEVESIZE), u / (2 * SIEVESIZE);
    assert t == 2 * SIEVESIZE * j + 3 && u == 2 * SIEVESIZE * k + 3;
  }

  lemma FirstIsTwo()
    ensures ListedBefore(0) == 1 && IsNextListed(1, 2)
  {
  }

  // ----- when the numbers returned are the primes

  lemma HalfGap(t: nat, x: nat) returns (i: nat)
    requires t <= x < t + 2 * SIEVESIZE && t % 2 == 1 && x % 2 == 1
    ensures x == t + 2 * i && i < SIEVESIZE
  {
    i := (x - t) / 2;
  }

  /** Exactly which odd numbers of a word are returned. */
  lemma ListedMeaning(x: nat, r: nat)
    requires 3 <= x && x % 2 == 1 && Fits(SegmentStart(x)) && RootFor(r, EndOf(SegmentStart(x)))
    ensures var t := SegmentStart(x);
      Listed(x) <==> !(x == t && FalseHit(t, r)) && (IsPrime(x) || WORD <= LeastPrimeFactor(x) + t)
  {
    hide Listed, Marked, RootFor, FalseHit, IsPrime, LeastPrimeFactor;
    var t := SegmentStart(x);
    var i := HalfGap(t, x);
    ListedEntry(t, r, i);
    MarkedMeaning(t, r, i);
  }

  /** A segment lists exactly its primes if and only if entry 0 is not falsely marked
      for a prime and every composite, but for a falsely marked one, has a factor below
      2^64 less the segment's start. */
  lemma SegmentExactIff(t: nat, r: nat)
    requires Fits(t) && t % (2 * SIEVESIZE) == 3 && RootFor(r, EndOf(t))
    ensures (forall i :: 0 <= i < SIEVESIZE ==> (Listed(t + 2 * i) <==> IsPrime(t + 2 * i))) <==>
      !(FalseHit(t, r) && IsPrime(t)) && forall i :: 0 <= i < SIEVESIZE ==>
        IsPrime(t + 2 * i) || LeastPrimeFactor(t + 2 * i) + t < WORD || (i == 0 && FalseHit(t, r))
  {
    hide Listed, RootFor, FalseHit, IsPrime, LeastPrimeFactor;
    forall i | 0 <= i < SIEVESIZE
      ensures Listed(t + 2 * i) <==>
        !(i == 0 && FalseHit(t, r)) && (IsPrime(t + 2 * i) || WORD <= LeastPrimeFactor(t + 2 * i) + t)
    {
      SegmentIs(t, t + 2 * i);
      ListedMeaning(t + 2 * i, r);
    }
    assert t == t + 2 * 0;
  }

  /** Segments that leave 2^32 numbers of the word list their primes, apart from a
      falsely marked entry 0. */
  lemma ExactBeforeLastBlock(x: nat, r: nat)
    requires 3 <= x && x % 2 == 1 && Fits(SegmentStart(x)) && RootFor(r, EndOf(SegmentStart(x)))
    requires SegmentStart(x) + 0x1_0000_0000 <= WORD
    ensures Listed(x) <==> IsPrime(x) && !(x == SegmentStart(x) && FalseHit(SegmentStart(x), r))
  {
    hide RootFor, FalseHit, Listed;
    ListedMeaning(x, r);
    if !IsPrime(x) {
      var q := CompositeHasSmallFactor(x);
      RootBelow(q, 0x1_0000_0000, x);
    }
  }

  lemma RootBelow(q: nat, b: nat, x: nat)
    requires q * q <= x < b * b
    ensures q < b
  {
    if b <= q { MulMono(b, q, b); MulMono(b, q, q); }
  }

  /** A segment that ends below the limit. */
  lemma StartBelow(t: nat, r: nat)
    requires 3 <= t && t % (2 * SIEVESIZE) == 3 && t + 2 * SIEVESIZE <= SQRT_LIMIT && r < 0xFFFF_FFFF
    ensures Fits(t) && t + 0x1_0000_0000 <= WORD && !FalseHit(t, r)
    ensures EndOf(t) < SQRT_LIMIT
  {
    hide Sieving;
    var j := t / (2 * SIEVESIZE);
    assert t == 2 * SIEVESIZE * j + 3;
  }

  /** Below the limit the listed numbers are the primes. */
  lemma ExactBelowLimit(x: nat)
    requires x + 2 * SIEVESIZE <= SQRT_LIMIT
    ensures Listed(x) <==> IsPrime(x)
  {
    hide Listed, RootFor, SegmentStart, FalseHit, IsPrime, Fits;
    if 3 <= x && x % 2 == 1 {
      var t := SegmentStart(x);
      StartBelow(t, 0);
      var r := RootExists(EndOf(t));
      RootIs(r, EndOf(t));
      StartBelow(t, r);
      ExactBeforeLastBlock(x, r);
    } else {
      EvenCase(x);
    }
  }

  lemma EvenCase(x: nat)
    requires x < 3 || x % 2 == 0
    ensures Listed(x) <==> IsPrime(x)
  {
    if 4 <= x { assert Divides(2, x); }
    assert IsPrime(2);
  }

  ghost predicate ListsPrimesTo(n: nat) {
    forall x: nat :: x <= n ==> (Listed(x) <==> IsPrime(x))
  }

  /** The first k + 1 calls return the first k + 1 primes if and only if the listed
      numbers up to the last of these are the primes. */
  lemma {:induction false} CallsReturnPrimes(k: nat)
    ensures (forall j: nat :: j <= k ==> ListedBefore(j + 1) == NthPrime(j)) <==> ListsPrimesTo(NthPrime(k))
    decreases k
  {
    hide Listed, IsPrime, ListedBefore, HasNext;
    if k > 0 { CallsReturnPrimes(k - 1); }
    if ListsPrimesTo(NthPrime(k)) {
      if k > 0 { assert ListsPrimesTo(NthPrime(k - 1)); }
      BothStart();
      NextListedIs(k, NthPrime(k));
    } else if forall j: nat :: j <= k ==> ListedBefore(j + 1) == NthPrime(j) {
      BothStart();
      ReturnedIsNext(k);
      forall x: nat | x <= NthPrime(k)
        ensures Listed(x) <==> IsPrime(x)
      {
        if k == 0 && x <= 1 { EvenCase(x); }
      }
    }
  }

  /** x is listed exactly when it is prime, in terms of its segment's start and root. */
  ghost predicate ListedRightly(x: nat)
    requires 3 <= x
  {
    var t := SegmentStart(x);
    && Fits(t)
    && forall r: nat :: RootFor(r, EndOf(t)) ==>
      if IsPrime(x) then !(x == t && FalseHit(t, r))
      else LeastPrimeFactor(x) + t < WORD || (x == t && FalseHit(t, r))
  }

  lemma ListedRightlyMeaning(x: nat)
    requires 3 <= x && x % 2 == 1
    ensures Fits(SegmentStart(x)) ==> (ListedRightly(x) <==> (Listed(x) <==> IsPrime(x)))
  {
    hide Listed, RootFor, FalseHit, IsPrime, LeastPrimeFactor, SegmentStart, Fits;
    var t := SegmentStart(x);
    if Fits(t) {
      FitsRoom(t);
      var q := RootExists(EndOf(t));
      forall r: nat | RootFor(r, EndOf(t)) ensures r == q { RootUnique(r, q, EndOf(t)); }
      ListedMeaning(x, q);
    }
  }

  lemma FitsRoom(t: nat)
    requires Fits(t)
    ensures EndOf(t) < WORD - 7
  {
  }

  /** A listed number has every segment before it in the word. */
  lemma ListedFits(x: nat, n: nat)
    requires 3 <= x <= n && Listed(n)
    ensures Fits(SegmentStart(x))
  {
    StartFits(SegmentStart(x), n);
  }

  lemma NthPrimeIsPrime(k: nat)
    ensures IsPrime(NthPrime(k))
  {
  }

  /** The same condition without the listed numbers: the first k + 1 calls return the
      first k + 1 primes if and only if no prime up to the last of these is falsely
      marked and every odd composite has a factor below 2^64 less its segment's start,
      or is falsely marked. */
  lemma CallsReturnPrimesIff(k: nat)
    ensures (forall j: nat :: j <= k ==> ListedBefore(j + 1) == NthPrime(j)) <==>
      forall x: nat :: 3 <= x <= NthPrime(k) && x % 2 == 1 ==> ListedRightly(x)
  {
    hide Listed, ListedRightly, ListedBefore, IsPrime, HasNext, NthPrime;
    var n := NthPrime(k);
    CallsReturnPrimes(k);
    NthPrimeIsPrime(k);
    if ListsPrimesTo(n) {
      forall x: nat | 3 <= x <= n && x % 2 == 1 ensures ListedRightly(x) {
        ListedFits(x, n);
        ListedRightlyMeaning(x);
      }
    }
    if forall x: nat :: 3 <= x <= n && x % 2 == 1 ==> ListedRightly(x) {
      forall x: nat | x <= n ensures Listed(x) <==> IsPrime(x) {
        if 3 <= x && x % 2 == 1 { RightlyListed(x); } else { EvenCase(x); }
      }
    }
  }

  lemma RightlyListed(x: nat)
    requires 3 <= x && x % 2 == 1 && ListedRightly(x)
    ensures Listed(x) <==> IsPrime(x)
  {
    hide Listed, RootFor, FalseHit, IsPrime, LeastPrimeFactor, SegmentStart;
    ListedRightlyMeaning(x);
  }

  lemma BothStart()
    ensures ListedBefore(0) == 1 == PrimeBefore(0)
  {
  }

  lemma ReturnedIsNext(k: nat)
    requires ListedBefore(k + 1) == NthPrime(k)
    ensures IsNextListed(ListedBefore(k), NthPrime(k))
  {
  }

  /** Below the limit the k-th call returns the k-th prime. */
  lemma KthCallBelowLimit(k: nat)
    requires NthPrime(k) + 2 * SIEVESIZE <= SQRT_LIMIT
    ensures HasNext(ListedBefore(k)) && ListedBefore(k + 1) == NthPrime(k)
  {
    hide Listed, IsPrime, ListedBefore;
    forall x: nat | x <= NthPrime(k) ensures Listed(x) <==> IsPrime(x) { ExactBelowLimit(x); }
    CallsReturnPrimes(k);
    ReturnedIsNext(k);
  }

  lemma BelowLimit(q: nat)
    requires q * q < SQRT_LIMIT
    ensures q < 0xFFFF_FFFF && (q + 1) * (q + 1) < WORD
    ensures ((q + 1) * (q + 1)) % WORD == (q + 1) * (q + 1)
  {
    if q >= 0xFFFF_FFFF {
      MulMono(0xFFFF_FFFF, q, q);
      MulMono(0xFFFF_FFFF, q, 0xFFFF_FFFF);
    }
    MulMono(q + 1, 0xFFFF_FFFF, q + 1);
    MulMono(q + 1, 0xFFFF_FFFF, 0xFFFF_FFFF);
  }
}
