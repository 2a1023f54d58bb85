/** The trial division tables: the primality test of bootstrap.c and the two passes
    of gen-trialdivtab.c that cut the odd primes into one-limb products. */
module TrialDivTables {
  import opened Arith
  import opened Primes
  import opened Products
  import opened LimbDivision
  import BinaryInverse
  import Limbs
  import Reciprocals

  // ----- isprime

  /** The primes below 32 as a bit mask. */
  const SMALL_PRIMES: nat := 0xa08a28ac

  predicate SmallPrime(t: nat) {
    t == 2 || t == 3 || t == 5 || t == 7 || t == 11 || t == 13 || t == 17 || t == 19 || t == 23 || t == 29 || t == 31
  }

  /** The low k bits of n tell the small primes from b on. */
  predicate Holds(n: nat, b: nat, k: nat)
    decreases k
  {
    k == 0 || ((n % 2 == 1) == SmallPrime(b) && Holds(n / 2, b + 1, k - 1))
  }

  lemma Mask24() ensures Holds(0xa0, 24, 8) { }
  lemma Mask16() ensures Holds(0xa08a, 16, 16) { Mask24(); }
  lemma Mask8() ensures Holds(0xa08a28, 8, 24) { Mask16(); }
  lemma Mask0() ensures Holds(0xa08a28ac, 0, 32) { Mask8(); }

  lemma {:induction false} HoldsMeaning(n: nat, b: nat, k: nat, j: nat)
    requires Holds(n, b, k) && j < k
    ensures Limbs.NatBit(n, j) == SmallPrime(b + j)
    decreases k
  {
    if j > 0 { HoldsMeaning(n / 2, b + 1, k - 1, j - 1); }
  }

  /** Below 49 only 2, 3 and 5 matter as factors. */
  lemma SmallPrimeMeaning(t: nat)
    requires t < 32
    ensures SmallPrime(t) <==> IsPrime(t)
  {
    if 2 <= t && !IsPrime(t) {
      var p := CompositeHasSmallFactor(t);
      if p >= 6 { MulMono(6, p, 6); MulMono(6, p, p); }
      assert p == 2 || p == 3 || p == 5 by { assert p == 4 ==> Divides(2, p); }
    }
    if IsPrime(t) {
      assert 2 < t ==> !Divides(2, t);
      assert 3 < t ==> !Divides(3, t);
      assert 5 < t ==> !Divides(5, t);
    }
  }

  ghost predicate NoDivisorBelow(t: nat, d: nat) {
    forall k :: 2 <= k < d ==> !Divides(k, t)
  }

  /** Without divisors below d and with t < d * d, t is prime. */
  lemma PrimeBySquare(t: nat, d: nat)
    requires 2 <= t && 2 <= d && NoDivisorBelow(t, d) && t / d < d
    ensures IsPrime(t)
  {
    if !IsPrime(t) {
      var p := CompositeHasSmallFactor(t);
      var q := t / d;
      SquareAbove(t, d);
      MulMono(d, p, d);
      MulMono(d, p, p);
    }
  }

  lemma SquareAbove(t: nat, d: nat)
    requires 0 < d && t / d < d
    ensures t < d * d
  {
    var q := t / d;
    assert t == q * d + t % d;
    MulMono(q + 1, d, d);
    assert (q + 1) * d == q * d + d;
  }

  lemma NotPrime(t: nat, d: nat)
    requires 2 <= d && t % d == 0 && d < t
    ensures !IsPrime(t)
  {
    assert Divides(d, t);
  }

  /** From d, congruent to 5 modulo 6, the numbers d + 1, d + 3, d + 4, d + 5 have a
      factor 2 or 3. */
  lemma SkipSix(t: nat, d: nat)
    requires 11 <= d && d % 6 == 5 && t % 2 != 0 && t % 3 != 0
    requires NoDivisorBelow(t, d) && !Divides(d, t)
    ensures NoDivisorBelow(t, d + 2)
    ensures !Divides(d + 2, t) ==> NoDivisorBelow(t, d + 6)
  {
    var j := d / 6;
    assert d == 6 * j + 5;
    NoMultiple(t, 2, 3 * j + 3);
    NoMultiple(t, 2, 3 * j + 4);
    NoMultiple(t, 3, 2 * j + 3);
    NoMultiple(t, 2, 3 * j + 5);
  }

  lemma NoMultiple(t: nat, c: nat, k: nat)
    requires 2 <= c && t % c != 0 && 1 <= k
    ensures 0 < c * k && !Divides(c * k, t)
  {
    MulPositive(c, k);
    if Divides(c * k, t) {
      DividesFrom(c, k, c * k);
      DividesTrans(c, c * k, t);
    }
  }

  lemma StartAtEleven(t: nat)
    requires t % 2 != 0 && t % 3 != 0 && t % 5 != 0 && t % 7 != 0
    ensures NoDivisorBelow(t, 11)
  {
    NoMultiple(t, 2, 2);
    NoMultiple(t, 2, 3);
    NoMultiple(t, 2, 4);
    NoMultiple(t, 3, 3);
    NoMultiple(t, 2, 5);
  }

  lemma RemainderIs(t: nat, d: nat)
    requires 0 < d
    ensures t - t / d * d == t % d
  {
  }

  method Isprime(t: nat) returns (r: bool)
    ensures r <==> IsPrime(t)
  {
    hide IsPrime, NoDivisorBelow;
    if t < 32 {
      Mask0();
      HoldsMeaning(SMALL_PRIMES, 0, 32, t);
      SmallPrimeMeaning(t);
      return Limbs.NatBit(SMALL_PRIMES, t);
    }
    if t % 2 == 0 { NotPrime(t, 2); return false; }
    if t % 3 == 0 { NotPrime(t, 3); return false; }
    if t % 5 == 0 { NotPrime(t, 5); return false; }
    if t % 7 == 0 { NotPrime(t, 7); return false; }
    StartAtEleven(t);
    r := TrialDivide(t);
  }

  datatype Verdict = Prime | Composite | Open

  /** One test of the loop: q = t / d, r = t - q * d, and its two exits. */
  method TestDivisor(t: nat, d: nat) returns (v: Verdict)
    requires 2 <= t && 11 <= d && NoDivisorBelow(t, d)
    ensures v == Prime ==> IsPrime(t)
    ensures v == Composite ==> !IsPrime(t)
    ensures v == Open ==> !Divides(d, t) && d + 4 < t
  {
    hide IsPrime, NoDivisorBelow;
    var q := t / d;
    var r := t - q * d;
    RemainderIs(t, d);
    if q < d { PrimeBySquare(t, d); return Prime; }
    QuotientBelow(t, d);
    if r == 0 { NotPrime(t, d); return Composite; }
    return Open;
  }

  /** The loop of isprime, over numbers that are 5 or 1 modulo 6. */
  method TrialDivide(t: nat) returns (r: bool)
    requires 32 <= t && t % 2 != 0 && t % 3 != 0 && NoDivisorBelow(t, 11)
    ensures r <==> IsPrime(t)
  {
    hide IsPrime, NoDivisorBelow, Divides;
    var d := 11;
    while true
      invariant 11 <= d && d % 6 == 5 && NoDivisorBelow(t, d)
      decreases t - d
    {
      var v := TestDivisor(t, d);
      if v != Open { return v == Prime; }
      SkipSix(t, d);
      d := d + 2;
      v := TestDivisor(t, d);
      if v != Open { return v == Prime; }
      d := d + 4;
    }
  }

  lemma QuotientBelow(t: nat, d: nat)
    requires 11 <= d && d <= t / d
    ensures d + 4 < t
  {
    var q := t / d;
    assert t == q * d + t % d;
    MulMono(11, q, d);
  }

  // ----- the greedy cut

  function OddPrimes(lo: nat, hi: nat): (ps: seq<nat>)
    ensures forall i :: 0 <= i < |ps| ==> lo <= ps[i] <= hi && IsPrime(ps[i]) && ps[i] % 2 == lo % 2
    decreases hi + 2 - lo
  {
    if hi < lo then [] else (if IsPrime(lo) then [lo] else []) + OddPrimes(lo + 2, hi)
  }

  /** All odd primes of the range, in increasing order, when lo is odd. */
  lemma {:induction false} OddPrimesAll(lo: nat, hi: nat, x: nat)
    ensures x in OddPrimes(lo, hi) <==> lo <= x <= hi && IsPrime(x) && x % 2 == lo % 2
    ensures forall i, j :: 0 <= i < j < |OddPrimes(lo, hi)| ==> OddPrimes(lo, hi)[i] < OddPrimes(lo, hi)[j]
    decreases hi + 2 - lo
  {
    hide IsPrime;
    if lo <= hi {
      OddPrimesAll(lo + 2, hi, x);
      var rest := OddPrimes(lo + 2, hi);
      assert OddPrimes(lo, hi) == (if IsPrime(lo) then [lo] else []) + rest;
      assert x in OddPrimes(lo, hi) <==> (x == lo && IsPrime(lo)) || x in rest;
    }
  }

  /** B^i modulo b. */
  function Residue(i: nat, b: nat): (r: nat)
    requires 0 < b
    ensures r < b
  {
    ModMod(Pow(B, i), b);
    Pow(B, i) % b
  }

  function ResidueSum(b: nat): nat
    requires 0 < b
  {
    Residue(1, b) + Residue(2, b) + Residue(3, b) + Residue(4, b) + Residue(5, b)
  }

  /** Whether a product may not be used: half a limb or more, or spilling residues. */
  predicate Stop(b: nat)
    requires 0 < b
  {
    B / 2 <= b || B <= ResidueSum(b)
  }

  /** The product of the primes from i up to but not including j. */
  function SliceProduct(ps: seq<nat>, i: nat, j: nat): (r: nat)
    requires i <= j <= |ps| && forall k :: 0 <= k < |ps| ==> 0 < ps[k]
    ensures 0 < r
  {
    ProductPositive(ps[i..j]);
    Product(ps[i..j])
  }

  /** A completed slice of the prime list. */
  datatype Slice = Slice(start: nat, end: nat)

  /** The completed slices when the primes from index k on are appended one by one to
      the slice that starts at start. */
  function Cut(ps: seq<nat>, start: nat, k: nat): seq<Slice>
    requires start <= k <= |ps| && forall i :: 0 <= i < |ps| ==> 0 < ps[i]
    decreases |ps| - k
  {
    if k == |ps| then []
    else if Stop(SliceProduct(ps, start, k + 1)) then [Slice(start, k)] + Cut(ps, k, k + 1)
    else Cut(ps, start, k + 1)
  }

  lemma ProductExtend(ps: seq<nat>, start: nat, k: nat)
    requires start <= k < |ps| && forall i :: 0 <= i < |ps| ==> 0 < ps[i]
    ensures SliceProduct(ps, start, k + 1) == SliceProduct(ps, start, k) * ps[k]
  {
    assert ps[start..k + 1] == ps[start..k] + [ps[k]];
    ProductAppend(ps[start..k], [ps[k]]);
    ProductSingle(ps[k]);
  }

  lemma ProductStart(ps: seq<nat>, k: nat)
    requires k < |ps| && forall i :: 0 <= i < |ps| ==> 0 < ps[i]
    ensures SliceProduct(ps, k, k) == 1 && SliceProduct(ps, k, k + 1) == ps[k]
  {
    ProductExtend(ps, k, k);
    assert ps[k..k] == [];
  }

  /** A single table prime can always be used. */
  lemma SingleUsable(t: nat)
    requires 1 <= t < 0x8000_0000
    ensures !Stop(t)
  {
  }

  predicate SmallNumbers(ps: seq<nat>) {
    forall i :: 0 <= i < |ps| ==> 0 < ps[i] < 0x8000_0000
  }

  /** From start on, the product stays usable up to k. */
  predicate Usable(ps: seq<nat>, start: nat, k: nat)
    requires start <= k <= |ps| && SmallNumbers(ps)
  {
    forall j :: start < j <= k ==> !Stop(SliceProduct(ps, start, j))
  }

  /** A slice that stays usable as it grows and could not take the next prime. */
  predicate GoodSlice(ps: seq<nat>, c: Slice)
    requires SmallNumbers(ps)
  {
    c.start < c.end < |ps| && Usable(ps, c.start, c.end) && Stop(SliceProduct(ps, c.start, c.end + 1))
  }

  /** Consecutive slices from start on, with a tail that is usable throughout. */
  predicate Greedy(ps: seq<nat>, start: nat, cs: seq<Slice>)
    requires start <= |ps| && SmallNumbers(ps)
    decreases |cs|
  {
    if cs == [] then Usable(ps, start, |ps|)
    else cs[0].start == start && GoodSlice(ps, cs[0]) && Greedy(ps, cs[0].end, cs[1..])
  }

  lemma UsableNext(ps: seq<nat>, start: nat, k: nat)
    requires start <= k < |ps| && SmallNumbers(ps) && Usable(ps, start, k)
    ensures Usable(ps, start, k + 1) <==> !Stop(SliceProduct(ps, start, k + 1))
  {
    hide Stop, SliceProduct;
  }

  lemma UsableSingle(ps: seq<nat>, k: nat)
    requires k < |ps| && SmallNumbers(ps)
    ensures Usable(ps, k, k + 1)
  {
    hide Stop, SliceProduct;
    ProductStart(ps, k);
    SingleUsable(ps[k]);
  }

  /** The slices cut greedily are the greedy ones: each stays usable, could not take
      the next prime, and starts where the one before ends; the rest stays usable. */
  lemma {:induction false} CutSlices(ps: seq<nat>, start: nat, k: nat)
    requires start <= k <= |ps| && SmallNumbers(ps) && Usable(ps, start, k) && (start == k ==> k == 0)
    ensures Greedy(ps, start, Cut(ps, start, k))
    decreases |ps| - k
  {
    hide Stop, SliceProduct, Usable;
    if k < |ps| {
      UsableNext(ps, start, k);
      UsableSingle(ps, k);
      if Stop(SliceProduct(ps, start, k + 1)) {
        CutSlices(ps, k, k + 1);
        assert ([Slice(start, k)] + Cut(ps, k, k + 1))[1..] == Cut(ps, k, k + 1);
      } else {
        CutSlices(ps, start, k + 1);
      }
    }
  }

  /** No other cut is greedy. */
  lemma {:induction false} CutUnique(ps: seq<nat>, start: nat, k: nat, cs: seq<Slice>)
    requires start <= k <= |ps| && SmallNumbers(ps) && Usable(ps, start, k) && (start == k ==> k == 0)
    requires Greedy(ps, start, cs) && (cs != [] ==> k <= cs[0].end)
    ensures cs == Cut(ps, start, k)
    decreases |ps| - k
  {
    hide Stop, SliceProduct;
    if k < |ps| {
      UsableNext(ps, start, k);
      UsableSingle(ps, k);
      if Stop(SliceProduct(ps, start, k + 1)) {
        assert cs != [] && cs[0] == Slice(start, k);
        CutUnique(ps, k, k + 1, cs[1..]);
        assert cs == [cs[0]] + cs[1..];
      } else {
        CutUnique(ps, start, k + 1, cs);
      }
    }
  }

  /** The cut is the only greedy division of the list into slices and a tail. */
  lemma CutIffGreedy(ps: seq<nat>, cs: seq<Slice>)
    requires SmallNumbers(ps)
    ensures Greedy(ps, 0, cs) <==> cs == Cut(ps, 0, 0)
  {
    hide Stop, SliceProduct, Greedy;
    CutSlices(ps, 0, 0);
    if Greedy(ps, 0, cs) { CutUnique(ps, 0, 0, cs); }
  }

  /** What a greedy division says of its slices one by one. */
  lemma {:induction false} GreedySlices(ps: seq<nat>, start: nat, cs: seq<Slice>)
    requires start <= |ps| && SmallNumbers(ps) && Greedy(ps, start, cs)
    ensures forall i :: 0 <= i < |cs| ==> GoodSlice(ps, cs[i])
    ensures cs != [] ==> cs[0].start == start
    ensures forall i :: 0 <= i < |cs| - 1 ==> cs[i + 1].start == cs[i].end
    decreases |cs|
  {
    hide GoodSlice, Usable;
    if cs != [] {
      var rest := cs[1..];
      GoodSliceEnd(ps, cs[0]);
      GreedySlices(ps, cs[0].end, rest);
      forall i | 0 <= i < |cs| ensures GoodSlice(ps, cs[i]) {
        if i > 0 { assert cs[i] == rest[i - 1]; }
      }
      forall i | 0 <= i < |cs| - 1 ensures cs[i + 1].start == cs[i].end {
        assert cs[i + 1] == rest[i];
        if i > 0 { assert cs[i] == rest[i - 1]; }
      }
    }
  }

  lemma GoodSliceEnd(ps: seq<nat>, c: Slice)
    requires SmallNumbers(ps) && GoodSlice(ps, c)
    ensures c.end <= |ps|
  {
  }

  // ----- the residues of a product

  /** mpn_mod_1s_4p_cps: the reciprocal, the shift count, and B^1 .. B^5 modulo b. */
  method Cps(b: nat) returns (bi: int, cnt: nat, res: seq<nat>)
    requires 0 < b && Reciprocals.BitLength(b) <= 64
    ensures bi == Reciprocals.CpsInverse(b, 64) && cnt == 64 - Reciprocals.BitLength(b)
    ensures |res| == 5 && forall i :: 0 <= i < 5 ==> res[i] == Residue(i + 1, b)
  {
    hide Residue;
    bi := Reciprocals.CpsInverse(b, 64);
    cnt := 64 - Reciprocals.BitLength(b);
    FirstResidue(b);
    var t: nat := B % b;
    res := [t];
    for i := 1 to 5
      invariant |res| == i && t == Residue(i, b) && forall j :: 0 <= j < i ==> res[j] == Residue(j + 1, b)
    {
      ghost var q := NextResidue(i, b);
      DivModUnique(t * B, b, q, Residue(i + 1, b));
      t := (t * B) % b;
      res := res + [t];
    }
  }

  lemma NextResidue(i: nat, b: nat) returns (q: int)
    requires 0 < b
    ensures Residue(i, b) * B == q * b + Residue(i + 1, b)
  {
    var r := Residue(i, b);
    ModMod(Pow(B, i), b);
    CongMul(r, Pow(B, i), B, B, b);
    assert Pow(B, i + 1) == B * Pow(B, i) == Pow(B, i) * B;
    q := r * B / b;
  }

  lemma FirstResidue(b: nat)
    requires 0 < b
    ensures B % b == Residue(1, b)
  {
    assert Pow(B, 1) == B * Pow(B, 0);
  }

  /** sumspills over five residues. */
  method Sumspills(a: seq<nat>) returns (spills: bool)
    requires |a| == 5
    ensures spills <==> B <= a[0] + a[1] + a[2] + a[3] + a[4]
  {
    var s := a[0];
    var i := 1;
    while i < 5
      invariant 1 <= i <= 5
      invariant s == a[0] + (if i > 1 then a[1] else 0) + (if i > 2 then a[2] else 0)
        + (if i > 3 then a[3] else 0) + (if i > 4 then a[4] else 0)
    {
      s := s + a[i];
      i := i + 1;
    }
    spills := s >= B;
  }

  lemma HalfLimbLength(b: nat)
    requires 0 < b < B
    ensures Reciprocals.BitLength(b) <= 64
  {
    Pow64();
    if Reciprocals.BitLength(b) > 64 { PowMono(2, 64, Reciprocals.BitLength(b) - 1); }
  }

  /** The stopping test of both passes. */
  method StopTest(acc: nat) returns (stop: bool)
    requires 0 < acc
    ensures stop <==> Stop(acc)
    ensures stop <==>
      (|| 0x8000_0000_0000_0000 <= acc
       || 0x1_0000_0000_0000_0000
          <= Pow(B, 1) % acc + Pow(B, 2) % acc + Pow(B, 3) % acc + Pow(B, 4) % acc + Pow(B, 5) % acc)
  {
    hide Pow;
    stop := acc >= B / 2;
    if !stop {
      HalfLimbLength(acc);
      var bi, cnt, res := Cps(acc);
      stop := Sumspills(res);
    }
  }

  // ----- the passes

  lemma OddPrimesStep(lo: nat, hi: nat)
    ensures OddPrimes(lo, hi) == if hi < lo then [] else (if IsPrime(lo) then [lo] else []) + OddPrimes(lo + 2, hi)
  {
  }

  /** Extending the range by one odd number. */
  lemma {:induction false} OddPrimesNext(lo: nat, t: nat)
    requires 2 <= t && lo <= t && lo % 2 == t % 2
    ensures OddPrimes(lo, t) == OddPrimes(lo, t - 2) + (if IsPrime(t) then [t] else [])
    decreases t - lo
  {
    hide IsPrime, OddPrimes;
    OddPrimesStep(lo, t);
    OddPrimesStep(lo, t - 2);
    if lo < t {
      OddPrimesNext(lo + 2, t);
      var head, rest := if IsPrime(lo) then [lo] else [], OddPrimes(lo + 2, t - 2);
      var last := if IsPrime(t) then [t] else [];
      assert head + (rest + last) == (head + rest) + last;
    } else {
      OddPrimesStep(t + 2, t);
    }
  }

  datatype PEntry = PEntry(p: nat, inv: nat, lim: int)

  /** The entry decides divisibility by p of every limb. */
  ghost predicate GoodEntry(e: PEntry) {
    0 < e.p && forall x: Word :: Divides(e.p, x) <==> Low(x * e.inv) <= e.lim
  }

  ghost predicate Lists(entries: seq<PEntry>, ps: seq<nat>) {
    |entries| == |ps| && forall i :: 0 <= i < |ps| ==> entries[i].p == ps[i] && GoodEntry(entries[i])
  }

  lemma ListsAppend(entries: seq<PEntry>, ps: seq<nat>, more: seq<PEntry>, qs: seq<nat>)
    requires Lists(entries, ps) && Lists(more, qs)
    ensures Lists(entries + more, ps + qs)
  {
  }

  method MakeEntry(p: nat) returns (e: PEntry)
    requires 3 <= p < 0x8000_0000 && p % 2 == 1
    ensures Lists([e], [p])
  {
    hide Low, Divides;
    var inv, lim := BinaryInverse.DtabEntry(p);
    e := PEntry(p, inv, lim);
  }

  /** The primes from lo up to below p are in done. */
  ghost predicate Reached(done: seq<nat>, lo: nat, p: nat, hi: nat) {
    OddPrimes(lo, hi) == done + OddPrimes(p, hi)
  }

  lemma ReachedStart(lo: nat, hi: nat)
    ensures Reached([], lo, lo, hi)
  {
    assert [] + OddPrimes(lo, hi) == OddPrimes(lo, hi);
  }

  lemma ReachedNext(done: seq<nat>, lo: nat, p: nat, hi: nat)
    requires Reached(done, lo, p, hi) && p <= hi
    ensures IsPrime(p) ==> Reached(done + [p], lo, p + 2, hi)
    ensures !IsPrime(p) ==> Reached(done, lo, p + 2, hi)
  {
    hide IsPrime;
    OddPrimesStep(p, hi);
    assert done + ([p] + OddPrimes(p + 2, hi)) == (done + [p]) + OddPrimes(p + 2, hi);
  }

  lemma ReachedEnd(done: seq<nat>, lo: nat, p: nat, hi: nat)
    requires Reached(done, lo, p, hi) && hi < p
    ensures OddPrimes(lo, hi) == done
  {
    assert done + [] == done;
  }

  /** The P(...) lines of one interval. */
  method EmitInterval(lo: nat, hi: nat) returns (entries: seq<PEntry>)
    requires 3 <= lo && lo % 2 == 1 && hi < 0x8000_0000
    ensures Lists(entries, OddPrimes(lo, hi))
  {
    hide IsPrime, Lists, OddPrimes, Reached;
    entries := [];
    var p := lo;
    ghost var done: seq<nat> := [];
    NothingListed();
    ReachedStart(lo, hi);
    while p <= hi
      invariant 3 <= p && p % 2 == 1 && Lists(entries, done) && Reached(done, lo, p, hi)
      decreases hi + 2 - p
    {
      ReachedNext(done, lo, p, hi);
      var isprime := Isprime(p);
      if isprime {
        var e := MakeEntry(p);
        ListsAppend(entries, done, [e], [p]);
        entries, done := entries + [e], done + [p];
      }
      p := p + 2;
    }
    ReachedEnd(done, lo, p, hi);
  }

  lemma NothingListed()
    ensures Lists([], [])
  {
  }

  // ----- the state of a pass

  /** k primes below t have been seen, those from start on are in the product ppp. */
  ghost predicate PassAt(ps: seq<nat>, start: nat, k: nat, ppp: nat, t: nat, endP: nat) {
    && 3 <= t && t % 2 == 1 && start <= k <= |ps| && (if k == 0 then start == 0 else start < k)
    && ps == ps[..k] + OddPrimes(t, endP) && SmallNumbers(ps) && ppp == SliceProduct(ps, start, k)
  }

  /** The open slice consists of the primes from lo to hi. */
  ghost predicate RangeAt(ps: seq<nat>, start: nat, k: nat, lo: nat, hi: nat, t: nat) {
    && start <= k <= |ps| && 3 <= lo <= t && 3 <= t && lo % 2 == 1 && t % 2 == 1 && hi < 0x8000_0000
    && ps[start..k] == OddPrimes(lo, hi) && OddPrimes(lo, hi) == OddPrimes(lo, t - 2)
  }

  lemma PassStart(ps: seq<nat>, endP: nat)
    requires ps == OddPrimes(3, endP) && endP < 0x8000_0000
    ensures PassAt(ps, 0, 0, 1, 3, endP) && RangeAt(ps, 0, 0, 3, 0, 3)
  {
    assert OddPrimes(3, 0) == [] && OddPrimes(3, 1) == [];
    assert ps[0..0] == [];
  }

  lemma PassEnd(ps: seq<nat>, start: nat, k: nat, ppp: nat, t: nat, endP: nat)
    requires PassAt(ps, start, k, ppp, t, endP) && endP < t
    ensures k == |ps|
  {
  }

  lemma PassComposite(ps: seq<nat>, start: nat, k: nat, ppp: nat, t: nat, endP: nat)
    requires PassAt(ps, start, k, ppp, t, endP) && t <= endP && !IsPrime(t)
    ensures PassAt(ps, start, k, ppp, t + 2, endP)
  {
    OddPrimesStep(t, endP);
  }

  lemma PassPrime(ps: seq<nat>, start: nat, k: nat, ppp: nat, t: nat, endP: nat)
    requires PassAt(ps, start, k, ppp, t, endP) && t <= endP && IsPrime(t)
    ensures k < |ps| && ps[k] == t && 0 < ppp * t && SliceProduct(ps, start, k + 1) == ppp * t
    ensures PassAt(ps, start, k + 1, ppp * t, t + 2, endP)
    ensures Stop(ppp * t) ==> start < k && PassAt(ps, k, k + 1, t, t + 2, endP)
  {
    hide IsPrime, Stop, Product;
    OddPrimesStep(t, endP);
    assert ps[k] == t && ps[..k + 1] == ps[..k] + [t];
    ProductExtend(ps, start, k);
    ProductStart(ps, k);
    SingleUsable(t);
    if start == k { ProductStart(ps, k); }
  }

  lemma RangeComposite(ps: seq<nat>, start: nat, k: nat, lo: nat, hi: nat, t: nat)
    requires RangeAt(ps, start, k, lo, hi, t) && !IsPrime(t)
    ensures RangeAt(ps, start, k, lo, hi, t + 2)
  {
    OddPrimesNext(lo, t);
  }

  lemma RangePrime(ps: seq<nat>, start: nat, k: nat, lo: nat, hi: nat, t: nat)
    requires RangeAt(ps, start, k, lo, hi, t) && IsPrime(t) && t < 0x8000_0000 && k < |ps| && ps[k] == t
    ensures RangeAt(ps, start, k + 1, lo, t, t + 2) && RangeAt(ps, k, k + 1, t, t, t + 2)
  {
    hide IsPrime;
    OddPrimesNext(lo, t);
    OddPrimesNext(t, t);
    assert OddPrimes(t, t - 2) == [];
    assert ps[start..k + 1] == ps[start..k] + [t];
    assert ps[k..k + 1] == [t];
  }

  /** The first entry not in a completed slice. */
  function Omitted(ps: seq<nat>, start: nat): nat
    requires start <= |ps|
  {
    if start == |ps| then 3 else ps[start]
  }

  lemma OmittedIs(ps: seq<nat>, k: nat, t: nat)
    requires k < |ps| && ps[k] == t
    ensures Omitted(ps, k) == t
  {
  }

  lemma FirstOmitted(ps: seq<nat>, endP: nat)
    requires ps == OddPrimes(3, endP)
    ensures Omitted(ps, 0) == 3
  {
    assert IsPrime(3);
  }

  /** How far the completed slices reach. */
  function Covered(cs: seq<Slice>): nat {
    if cs == [] then 0 else cs[|cs| - 1].end
  }

  /** cs are the slices completed so far, and the rest of the cut is still to come. */
  ghost predicate CutAt(ps: seq<nat>, cs: seq<Slice>, start: nat, k: nat) {
    start <= k <= |ps| && SmallNumbers(ps) && Cut(ps, 0, 0) == cs + Cut(ps, start, k) && start == Covered(cs)
  }

  lemma CutAtStart(ps: seq<nat>)
    requires SmallNumbers(ps)
    ensures CutAt(ps, [], 0, 0)
  {
    assert [] + Cut(ps, 0, 0) == Cut(ps, 0, 0);
  }

  lemma CutAtNext(ps: seq<nat>, cs: seq<Slice>, start: nat, k: nat)
    requires CutAt(ps, cs, start, k) && k < |ps|
    ensures Stop(SliceProduct(ps, start, k + 1)) ==> CutAt(ps, cs + [Slice(start, k)], k, k + 1)
    ensures !Stop(SliceProduct(ps, start, k + 1)) ==> CutAt(ps, cs, start, k + 1)
  {
    hide Stop, SliceProduct;
    if Stop(SliceProduct(ps, start, k + 1)) {
      assert cs + ([Slice(start, k)] + Cut(ps, k, k + 1)) == (cs + [Slice(start, k)]) + Cut(ps, k, k + 1);
    }
  }

  lemma CutAtEnd(ps: seq<nat>, cs: seq<Slice>, start: nat, k: nat)
    requires CutAt(ps, cs, start, k) && k == |ps|
    ensures Cut(ps, 0, 0) == cs && start == Covered(cs) <= |ps|
  {
  }

  method CompleteInterval(dtab: seq<PEntry>, lo: nat, hi: nat, ghost ps: seq<nat>, ghost start: nat, ghost k: nat)
    returns (r: seq<PEntry>)
    requires 3 <= lo && lo % 2 == 1 && hi < 0x8000_0000
    requires start <= k <= |ps| && Lists(dtab, ps[..start]) && ps[start..k] == OddPrimes(lo, hi)
    ensures Lists(r, ps[..k])
  {
    hide Lists, OddPrimes;
    var lines := EmitInterval(lo, hi);
    ListsAppend(dtab, ps[..start], lines, ps[start..k]);
    assert ps[..k] == ps[..start] + ps[start..k];
    r := dtab + lines;
  }

  /** The first pass: entries for the primes of all completed slices, and the smallest
      prime left out. */
  method DtabPass(endP: nat) returns (dtab: seq<PEntry>, omitted: nat)
    requires endP < 0x8000_0000
    ensures var ps := OddPrimes(3, endP);
      var n := Covered(Cut(ps, 0, 0));
      n <= |ps| && Lists(dtab, ps[..n]) && omitted == Omitted(ps, n)
  {
    hide IsPrime, Stop, SliceProduct, Lists, PassAt, RangeAt, Cut, CutAt, OddPrimes, Covered, Omitted, SmallNumbers;
    ghost var ps := OddPrimes(3, endP);
    ghost var start, k, cs: seq<Slice> := 0, 0, [];
    var ppp: nat, intervalStart, intervalEnd, t := 1, 3, 0, 3;
    omitted, dtab := 3, [];
    PassStart(ps, endP);
    PassFacts(ps, 0, 0, 1, 3, endP);
    CutAtStart(ps);
    FirstOmitted(ps, endP);
    NothingListed();
    assert ps[..0] == [];
    while t <= endP
      invariant PassAt(ps, start, k, ppp, t, endP) && RangeAt(ps, start, k, intervalStart, intervalEnd, t)
      invariant start <= k <= |ps| && 3 <= t && CutAt(ps, cs, start, k)
      invariant Lists(dtab, ps[..start]) && omitted == Omitted(ps, start)
      decreases endP + 2 - t
    {
      var isprime := Isprime(t);
      if isprime {
        PassPrime(ps, start, k, ppp, t, endP);
        RangePrime(ps, start, k, intervalStart, intervalEnd, t);
        CutAtNext(ps, cs, start, k);
        var acc := ppp * t;
        var stop := StopTest(acc);
        RangeFacts(ps, start, k, intervalStart, intervalEnd, t);
        if stop {
          dtab := CompleteInterval(dtab, intervalStart, intervalEnd, ps, start, k);
          OmittedIs(ps, k, t);
          ppp, intervalStart, omitted := t, t, t;
          cs, start := cs + [Slice(start, k)], k;
        } else {
          ppp := acc;
        }
        k := k + 1;
        intervalEnd := t;
      } else {
        PassComposite(ps, start, k, ppp, t, endP);
        RangeComposite(ps, start, k, intervalStart, intervalEnd, t);
      }
      t := t + 2;
    }
    PassEnd(ps, start, k, ppp, t, endP);
    CutAtEnd(ps, cs, start, k);
  }

  lemma RangeFacts(ps: seq<nat>, start: nat, k: nat, lo: nat, hi: nat, t: nat)
    requires RangeAt(ps, start, k, lo, hi, t)
    ensures start <= k <= |ps| && 3 <= lo && lo % 2 == 1 && hi < 0x8000_0000 && ps[start..k] == OddPrimes(lo, hi)
  {
  }

  /** A line of the product table. */
  datatype PtabEntry = PtabEntry(ppp: nat, bi: int, cnt: nat, res: seq<nat>, startIdx: nat, count: nat)

  /** The entry describes the slice: its product, that product's constants, and where
      its primes are in the other table. */
  predicate Describes(e: PtabEntry, ps: seq<nat>, c: Slice)
    requires SmallNumbers(ps)
  {
    && c.start <= c.end <= |ps| && e.startIdx == c.start && e.count == c.end - c.start
    && e.ppp == SliceProduct(ps, c.start, c.end)
    && Reciprocals.BitLength(e.ppp) <= 64 && e.bi == Reciprocals.CpsInverse(e.ppp, 64)
    && e.cnt == 64 - Reciprocals.BitLength(e.ppp)
    && |e.res| == 5 && forall i :: 0 <= i < 5 ==> e.res[i] == Residue(i + 1, e.ppp)
  }

  predicate DescribesAll(ptab: seq<PtabEntry>, ps: seq<nat>, cs: seq<Slice>)
    requires SmallNumbers(ps)
  {
    |ptab| == |cs| && forall i :: 0 <= i < |cs| ==> Describes(ptab[i], ps, cs[i])
  }

  method CompleteLine(ppp: nat, startIdx: nat, np: nat, ghost ps: seq<nat>) returns (e: PtabEntry)
    requires SmallNumbers(ps) && startIdx <= np <= |ps| && ppp == SliceProduct(ps, startIdx, np) && !Stop(ppp)
    ensures Describes(e, ps, Slice(startIdx, np))
  {
    UsableLength(ppp);
    var bi, cnt, res := Cps(ppp);
    e := PtabEntry(ppp, bi, cnt, res, startIdx, np - startIdx);
  }

  /** The second pass: one line for every completed slice, and no other. */
  method PtabPass(endP: nat) returns (ptab: seq<PtabEntry>)
    requires endP < 0x8000_0000
    ensures var ps := OddPrimes(3, endP);
      var cs := Cut(ps, 0, 0);
      SmallNumbers(ps) && DescribesAll(ptab, ps, cs)
  {
    hide IsPrime, Stop, SliceProduct, PassAt, Cut, CutAt, OddPrimes, DescribesAll;
    ghost var ps := OddPrimes(3, endP);
    ghost var cs: seq<Slice> := [];
    var ppp: nat, np, startIdx, t := 1, 0, 0, 3;
    ptab := [];
    PassStart(ps, endP);
    PassFacts(ps, 0, 0, 1, 3, endP);
    CutAtStart(ps);
    NoLines(ps);
    while t <= endP
      invariant PassAt(ps, startIdx, np, ppp, t, endP)
      invariant startIdx <= np <= |ps| && 3 <= t && SmallNumbers(ps)
      invariant np == 0 || !Stop(SliceProduct(ps, startIdx, np))
      invariant CutAt(ps, cs, startIdx, np) && DescribesAll(ptab, ps, cs)
      decreases endP + 2 - t
    {
      var isprime := Isprime(t);
      if isprime {
        PassFacts(ps, startIdx, np, ppp, t, endP);
        PassPrime(ps, startIdx, np, ppp, t, endP);
        CutAtNext(ps, cs, startIdx, np);
        var acc := ppp * t;
        var stop := StopTest(acc);
        if stop {
          var e := CompleteLine(ppp, startIdx, np, ps);
          OneMoreLine(ptab, ps, cs, e, Slice(startIdx, np));
          ptab, cs := ptab + [e], cs + [Slice(startIdx, np)];
          ppp := t;
          startIdx := np;
          ProductStart(ps, np);
          SingleUsable(t);
        } else {
          ppp := acc;
        }
        np := np + 1;
      } else {
        PassComposite(ps, startIdx, np, ppp, t, endP);
      }
      t := t + 2;
    }
    PassEnd(ps, startIdx, np, ppp, t, endP);
    CutAtEnd(ps, cs, startIdx, np);
  }

  lemma NoLines(ps: seq<nat>)
    requires SmallNumbers(ps)
    ensures DescribesAll([], ps, [])
  {
  }

  lemma OneMoreLine(ptab: seq<PtabEntry>, ps: seq<nat>, cs: seq<Slice>, e: PtabEntry, c: Slice)
    requires SmallNumbers(ps) && DescribesAll(ptab, ps, cs) && Describes(e, ps, c)
    ensures DescribesAll(ptab + [e], ps, cs + [c])
  {
    hide Describes;
  }

  lemma PassFacts(ps: seq<nat>, start: nat, k: nat, ppp: nat, t: nat, endP: nat)
    requires PassAt(ps, start, k, ppp, t, endP)
    ensures start <= k <= |ps| && SmallNumbers(ps) && ppp == SliceProduct(ps, start, k) && 0 < ppp
    ensures k == 0 ==> start == 0
  {
  }

  lemma UsableLength(b: nat)
    requires 0 < b && !Stop(b)
    ensures Reciprocals.BitLength(b) <= 64
  {
    HalfLimbLength(b);
  }

  lemma SliceFacts(ps: seq<nat>, c: Slice)
    requires SmallNumbers(ps) && GoodSlice(ps, c)
    ensures c.start < c.end < |ps| && !Stop(SliceProduct(ps, c.start, c.end))
  {
  }

  /** A line of the product table against the slice it describes. */
  lemma LineFacts(ps: seq<nat>, c: Slice, e: PtabEntry)
    requires SmallNumbers(ps) && Describes(e, ps, c) && GoodSlice(ps, c)
    ensures 0 < e.count && e.startIdx == c.start && e.startIdx + e.count == c.end < |ps|
    ensures e.ppp == SliceProduct(ps, e.startIdx, e.startIdx + e.count) && e.ppp < B / 2
    ensures 0 < e.ppp * ps[c.end] && Stop(e.ppp * ps[c.end])
    ensures |e.res| == 5 && e.res[0] + e.res[1] + e.res[2] + e.res[3] + e.res[4] < B
  {
    hide SliceProduct, Residue;
    SliceFacts(ps, c);
    ProductExtend(ps, c.start, c.end);
  }

  predicate CompletedLine(ps: seq<nat>, e: PtabEntry)
    requires SmallNumbers(ps)
  {
    && 0 < e.count && e.startIdx + e.count < |ps| && 0 < e.ppp * ps[e.startIdx + e.count]
    && e.ppp == SliceProduct(ps, e.startIdx, e.startIdx + e.count) && e.ppp < B / 2
    && Stop(e.ppp * ps[e.startIdx + e.count])
    && |e.res| == 5 && e.res[0] + e.res[1] + e.res[2] + e.res[3] + e.res[4] < B
  }

  /** What a completed line is good for: its product is that of consecutive primes of
      the first table, below half a limb, and its five residues sum to less than B; the
      next prime would have spoilt one or the other; each line starts where the one before ends. */
  lemma CompletedLines(endP: nat, ptab: seq<PtabEntry>)
    requires endP < 0x8000_0000
    requires var ps := OddPrimes(3, endP); SmallNumbers(ps) && DescribesAll(ptab, ps, Cut(ps, 0, 0))
    ensures forall i :: 0 <= i < |ptab| ==> CompletedLine(OddPrimes(3, endP), ptab[i])
    ensures ptab != [] ==> ptab[0].startIdx == 0
    ensures forall i :: 0 <= i < |ptab| - 1 ==> ptab[i + 1].startIdx == ptab[i].startIdx + ptab[i].count
  {
    hide OddPrimes, Cut, SliceProduct, Residue, Greedy, GoodSlice, Describes;
    var ps := OddPrimes(3, endP);
    CutSlices(ps, 0, 0);
    var cs := Cut(ps, 0, 0);
    GreedySlices(ps, 0, cs);
    forall i | 0 <= i < |ptab|
      ensures CompletedLine(ps, ptab[i])
      ensures ptab[i].startIdx == cs[i].start && ptab[i].startIdx + ptab[i].count == cs[i].end
    {
      LineFacts(ps, cs[i], ptab[i]);
    }
  }
}
