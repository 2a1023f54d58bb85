/** The tables behind the perfect-square filter, from gen-psqr.c: residue masks of
    squares, and divisors combined without losing a detection. */
module PerfectSquares {
  import opened Arith
  import opened Primes
  import opened Products

  /** x is a square modulo m. */
  ghost predicate SquareMod(x: int, m: nat)
    requires 0 < m
  {
    exists y: nat :: SquaresTo(y, x, m)
  }

  predicate SquaresTo(y: int, x: int, m: nat)
    requires 0 < m
  {
    (y * y) % m == x % m
  }

  /** Any integer root can be reduced to a natural one. */
  lemma RootReduced(y: int, x: int, m: nat)
    requires 0 < m && SquaresTo(y, x, m)
    ensures SquareMod(x, m) && SquaresTo(y % m, x, m)
  {
    ModMod(y, m);
    CongMul(y % m, y, y % m, y, m);
    var z: nat := y % m;
    assert SquaresTo(z, x, m);
  }

  /** The definition in powers. */
  lemma SquareModInPowers(x: int, m: nat)
    requires 0 < m
    ensures SquareMod(x, m) <==> exists y: nat :: Pow(y, 2) % m == x % m
  {
    forall y: int ensures Pow(y, 2) == y * y { assert Pow(y, 1) == y * Pow(y, 0); }
    if y: nat :| SquaresTo(y, x, m) { assert Pow(y, 2) % m == x % m; }
    if y: nat :| Pow(y, 2) % m == x % m { assert SquaresTo(y, x, m); }
  }

  // ----- the masks

  /** mul_2exp_mod: n 2^p modulo m. */
  method Mul2expMod(n: nat, p: nat, m: nat) returns (r: nat)
    requires 0 < m && (n < m || 0 < p)
    ensures r < m && r == (n * Pow(2, p)) % m
  {
    r := n;
    assert n * Pow(2, 0) == n;
    for k := 0 to p
      invariant r % m == (n * Pow(2, k)) % m && (if k == 0 then r == n else r < m)
    {
      CongMul(2, 2, r, n * Pow(2, k), m);
      MulRotate(2, n, Pow(2, k));
      ModMod(2 * r, m);
      r := (2 * r) % m;
    }
    SmallMod(r, m);
  }

  /** neg_mod: -n modulo m. */
  function NegMod(n: int, m: int): (r: int)
    requires 0 <= n < m
    ensures 0 <= r < m && r == (-n) % m
  {
    if n == 0 then SmallMod(0, m); 0 else DivModUnique(-n, m, -1, m - n); m - n
  }

  /** An inverse of 2^bits modulo an odd number. */
  lemma HalfPower(bits: nat, m: nat) returns (h: nat)
    requires m % 2 == 1
    ensures (h * Pow(2, bits)) % m == 1 % m
  {
    PowNonNegative(m / 2 + 1, bits);
    h := Pow(m / 2 + 1, bits);
    PowMulBase(m / 2 + 1, 2, bits);
    assert (m / 2 + 1) * 2 == 1 + 1 * m;
    ModAddMul(1, 1, m);
    PowCong((m / 2 + 1) * 2, 1, bits, m);
    PowOne(bits);
  }

  /** An index the loop sets belongs to a square. */
  lemma SetIndexIsSquare(i: nat, idx: int, p: int, bits: nat, m: nat)
    requires 0 < m && p % m == (-Pow(2, bits)) % m && idx % m == (i * i * p) % m
    ensures SquareMod(-(idx * Pow(2, bits)), m)
  {
    var w := Pow(2, bits);
    var y := i * w;
    CongMul(i * i, i * i, p, -w, m);
    CongMul(idx, (i * i) * (-w), -w, -w, m);
    assert ((i * i) * (-w)) * (-w) == y * y by { MulSwap(i, i, w, w); }
    assert idx * (-w) == -(idx * Pow(2, bits));
    RootReduced(y, -(idx * Pow(2, bits)), m);
  }

  /** An index that belongs to a square is set for some i below m. */
  lemma SquareIndexIsSet(idx: nat, p: int, bits: nat, m: nat) returns (i: nat)
    requires m % 2 == 1 && idx < m && p % m == (-Pow(2, bits)) % m && SquareMod(-(idx * Pow(2, bits)), m)
    ensures i < m && (i * i * p) % m == idx
  {
    var w, x := Pow(2, bits), -(idx * Pow(2, bits));
    var y: nat :| SquaresTo(y, x, m);
    var h := HalfPower(bits, m);
    var z := y * h;
    calc {
      (z * z * p) % m;
      { CongMul(z * z, z * z, p, -w, m); }
      ((z * z) * (-w)) % m;
      { MulSwap(y, h, y, h); }
      (((y * y) * (h * h)) * (-w)) % m;
      { MulAssoc(y * y, h * h, -w); CongMul(y * y, x, (h * h) * (-w), (h * h) * (-w), m); }
      (x * ((h * h) * (-w))) % m;
      { assert x == idx * (-w); MulSwap(idx, -w, h * h, -w); MinusTwice(w); Regroup(idx, h, w); }
      (idx * ((h * w) * (h * w))) % m;
      { CongMul(h * w, 1, h * w, 1, m); CongMul(idx, idx, (h * w) * (h * w), 1, m); }
      idx % m;
      { SmallMod(idx, m); }
      idx;
    }
    i := z % m;
    ModMod(z, m);
    CongMul(i, z, i, z, m);
    CongMul(i * i, z * z, p, p, m);
  }

  lemma MinusTwice(w: int)
    ensures (-w) * (-w) == w * w
  {
  }

  lemma Regroup(idx: int, h: int, w: int)
    ensures (idx * (h * h)) * (w * w) == idx * ((h * w) * (h * w))
  {
    MulAssoc(idx, h * h, w * w);
    MulSwap(h, h, w, w);
  }

  /** square_mask: bit idx is set exactly when -idx 2^bits is a square modulo m. */
  method SquareMask(bits: nat, m: nat) returns (mask: set<nat>)
    requires m % 2 == 1 && (1 < m || 0 < bits)
    ensures forall idx: nat :: idx in mask <==> idx < m && SquareMod(-(idx * Pow(2, bits)), m)
  {
    hide SquareMod, Pow;
    var w := Mul2expMod(1, bits, m);
    var p: nat := NegMod(w, m);
    PowerNegated(w, p, bits, m);
    mask := {};
    var i := 0;
    while i < m
      invariant 0 <= i <= m
      invariant forall idx: nat :: idx in mask <==> exists k :: 0 <= k < i && MaskIndex(k, p, m) == idx
    {
      var r := (i * i) % m;
      var idx := (r * p) % m;
      MaskIndexIs(i, p, m);
      mask := mask + {idx};
      i := i + 1;
    }
    forall idx: nat
      ensures idx in mask <==> idx < m && SquareMod(-(idx * Pow(2, bits)), m)
    {
      if idx in mask {
        var k :| 0 <= k < m && MaskIndex(k, p, m) == idx;
        ModMod(k * k * p, m);
        SetIndexIsSquare(k, idx, p, bits, m);
      }
      if idx < m && SquareMod(-(idx * Pow(2, bits)), m) {
        var k := SquareIndexIsSet(idx, p, bits, m);
        assert MaskIndex(k, p, m) == idx;
      }
    }
  }

  /** The index that residue k * k sets. */
  function MaskIndex(k: nat, p: nat, m: nat): nat
    requires 0 < m
  {
    ModMod(k * k * p, m);
    (k * k * p) % m
  }

  lemma MaskIndexIs(k: nat, p: nat, m: nat)
    requires 0 < m
    ensures 0 <= (k * k) % m && ((k * k) % m * p) % m == MaskIndex(k, p, m)
  {
    ModMod(k * k, m);
    CongMul((k * k) % m, k * k, p, p, m);
  }

  lemma PowerNegated(w: int, p: int, bits: nat, m: nat)
    requires 0 < m && w == (1 * Pow(2, bits)) % m && p == (-w) % m
    ensures p % m == (-Pow(2, bits)) % m
  {
    var x := Pow(2, bits);
    ModMod(x, m);
    CongAdd(0, 0, w, x, m);
    ModMod(-w, m);
  }

  // ----- combining divisors

  /** The Chinese remainder theorem for squares. */
  lemma SquareModProduct(x: int, m: nat, n: nat)
    requires 0 < m && 0 < n && Coprime(m, n)
    ensures 0 < m * n && (SquareMod(x, m * n) <==> SquareMod(x, m) && SquareMod(x, n))
  {
    MulPositive(m, n);
    if SquareMod(x, m * n) {
      var y: nat :| SquaresTo(y, x, m * n);
      ModOfMultiple(y * y, m, n);
      ModOfMultiple(x, m, n);
      assert n * m == m * n;
      ModOfMultiple(y * y, n, m);
      ModOfMultiple(x, n, m);
      assert SquaresTo(y, x, m) && SquaresTo(y, x, n);
    }
    if SquareMod(x, m) && SquareMod(x, n) {
      var a: nat :| SquaresTo(a, x, m);
      var b: nat :| SquaresTo(b, x, n);
      var u, v := Bezout(m, n);
      var y := a * (n * v) + b * (m * u);
      RemainderMeets(a, b, m, n, u, v);
      RemainderMeets(b, a, n, m, v, u);
      CongMul(y, a, y, a, m);
      CongMul(y, b, y, b, n);
      CoprimeCong(m, n, y * y, x);
      RootReduced(y, x, m * n);
    }
  }

  lemma RemainderMeets(a: int, b: int, m: nat, n: nat, u: int, v: int)
    requires 0 < m && m * u + n * v == 1
    ensures (a * (n * v) + b * (m * u)) % m == a % m
  {
    assert a * (n * v) == a - a * (m * u);
    assert a * (n * v) + b * (m * u) == a + ((b - a) * u) * m by {
      assert (b - a) * (m * u) == b * (m * u) - a * (m * u);
      MulRotate(b - a, m, u);
      assert ((b - a) * u) * m == m * ((b - a) * u);
    }
    ModAddMul(a, (b - a) * u, m);
  }

  predicate PairwiseCoprime(s: seq<nat>) {
    forall i, j :: 0 <= i < j < |s| ==> Coprime(s[i], s[j])
  }

  predicate Positive(s: seq<nat>) {
    forall i :: 0 <= i < |s| ==> 0 < s[i]
  }

  predicate AtMost(s: seq<nat>, max: nat) {
    forall i :: 0 <= i < |s| ==> s[i] <= max
  }

  /** No divisor detects x as a non-square. */
  ghost predicate Undetected(x: int, s: seq<nat>)
    requires Positive(s)
  {
    forall i :: 0 <= i < |s| ==> SquareMod(x, s[i])
  }

  predicate Sorted(s: seq<nat>) {
    forall i, j :: 0 <= i < j < |s| ==> s[i] <= s[j]
  }

  // ----- sorting

  function Insert(x: nat, s: seq<nat>): (r: seq<nat>)
    ensures |r| == |s| + 1
  {
    if s == [] || x <= s[0] then [x] + s else [s[0]] + Insert(x, s[1..])
  }

  /** What qsort by divisor returns. */
  function SortedCopy(s: seq<nat>): (r: seq<nat>)
    ensures |r| == |s|
  {
    if s == [] then [] else Insert(s[0], SortedCopy(s[1..]))
  }

  lemma {:induction false} InsertFacts(x: nat, s: seq<nat>)
    ensures multiset(Insert(x, s)) == multiset([x] + s) && Product(Insert(x, s)) == x * Product(s)
    ensures Sorted(s) ==> Sorted(Insert(x, s))
    ensures PairwiseCoprime([x] + s) ==> PairwiseCoprime(Insert(x, s))
    decreases |s|
  {
    hide Sorted, PairwiseCoprime, Product;
    if s == [] || x <= s[0] {
      InsertAtFront(x, s);
    } else {
      var t := s[1..];
      assert s == [s[0]] + t;
      InsertFacts(x, t);
      InsertProduct(x, s);
      if Sorted(s) { TailSorted(s); InsertSorted(x, s); }
      if PairwiseCoprime([x] + s) { InsertCoprime(x, s); }
    }
  }

  lemma InsertAtFront(x: nat, s: seq<nat>)
    requires s == [] || x <= s[0]
    ensures Product([x] + s) == x * Product(s) && (Sorted(s) ==> Sorted([x] + s))
  {
    assert ([x] + s)[1..] == s;
  }

  lemma TailSorted(s: seq<nat>)
    requires s != [] && Sorted(s)
    ensures Sorted(s[1..])
  {
  }

  lemma InsertProduct(x: nat, s: seq<nat>)
    requires s != [] && s[0] < x && Product(Insert(x, s[1..])) == x * Product(s[1..])
    ensures Product(Insert(x, s)) == x * Product(s)
  {
    var r := Insert(x, s);
    assert r[1..] == Insert(x, s[1..]);
    MulRotate(s[0], x, Product(s[1..]));
  }

  lemma InsertSorted(x: nat, s: seq<nat>)
    requires s != [] && s[0] < x && Sorted(s) && Sorted(Insert(x, s[1..]))
    requires multiset(Insert(x, s[1..])) == multiset([x] + s[1..])
    ensures Sorted(Insert(x, s))
  {
    hide Sorted, Insert;
    var t, r := s[1..], Insert(x, s[1..]);
    forall i | 0 <= i < |r| ensures s[0] <= r[i] {
      assert r[i] in multiset(r);
      assert r[i] in [x] + t;
      if r[i] != x { SortedHead(s, r[i]); }
    }
    InsertBehind(x, s);
    SortedCons(s[0], r);
  }

  lemma SortedHead(s: seq<nat>, y: nat)
    requires s != [] && Sorted(s) && y in s
    ensures s[0] <= y
  {
  }

  lemma InsertBehind(x: nat, s: seq<nat>)
    requires s != [] && s[0] < x
    ensures Insert(x, s) == [s[0]] + Insert(x, s[1..])
  {
  }

  lemma SortedCons(x: nat, s: seq<nat>)
    requires Sorted(s) && forall i :: 0 <= i < |s| ==> x <= s[i]
    ensures Sorted([x] + s)
  {
  }

  lemma SecondCoprime(x: nat, s: seq<nat>, y: nat)
    requires s != [] && PairwiseCoprime([x] + s) && y in [x] + s[1..]
    ensures Coprime(s[0], y)
  {
    hide Coprime;
    var all := [x] + s;
    assert Coprime(all[0], all[1]);
    CoprimeSymmetric(x, s[0]);
    if y != x {
      var k :| 0 <= k < |s[1..]| && s[1..][k] == y;
      assert Coprime(all[1], all[k + 2]);
    }
  }

  lemma ConsCoprime(x: nat, r: seq<nat>)
    requires PairwiseCoprime(r) && forall y :: y in r ==> Coprime(x, y)
    ensures PairwiseCoprime([x] + r)
  {
    hide Coprime;
  }

  lemma InsertCoprime(x: nat, s: seq<nat>)
    requires s != [] && s[0] < x && PairwiseCoprime([x] + s)
    requires PairwiseCoprime([x] + s[1..]) ==> PairwiseCoprime(Insert(x, s[1..]))
    requires multiset(Insert(x, s[1..])) == multiset([x] + s[1..])
    ensures PairwiseCoprime(Insert(x, s))
  {
    hide Coprime;
    var r := Insert(x, s[1..]);
    SkipSecondCoprime(x, s);
    forall y | y in r ensures Coprime(s[0], y) {
      assert y in multiset(r);
      assert y in [x] + s[1..];
      SecondCoprime(x, s, y);
    }
    assert Insert(x, s) == [s[0]] + r;
    ConsCoprime(s[0], r);
  }

  lemma SkipSecondCoprime(x: nat, s: seq<nat>)
    requires s != [] && PairwiseCoprime([x] + s)
    ensures PairwiseCoprime([x] + s[1..])
  {
    hide Coprime;
    var t, all := [x] + s[1..], [x] + s;
    forall i, j | 0 <= i < j < |t| ensures Coprime(t[i], t[j]) {
      assert Coprime(all[if i == 0 then 0 else i + 1], all[j + 1]);
    }
  }

  lemma {:induction false} SortFacts(s: seq<nat>)
    ensures multiset(SortedCopy(s)) == multiset(s) && Sorted(SortedCopy(s))
    ensures Product(SortedCopy(s)) == Product(s)
    ensures PairwiseCoprime(s) ==> PairwiseCoprime(SortedCopy(s))
    decreases |s|
  {
    hide Sorted, PairwiseCoprime, Insert;
    if s != [] {
      var t := s[1..];
      SortFacts(t);
      InsertFacts(s[0], SortedCopy(t));
      assert s == [s[0]] + t;
      if PairwiseCoprime(s) { TailCoprime(s); HeadStaysCoprime(s, SortedCopy(t)); }
    } else {
      NothingToSort();
    }
  }

  lemma NothingToSort()
    ensures Sorted([]) && PairwiseCoprime([])
  {
  }

  lemma TailCoprime(s: seq<nat>)
    requires s != [] && PairwiseCoprime(s)
    ensures PairwiseCoprime(s[1..])
  {
    hide Coprime;
  }

  lemma HeadStaysCoprime(s: seq<nat>, t: seq<nat>)
    requires s != [] && PairwiseCoprime(s) && PairwiseCoprime(t) && multiset(t) == multiset(s[1..])
    ensures PairwiseCoprime([s[0]] + t)
  {
    forall i | 0 <= i < |t| ensures Coprime(s[0], t[i]) {
      assert t[i] in multiset(t);
      var k :| 0 <= k < |s[1..]| && s[1..][k] == t[i];
      assert Coprime(s[0], s[k + 1]);
    }
  }

  /** What the table of divisors must keep: the product, coprimality, the bound, and
      which numbers stay undetected. */
  ghost predicate SameTests(before: seq<nat>, after: seq<nat>, max: nat) {
    && Positive(after) && PairwiseCoprime(after) && AtMost(after, max)
    && Product(after) == Product(before)
    && Positive(before) && forall x: int :: Undetected(x, after) <==> Undetected(x, before)
  }

  /** Of the sorted table t the smallest entry takes in entry i, the largest that fits;
      the entries then are those of t'. */
  predicate TakesIn(t: seq<nat>, i: nat, max: nat, t': seq<nat>) {
    && 1 <= i < |t| && Sorted(t) && 0 <= t[0] * t[i] <= max
    && (forall k :: i < k < |t| ==> max < t[0] * t[k])
    && Replaced(t, t', t[0], t[i], t[0] * t[i])
  }

  predicate Replaced(t: seq<nat>, t': seq<nat>, a: nat, b: nat, c: nat) {
    multiset(t') == multiset(t) - multiset{a, b} + multiset{c}
  }

  /** A course of the combining: the tables one after the other, and the entry that
      each gives up. */
  predicate Course(tables: seq<seq<nat>>, picks: seq<nat>, max: nat) {
    && |tables| == |picks| + 1
    && forall k :: 0 <= k < |picks| ==> TakesIn(tables[k], picks[k], max, tables[k + 1])
  }

  /** No two entries that the loop would combine. */
  predicate Finished(s: seq<nat>, max: nat) {
    Sorted(s) && forall i :: 1 <= i < |s| ==> max < s[0] * s[i]
  }

  /** A course that has run to the end. */
  predicate WholeCourse(tables: seq<seq<nat>>, picks: seq<nat>, max: nat) {
    Course(tables, picks, max) && Finished(tables[|picks|], max)
  }

  lemma CourseSorted(tables: seq<seq<nat>>, picks: seq<nat>, end: seq<nat>, max: nat)
    requires Course(tables, picks, max) && multiset(end) == multiset(tables[|picks|])
    ensures Course(tables[|picks| := end], picks, max)
  {
    hide Sorted;
    var now, n := tables[|picks| := end], |picks|;
    forall k | 0 <= k < n ensures TakesIn(now[k], picks[k], max, now[k + 1]) {
      assert TakesIn(tables[k], picks[k], max, tables[k + 1]);
    }
  }

  lemma CourseStep(tables: seq<seq<nat>>, picks: seq<nat>, i: nat, next: seq<nat>, max: nat)
    requires Course(tables, picks, max) && TakesIn(tables[|picks|], i, max, next)
    ensures Course(tables + [next], picks + [i], max)
  {
    hide TakesIn;
    var now, n := tables + [next], |picks|;
    forall k | 0 <= k < n + 1 ensures TakesIn(now[k], (picks + [i])[k], max, now[k + 1]) {
      if k < n { assert TakesIn(tables[k], picks[k], max, tables[k + 1]); }
    }
  }

  lemma CourseTail(tables: seq<seq<nat>>, picks: seq<nat>, max: nat)
    requires WholeCourse(tables, picks, max) && picks != []
    ensures WholeCourse(tables[1..], picks[1..], max) && TakesIn(tables[0], picks[0], max, tables[1])
  {
    hide TakesIn, Finished;
    var rest, n := tables[1..], |picks| - 1;
    forall k | 0 <= k < n ensures TakesIn(rest[k], picks[1..][k], max, rest[k + 1]) {
      assert TakesIn(tables[k + 1], picks[k + 1], max, tables[k + 2]);
    }
  }

  lemma CourseStart(tables: seq<seq<nat>>, picks: seq<nat>, max: nat)
    requires WholeCourse(tables, picks, max)
    ensures |tables| == |picks| + 1 && Sorted(tables[0]) && (picks == [] <==> Finished(tables[0], max))
  {
    if picks != [] { assert TakesIn(tables[0], picks[0], max, tables[1]); }
  }

  lemma {:induction false} SortedUnique(s: seq<nat>, t: seq<nat>)
    requires Sorted(s) && Sorted(t) && multiset(s) == multiset(t)
    ensures s == t
    decreases |s|
  {
    hide Sorted;
    assert |s| == |multiset(s)| == |multiset(t)| == |t|;
    if s != [] {
      SameLeast(s, t);
      TailSorted(s);
      TailSorted(t);
      WithoutHead(s);
      WithoutHead(t);
      SortedUnique(s[1..], t[1..]);
      assert s == [s[0]] + s[1..] && t == [t[0]] + t[1..];
    }
  }

  lemma WithoutHead(s: seq<nat>)
    requires s != []
    ensures multiset(s[1..]) == multiset(s) - multiset{s[0]}
  {
    assert s == [s[0]] + s[1..];
  }

  lemma SameLeast(s: seq<nat>, t: seq<nat>)
    requires Sorted(s) && Sorted(t) && multiset(s) == multiset(t) && s != []
    ensures t != [] && s[0] == t[0]
  {
    assert s[0] in multiset(t);
    assert t[0] in multiset(s);
  }

  /** The order of the combining leaves no choice: courses from the same entries that
      run to the end are the same. */
  lemma {:induction false} CourseUnique(
      tables: seq<seq<nat>>, picks: seq<nat>, tables': seq<seq<nat>>, picks': seq<nat>, max: nat)
    requires WholeCourse(tables, picks, max) && WholeCourse(tables', picks', max)
    requires tables != [] && tables' != [] && multiset(tables[0]) == multiset(tables'[0])
    ensures tables == tables' && picks == picks'
    decreases |tables|
  {
    hide WholeCourse, Sorted, Finished, TakesIn;
    CourseStart(tables, picks, max);
    CourseStart(tables', picks', max);
    SortedUnique(tables[0], tables'[0]);
    if picks != [] {
      CourseTail(tables, picks, max);
      CourseTail(tables', picks', max);
      SamePick(tables[0], picks[0], picks'[0], tables[1], tables'[1], max);
      CourseUnique(tables[1..], picks[1..], tables'[1..], picks'[1..], max);
      assert picks == [picks[0]] + picks[1..] && picks' == [picks'[0]] + picks'[1..];
      assert tables == [tables[0]] + tables[1..] && tables' == [tables'[0]] + tables'[1..];
    }
  }

  lemma SamePick(t: seq<nat>, i: nat, j: nat, next: seq<nat>, next': seq<nat>, max: nat)
    requires TakesIn(t, i, max, next) && TakesIn(t, j, max, next')
    ensures i == j && multiset(next) == multiset(next')
  {
  }

  /** The divisors of the 64-bit table: the factors 9, 5, 7, 13, 17 and 97 of 2^48 - 1
      combine to 9, 85, 91 and 97. */
  lemma ShippedDivisors(start: seq<nat>, tables: seq<seq<nat>>, picks: seq<nat>)
    requires start == [9, 5, 7, 13, 17, 97]
    requires WholeCourse(tables, picks, 128) && |tables| == |picks| + 1 && multiset(tables[0]) == multiset(start)
    ensures tables[|picks|] == [9, 85, 91, 97]
  {
    hide Course, Finished, WholeCourse, TakesIn;
    var t0, t1, t2: seq<nat> := [5, 7, 9, 13, 17, 97], [7, 9, 13, 85, 97], [9, 85, 91, 97];
    FirstMerge(t0, t1);
    SecondMerge(t1, t2);
    LastTable(t2);
    TwoSteps(t0, t1, t2, 4, 2, 128);
    SameEntries(start, t0);
    CourseUnique(tables, picks, [t0, t1, t2], [4, 2], 128);
  }

  lemma SameEntries(s: seq<nat>, t: seq<nat>)
    requires s == [9, 5, 7, 13, 17, 97] && t == [5, 7, 9, 13, 17, 97]
    ensures multiset(s) == multiset(t)
  {
  }

  lemma FirstMerge(t: seq<nat>, next: seq<nat>)
    requires t == [5, 7, 9, 13, 17, 97] && next == [7, 9, 13, 85, 97]
    ensures TakesIn(t, 4, 128, next)
  {
    hide Replaced, Sorted;
    FirstSorted(t);
    FirstEntries(t, next);
    assert |t| == 6 && t[0] == 5 && t[4] == 17 && t[5] == 97;
    LastTaken(t, 4, 128, next);
  }

  /** Only the last entry of the table does not fit. */
  lemma LastTaken(t: seq<nat>, i: nat, max: nat, next: seq<nat>)
    requires Sorted(t) && 1 <= i == |t| - 2 && 0 <= t[0] * t[i] <= max < t[0] * t[i + 1]
    requires Replaced(t, next, t[0], t[i], t[0] * t[i])
    ensures TakesIn(t, i, max, next)
  {
    hide Replaced, Sorted;
  }

  lemma FirstSorted(t: seq<nat>)
    requires t == [5, 7, 9, 13, 17, 97]
    ensures Sorted(t)
  {
  }

  lemma FirstEntries(t: seq<nat>, next: seq<nat>)
    requires t == [5, 7, 9, 13, 17, 97] && next == [7, 9, 13, 85, 97]
    ensures Replaced(t, next, 5, 17, 85)
  {
    assert multiset(t) == multiset{5, 7, 9, 13, 17, 97};
    assert multiset(next) == multiset{7, 9, 13, 85, 97};
  }

  lemma SecondMerge(t: seq<nat>, next: seq<nat>)
    requires t == [7, 9, 13, 85, 97] && next == [9, 85, 91, 97]
    ensures TakesIn(t, 2, 128, next)
  {
    hide Replaced, Sorted;
    SecondSorted(t);
    SecondEntries(t, next);
  }

  lemma SecondSorted(t: seq<nat>)
    requires t == [7, 9, 13, 85, 97]
    ensures Sorted(t)
  {
  }

  lemma SecondEntries(t: seq<nat>, next: seq<nat>)
    requires t == [7, 9, 13, 85, 97] && next == [9, 85, 91, 97]
    ensures Replaced(t, next, 7, 13, 91)
  {
    assert multiset(t) == multiset{7, 9, 13, 85, 97};
    assert multiset(next) == multiset{9, 85, 91, 97};
  }

  lemma LastTable(t: seq<nat>)
    requires t == [9, 85, 91, 97]
    ensures Finished(t, 128)
  {
  }

  lemma TwoSteps(t: seq<nat>, t': seq<nat>, t'': seq<nat>, i: nat, j: nat, max: nat)
    requires TakesIn(t, i, max, t') && TakesIn(t', j, max, t'') && Finished(t'', max)
    ensures WholeCourse([t, t', t''], [i, j], max)
  {
    hide TakesIn, Finished;
  }

  lemma NoSteps(s: seq<nat>, max: nat)
    ensures Course([s], [], max)
  {
  }

  /** The entry at which the scan from the top stops is the largest that fits. */
  lemma Taken(s: seq<nat>, i: nat, max: nat)
    requires 1 <= i < |s| && Sorted(s) && s[0] * s[i] <= max
    requires forall k :: i < k < |s| ==> max < s[0] * s[k]
    ensures TakesIn(s, i, max, Merged(s, i))
  {
    MulMono(0, s[0], s[i]);
    var rest := s[1..i] + s[i + 1..];
    assert Merged(s, i) == [s[0] * s[i]] + rest;
    assert s == [s[0]] + (s[1..i] + [s[i]] + s[i + 1..]);
  }

  /** What one step of a course is. */
  lemma CourseMeans(tables: seq<seq<nat>>, picks: seq<nat>, max: nat, k: nat)
    requires Course(tables, picks, max) && k < |picks|
    ensures |tables| == |picks| + 1
    ensures var t, i := tables[k], picks[k];
      && 1 <= i < |t| && 0 <= t[0] * t[i] <= max
      && (forall l, j :: 0 <= l < j < |t| ==> t[l] <= t[j])
      && (forall j :: i < j < |t| ==> max < t[0] * t[j])
      && multiset(tables[k + 1]) == multiset(t) - multiset{t[0], t[i]} + multiset{t[0] * t[i]}
  {
    assert TakesIn(tables[k], picks[k], max, tables[k + 1]);
  }

  lemma FinishedMeans(s: seq<nat>, max: nat)
    requires Sorted(s) && forall i :: 1 <= i < |s| ==> max < s[0] * s[i]
    ensures Finished(s, max)
    ensures forall i, j :: 0 <= i < j < |s| ==> s[i] <= s[j]
  {
  }

  class FactorTable {
    var divisors: seq<nat>

    constructor (ds: seq<nat>)
      ensures divisors == ds
    {
      divisors := ds;
    }

    /** The combine loop: the smallest divisor takes in the largest that fits, until
        none fits. */
    method Combine(max: nat) returns (ghost tables: seq<seq<nat>>, ghost picks: seq<nat>)
      requires Positive(divisors) && PairwiseCoprime(divisors) && AtMost(divisors, max)
      modifies this
      ensures SameTests(old(divisors), divisors, max)
      ensures |tables| == |picks| + 1 && multiset(tables[0]) == multiset(old(divisors))
      ensures tables[|picks|] == divisors
      ensures forall i, j :: 0 <= i < j < |divisors| ==> divisors[i] <= divisors[j]
      ensures forall i :: 1 <= i < |divisors| ==> max < divisors[0] * divisors[i]
      ensures WholeCourse(tables, picks, max)
    {
      hide PairwiseCoprime, SortedCopy, Sorted, Combining, WholeCourse, SameTests;
      tables, picks := [divisors], [];
      CombiningStart(divisors, max);
      while true
        invariant Combining(old(divisors), divisors, tables, picks, max)
        decreases |divisors|
      {
        CombiningSorted(old(divisors), divisors, tables, picks, max);
        divisors := SortedCopy(divisors);
        tables := tables[|picks| := divisors];
        ghost var sorted := divisors;
        var i := |divisors| - 1;
        while i >= 1 && divisors[i] > max / divisors[0]
          invariant i < |divisors| && divisors == sorted && PositiveHead(divisors)
          invariant forall k :: i < k < |divisors| && 1 <= k ==> max < divisors[0] * divisors[k]
        {
          TooLarge(divisors[i], divisors[0], max);
          i := i - 1;
        }
        if i < 1 {
          CombiningDone(old(divisors), divisors, tables, picks, max);
          break;
        }
        FitsTogether(divisors[i], divisors[0], max);
        CombiningMerged(old(divisors), divisors, tables, picks, i, max);
        divisors := divisors[0 := divisors[0] * divisors[i]];
        divisors := divisors[..i] + divisors[i + 1..];
        tables, picks := tables + [divisors], picks + [i];
      }
    }
  }

  /** What the loop keeps: the tests, and a course that has come to the present table. */
  ghost predicate Combining(before: seq<nat>, now: seq<nat>, tables: seq<seq<nat>>, picks: seq<nat>, max: nat) {
    && Positive(before) && SameTests(before, now, max) && Course(tables, picks, max)
    && |tables| == |picks| + 1 && tables[|picks|] == now && multiset(tables[0]) == multiset(before)
  }

  lemma CombiningStart(s: seq<nat>, max: nat)
    requires Positive(s) && PairwiseCoprime(s) && AtMost(s, max)
    ensures Combining(s, s, [s], [], max)
  {
    hide PairwiseCoprime, SameTests, Course;
    SameTestsStart(s, max);
    NoSteps(s, max);
  }

  lemma CombiningSorted(before: seq<nat>, now: seq<nat>, tables: seq<seq<nat>>, picks: seq<nat>, max: nat)
    requires Combining(before, now, tables, picks, max)
    ensures |tables| == |picks| + 1 && Sorted(SortedCopy(now)) && PositiveHead(SortedCopy(now))
    ensures Combining(before, SortedCopy(now), tables[|picks| := SortedCopy(now)], picks, max)
  {
    hide SameTests, Course, SortedCopy, Sorted;
    SortKeepsTests(before, now, max);
    CourseSorted(tables, picks, SortedCopy(now), max);
  }

  lemma CombiningMerged(
      before: seq<nat>, now: seq<nat>, tables: seq<seq<nat>>, picks: seq<nat>, i: nat, max: nat)
    requires Combining(before, now, tables, picks, max) && Sorted(now)
    requires 1 <= i < |now| && now[0] * now[i] <= max && forall k :: i < k < |now| ==> max < now[0] * now[k]
    ensures 0 <= now[0] * now[i]
    ensures var t := now[0 := now[0] * now[i]]; var next := t[..i] + t[i + 1..];
      Combining(before, next, tables + [next], picks + [i], max)
  {
    hide SameTests, Course, Sorted, TakesIn, Merged;
    Taken(now, i, max);
    CourseStep(tables, picks, i, Merged(now, i), max);
    MergeKeepsTests(before, now, i, max);
    MergedIs(now, i);
  }

  lemma CombiningDone(before: seq<nat>, now: seq<nat>, tables: seq<seq<nat>>, picks: seq<nat>, max: nat)
    requires Combining(before, now, tables, picks, max) && Sorted(now)
    requires forall i :: 1 <= i < |now| ==> max < now[0] * now[i]
    ensures SameTests(before, now, max) && WholeCourse(tables, picks, max)
    ensures |tables| == |picks| + 1 && tables[|picks|] == now && multiset(tables[0]) == multiset(before)
    ensures forall i, j :: 0 <= i < j < |now| ==> now[i] <= now[j]
  {
    hide SameTests, Course;
    FinishedMeans(now, max);
  }

  predicate PositiveHead(s: seq<nat>) {
    s != [] ==> 0 < s[0]
  }

  lemma TooLarge(d: nat, first: nat, max: nat)
    requires 0 < first && d > max / first
    ensures max < first * d
  {
    var q := max / first;
    assert max == q * first + max % first;
    MulMono(q + 1, d, first);
    assert d * first == first * d;
  }

  lemma FitsTogether(d: nat, first: nat, max: nat)
    requires 0 < first && d <= max / first
    ensures first * d <= max
  {
    var q := max / first;
    assert max == q * first + max % first;
    MulMono(d, q, first);
    assert d * first == first * d;
  }

  lemma SameTestsStart(s: seq<nat>, max: nat)
    requires Positive(s) && PairwiseCoprime(s) && AtMost(s, max)
    ensures SameTests(s, s, max)
  {
  }

  lemma SortKeepsTests(before: seq<nat>, s: seq<nat>, max: nat)
    requires SameTests(before, s, max) && Positive(before)
    ensures SameTests(before, SortedCopy(s), max) && Sorted(SortedCopy(s)) && PositiveHead(SortedCopy(s))
    ensures multiset(SortedCopy(s)) == multiset(s)
  {
    hide SquareMod, PairwiseCoprime, Product;
    SortFacts(s);
    var t := SortedCopy(s);
    forall i | 0 <= i < |t| ensures t[i] in s { assert t[i] in multiset(t); }
    forall i | 0 <= i < |s| ensures s[i] in t { assert s[i] in multiset(s); }
    forall x: int ensures Undetected(x, t) <==> Undetected(x, s) {
      if Undetected(x, s) { MemberUndetected(x, s, t); }
      if Undetected(x, t) { MemberUndetected(x, t, s); }
    }
  }

  lemma MemberUndetected(x: int, s: seq<nat>, t: seq<nat>)
    requires Positive(s) && Positive(t) && Undetected(x, s) && forall i :: 0 <= i < |t| ==> t[i] in s
    ensures Undetected(x, t)
  {
  }

  function Merged(s: seq<nat>, i: nat): seq<nat>
    requires 1 <= i < |s|
  {
    MulMono(0, s[0], s[i]);
    Without(s[0 := s[0] * s[i]], i)
  }

  lemma MergedIs(s: seq<nat>, i: nat)
    requires 1 <= i < |s| && 0 <= s[0] * s[i]
    ensures var t := s[0 := s[0] * s[i]]; Merged(s, i) == t[..i] + t[i + 1..]
    ensures |Merged(s, i)| == |s| - 1
  {
  }

  lemma MergedAt(s: seq<nat>, i: nat, k: nat)
    requires 1 <= i < |s| && k < |s| - 1
    ensures |Merged(s, i)| == |s| - 1
    ensures Merged(s, i)[k] == if k == 0 then s[0] * s[i] else if k < i then s[k] else s[k + 1]
  {
  }

  lemma MergedProduct(s: seq<nat>, i: nat)
    requires 1 <= i < |s|
    ensures Product(Merged(s, i)) == Product(s)
  {
    hide Product, Merged;
    ProductWithout(s, i);
    MergedRest(s, i);
    var rest, m := Without(s, i), Merged(s, i);
    ProductHead(rest);
    ProductHead(m);
    MulRotate(s[i], s[0], Product(rest[1..]));
    MulAssoc(s[0], s[i], Product(rest[1..]));
  }

  lemma ProductHead(s: seq<int>)
    requires s != []
    ensures Product(s) == s[0] * Product(s[1..])
  {
  }

  lemma MergedRest(s: seq<nat>, i: nat)
    requires 1 <= i < |s|
    ensures var rest, m := Without(s, i), Merged(s, i);
      |rest| == |m| == |s| - 1 && rest[0] == s[0] && m[0] == s[0] * s[i] && rest[1..] == m[1..]
  {
  }

  lemma MergedCoprime(s: seq<nat>, i: nat)
    requires 1 <= i < |s| && PairwiseCoprime(s)
    ensures PairwiseCoprime(Merged(s, i))
  {
    var m := Merged(s, i);
    forall j, k | 0 <= j < k < |m|
      ensures Coprime(m[j], m[k])
    {
      MergedAt(s, i, j);
      MergedAt(s, i, k);
      var k' := if k < i then k else k + 1;
      if j == 0 {
        assert Coprime(s[0], s[k']);
        if i < k' { assert Coprime(s[i], s[k']); } else { assert Coprime(s[k'], s[i]); CoprimeSymmetric(s[k'], s[i]); }
        CoprimeProduct(s[0], s[i], s[k']);
      } else {
        var j' := if j < i then j else j + 1;
        assert Coprime(s[j'], s[k']);
      }
    }
  }

  lemma MergedUndetected(x: int, s: seq<nat>, i: nat)
    requires 1 <= i < |s| && Positive(s) && Coprime(s[0], s[i]) && Positive(Merged(s, i))
    ensures Undetected(x, Merged(s, i)) <==> Undetected(x, s)
  {
    hide SquareMod, Coprime;
    var m := Merged(s, i);
    MergedAt(s, i, 0);
    SquareModProduct(x, s[0], s[i]);
    if Undetected(x, m) {
      forall k | 0 <= k < |s| ensures SquareMod(x, s[k]) {
        if k != 0 && k != i {
          MergedAt(s, i, if k < i then k else k - 1);
          assert SquareMod(x, m[if k < i then k else k - 1]);
        } else {
          assert SquareMod(x, m[0]);
        }
      }
    }
    if Undetected(x, s) {
      forall k | 0 <= k < |m| ensures SquareMod(x, m[k]) {
        MergedAt(s, i, k);
        assert SquareMod(x, s[0]) && SquareMod(x, s[i]) && SquareMod(x, s[if k < i then k else k + 1]);
      }
    }
  }

  lemma MergeKeepsTests(before: seq<nat>, s: seq<nat>, i: nat, max: nat)
    requires SameTests(before, s, max) && Positive(before) && 1 <= i < |s| && s[0] * s[i] <= max
    ensures 0 <= s[0] * s[i]
    ensures SameTests(before, Merged(s, i), max)
  {
    hide Undetected, PairwiseCoprime, Product, Merged;
    var m := Merged(s, i);
    MulPositive(s[0], s[i]);
    MergedProduct(s, i);
    MergedCoprime(s, i);
    MergedAt(s, i, 0);
    forall k | 0 <= k < |m| ensures 0 < m[k] <= max { MergedAt(s, i, k); }
    CoprimePair(s, 0, i);
    forall x: int ensures Undetected(x, m) <==> Undetected(x, s) { MergedUndetected(x, s, i); }
  }

  lemma CoprimePair(s: seq<nat>, i: nat, j: nat)
    requires PairwiseCoprime(s) && i < j < |s|
    ensures Coprime(s[i], s[j])
  {
  }
}
