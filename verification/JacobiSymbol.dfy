/** The Jacobi symbol, built from its least-residue form: for odd n and a coprime
    to n, the product over k = 1 .. (n-1)/2 of the sign of the residue of a k
    nearest to zero.  All laws are proved: multiplicativity on both sides, the
    value at 2, quadratic reciprocity and Euler's criterion at primes. */
module JacobiSymbol {
  import opened Arith
  import opened Primes
  import opened Products
  import opened Fermat

  // ----- products of signs

  function Sgn(odd: bool): int {
    if odd then -1 else 1
  }

  predicate IsSign(x: int) {
    x == 1 || x == -1
  }

  /** -1 to the power x. */
  function Parity(x: int): (r: int)
    ensures IsSign(r)
  {
    Sgn(x % 2 == 1)
  }

  lemma ParityAdd(x: int, y: int)
    ensures Parity(x + y) == Parity(x) * Parity(y)
  {
  }

  function MapProduct(f: int -> int, s: seq<int>): int {
    if s == [] then 1 else f(s[0]) * MapProduct(f, s[1..])
  }

  lemma {:induction false} MapProductAppend(f: int -> int, s: seq<int>, t: seq<int>)
    ensures MapProduct(f, s + t) == MapProduct(f, s) * MapProduct(f, t)
    decreases |s|
  {
    if s == [] {
      assert s + t == t;
    } else {
      assert (s + t)[1..] == s[1..] + t;
      MapProductAppend(f, s[1..], t);
      MulAssoc(f(s[0]), MapProduct(f, s[1..]), MapProduct(f, t));
    }
  }

  lemma MapProductSingle(f: int -> int, x: int)
    ensures MapProduct(f, [x]) == f(x)
  {
    assert [x][1..] == [];
  }

  lemma MapProductWithout(f: int -> int, s: seq<int>, i: nat)
    requires i < |s|
    ensures MapProduct(f, s) == MapProduct(f, Without(s, i)) * f(s[i])
  {
    hide MapProduct;
    assert s == s[..i] + ([s[i]] + s[i + 1..]);
    MapProductAppend(f, s[..i], [s[i]] + s[i + 1..]);
    MapProductAppend(f, [s[i]], s[i + 1..]);
    MapProductAppend(f, s[..i], s[i + 1..]);
    MapProductSingle(f, s[i]);
    MulRotate(MapProduct(f, s[..i]), f(s[i]), MapProduct(f, s[i + 1..]));
  }

  /** The product of f(1) .. f(m). */
  function RangeProduct(f: int -> int, m: nat): int {
    if m == 0 then 1 else RangeProduct(f, m - 1) * f(m)
  }

  /** A permutation of 1 .. m does not change the product of f. */
  lemma {:induction false} PermutedProduct(f: int -> int, s: seq<int>, m: nat)
    requires |s| == m && InjectiveInto(s, m)
    ensures MapProduct(f, s) == RangeProduct(f, m)
    decreases m
  {
    if m > 0 {
      InjectiveCovers(s, m, m);
      var i :| 0 <= i < |s| && s[i] == m;
      WithoutInjective(s, i, m);
      MapProductWithout(f, s, i);
      PermutedProduct(f, Without(s, i), m - 1);
    }
  }

  // ----- nearest residues

  /** Whether the residue of x nearest to zero is positive. */
  function NearSign(x: int, n: nat): (r: int)
    requires 1 <= n
    ensures IsSign(r)
  {
    Sgn(n / 2 < x % n)
  }

  /** Its absolute value. */
  function Fold(x: int, n: nat): nat
    requires 1 <= n
  {
    if x % n <= n / 2 then x % n else n - x % n
  }

  lemma FoldMeaning(x: int, n: nat)
    requires n % 2 == 1
    ensures Fold(x, n) <= n / 2
    ensures x % n == (NearSign(x, n) * Fold(x, n)) % n
    ensures Fold(x, n) == 0 <==> Divides(n, x)
  {
    ModMod(x, n);
    ModAddMul(x % n, -1, n);
  }

  lemma NearSignCong(x: int, y: int, n: nat)
    requires 1 <= n && x % n == y % n
    ensures NearSign(x, n) == NearSign(y, n) && Fold(x, n) == Fold(y, n)
  {
  }

  lemma NegatedResidue(x: int, n: nat)
    requires 1 <= n && x % n != 0
    ensures (-x) % n == n - x % n
  {
    assert -x == (-(x / n) - 1) * n + (n - x % n);
    DivModUnique(-x, n, -(x / n) - 1, n - x % n);
  }

  lemma NearSignNegated(x: int, n: nat)
    requires n % 2 == 1 && !Divides(n, x)
    ensures NearSign(-x, n) == -NearSign(x, n)
  {
    NegatedResidue(x, n);
  }

  /** The sign of a (b k) splits over the folded residue of b k. */
  lemma NearSignSplit(a: int, y: int, n: nat)
    requires n % 2 == 1 && !Divides(n, a * y)
    ensures NearSign(a * y, n) == NearSign(a * Fold(y, n), n) * NearSign(y, n)
  {
    hide Divides, NearSign, Fold;
    FoldMeaning(y, n);
    var e, f := NearSign(y, n), Fold(y, n);
    CongMul(a, a, y, e * f, n);
    assert a * (e * f) == e * (a * f);
    NearSignCong(a * y, e * (a * f), n);
    CongDivides(a * y, e * (a * f), n);
    if e == -1 {
      assert e * (a * f) == -(a * f);
      DividesNeg(n, a * f);
      NearSignNegated(a * f, n);
    } else {
      assert e * (a * f) == a * f;
    }
  }

  lemma CongDivides(x: int, y: int, n: nat)
    requires 1 <= n && x % n == y % n
    ensures Divides(n, x) <==> Divides(n, y)
  {
  }

  // ----- the symbol

  function SignOfMultiple(a: int, n: nat): int -> int
    requires 1 <= n
  {
    k => NearSign(a * k, n)
  }

  function Jacobi(a: nat, n: nat): int
    requires n % 2 == 1
  {
    if Coprime(a, n) then RangeProduct(SignOfMultiple(a, n), n / 2) else 0
  }

  lemma {:induction false} RangeProductSign(f: int -> int, m: nat)
    requires forall k :: 1 <= k <= m ==> IsSign(f(k))
    ensures IsSign(RangeProduct(f, m))
    decreases m
  {
    if m > 0 { RangeProductSign(f, m - 1); }
  }

  lemma {:induction false} RangeProductSame(f: int -> int, g: int -> int, m: nat)
    requires forall k :: 1 <= k <= m ==> f(k) == g(k)
    ensures RangeProduct(f, m) == RangeProduct(g, m)
    decreases m
  {
    if m > 0 { RangeProductSame(f, g, m - 1); }
  }

  lemma {:induction false} RangeProductMul(f: int -> int, g: int -> int, h: int -> int, m: nat)
    requires forall k :: 1 <= k <= m ==> f(k) == g(k) * h(k)
    ensures RangeProduct(f, m) == RangeProduct(g, m) * RangeProduct(h, m)
    decreases m
  {
    if m > 0 {
      RangeProductMul(f, g, h, m - 1);
      MulSwap(RangeProduct(g, m - 1), g(m), RangeProduct(h, m - 1), h(m));
      MulSwap(RangeProduct(g, m - 1), RangeProduct(h, m - 1), g(m), h(m));
    }
  }

  /** The symbol depends on a modulo n. */
  lemma JacobiMod(a: nat, b: nat, n: nat)
    requires n % 2 == 1 && a % n == b % n
    ensures Jacobi(a, n) == Jacobi(b, n)
  {
    CoprimeMod(a, n);
    CoprimeMod(b, n);
    forall k | 1 <= k <= n / 2
      ensures SignOfMultiple(a, n)(k) == SignOfMultiple(b, n)(k)
    {
      CongMul(a, b, k, k, n);
      NearSignCong(a * k, b * k, n);
    }
    RangeProductSame(SignOfMultiple(a, n), SignOfMultiple(b, n), n / 2);
  }

  lemma MultipleNotDivisible(b: nat, k: nat, n: nat)
    requires Coprime(b, n) && 1 <= k < n
    ensures !Divides(n, b * k)
  {
    if Divides(n, b * k) {
      CoprimeSymmetric(b, n);
      CoprimeDivides(n, b, k);
      var j := DividesQuotient(n, k);
    }
  }

  function FoldedMultiples(b: int, m: nat, n: nat): (s: seq<int>)
    requires 1 <= n
    ensures |s| == m && forall i :: 0 <= i < m ==> s[i] == Fold(b * (i + 1), n)
  {
    if m == 0 then [] else FoldedMultiples(b, m - 1, n) + [Fold(b * m, n)]
  }

  lemma FoldOpposite(x: int, y: int, n: nat)
    requires n % 2 == 1 && Fold(x, n) == Fold(y, n) && x % n != y % n
    ensures Divides(n, x + y)
  {
    assert x % n + y % n == n;
    ModMod(x, n);
    ModMod(y, n);
    CongAdd(x, x % n, y, y % n, n);
    DivModUnique(n, n, 1, 0);
  }

  /** Different multiples have different folded residues. */
  lemma FoldInjective(b: nat, i: nat, j: nat, n: nat)
    requires n % 2 == 1 && Coprime(b, n) && 1 <= i < j <= n / 2
    ensures Fold(b * i, n) != Fold(b * j, n)
  {
    hide Divides, Coprime, Fold;
    CoprimeSymmetric(b, n);
    if (b * i) % n == (b * j) % n {
      CoprimeCancel(b, i, j, n);
      SmallMod(i, n);
      SmallMod(j, n);
    } else if Fold(b * i, n) == Fold(b * j, n) {
      FoldOpposite(b * i, b * j, n);
      assert b * (i + j) == b * i + b * j;
      MultipleNotDivisible(b, i + j, n);
    }
  }

  lemma FoldedPermutation(b: nat, n: nat)
    requires n % 2 == 1 && Coprime(b, n)
    ensures InjectiveInto(FoldedMultiples(b, n / 2, n), n / 2)
  {
    hide Fold, Coprime;
    var s := FoldedMultiples(b, n / 2, n);
    forall i | 0 <= i < |s|
      ensures 1 <= s[i] <= n / 2
    {
      MultipleNotDivisible(b, i + 1, n);
      FoldMeaning(b * (i + 1), n);
    }
    forall i, j | 0 <= i < j < |s|
      ensures s[i] != s[j]
    {
      FoldInjective(b, i + 1, j + 1, n);
    }
  }

  lemma {:induction false} MapOverMultiples(f: int -> int, b: int, m: nat, n: nat, g: int -> int)
    requires 1 <= n && forall k :: 1 <= k <= m ==> g(k) == f(Fold(b * k, n))
    ensures MapProduct(f, FoldedMultiples(b, m, n)) == RangeProduct(g, m)
    decreases m
  {
    if m > 0 {
      MapOverMultiples(f, b, m - 1, n, g);
      MapProductAppend(f, FoldedMultiples(b, m - 1, n), [Fold(b * m, n)]);
      MapProductSingle(f, Fold(b * m, n));
    }
  }

  /** A function of the folded multiples has the same product as over 1 .. (n-1)/2. */
  lemma FoldedProduct(f: int -> int, b: nat, n: nat, g: int -> int)
    requires n % 2 == 1 && Coprime(b, n)
    requires forall k :: 1 <= k <= n / 2 ==> g(k) == f(Fold(b * k, n))
    ensures RangeProduct(g, n / 2) == RangeProduct(f, n / 2)
  {
    FoldedPermutation(b, n);
    PermutedProduct(f, FoldedMultiples(b, n / 2, n), n / 2);
    MapOverMultiples(f, b, n / 2, n, g);
  }

  lemma CoprimeProductBoth(a: nat, b: nat, n: nat)
    ensures Coprime(a * b, n) <==> Coprime(a, n) && Coprime(b, n)
  {
    if Coprime(a, n) && Coprime(b, n) { CoprimeProduct(a, b, n); }
    if Coprime(a * b, n) {
      var x, y := Bezout(a * b, n);
      MulAssoc(a, b, x);
      MulRotate(a, b, x);
      CoprimeFromBezout(a, n, b * x, y);
      CoprimeFromBezout(b, n, a * x, y);
    }
  }

  /** Multiplicativity above. */
  lemma JacobiMul(a: nat, b: nat, n: nat)
    requires n % 2 == 1
    ensures 0 <= a * b && Jacobi(a * b, n) == Jacobi(a, n) * Jacobi(b, n)
  {
    hide Coprime, NearSign, Fold;
    MulMono(0, a, b);
    CoprimeProductBoth(a, b, n);
    if Coprime(a, n) && Coprime(b, n) {
      var f, g := SignOfMultiple(a, n), SignOfMultiple(b, n);
      var h: int -> int := k => NearSign(a * Fold(b * k, n), n);
      forall k | 1 <= k <= n / 2
        ensures SignOfMultiple(a * b, n)(k) == h(k) * g(k)
      {
        MultipleNotDivisible(a * b, k, n);
        MulAssoc(a, b, k);
        NearSignSplit(a, b * k, n);
      }
      RangeProductMul(SignOfMultiple(a * b, n), h, g, n / 2);
      FoldedProduct(f, b, n, h);
    }
  }

  lemma CoprimeOne(n: nat)
    ensures Coprime(1, n) && Coprime(n, 1)
  {
    CoprimeFromBezout(1, n, 1, 0);
    CoprimeSymmetric(1, n);
  }

  lemma JacobiOverOne(a: nat)
    ensures Jacobi(a, 1) == 1
  {
    CoprimeOne(a);
    assert RangeProduct(SignOfMultiple(a, 1), 0) == 1;
  }

  // ----- the value at 2

  lemma DoubleSign(k: nat, n: nat)
    requires 2 * k < n
    ensures SignOfMultiple(2, n)(k) == Sgn(n / 4 < k)
  {
    SmallMod(2 * k, n);
    assert n / 2 < 2 * k <==> n / 4 < k;
  }

  lemma {:induction false} DoublesProduct(m: nat, n: nat)
    requires 2 * m < n
    ensures RangeProduct(SignOfMultiple(2, n), m) == (if m <= n / 4 then 1 else Parity(m - n / 4))
    decreases m
  {
    hide SignOfMultiple;
    if m > 0 {
      DoublesProduct(m - 1, n);
      DoubleSign(m, n);
    }
  }

  lemma HalfLessQuarter(n: nat)
    requires n % 2 == 1
    ensures Parity(n / 2 - n / 4) == Sgn(n % 8 == 3 || n % 8 == 5)
  {
    hide Parity;
    var j := n / 8;
    ParityTwice(j);
    ParityTwice(j + 1);
    if n == 8 * j + 1 { assert n / 2 == 4 * j && n / 4 == 2 * j; }
    else if n == 8 * j + 3 { assert n / 2 == 4 * j + 1 && n / 4 == 2 * j; }
    else if n == 8 * j + 5 { assert n / 2 == 4 * j + 2 && n / 4 == 2 * j + 1; }
    else { assert n == 8 * j + 7 && n / 2 == 4 * j + 3 && n / 4 == 2 * j + 1; }
  }

  lemma ParityTwice(j: int)
    ensures Parity(2 * j) == 1 && Parity(2 * j + 1) == -1
  {
  }

  lemma JacobiTwo(n: nat)
    requires n % 2 == 1
    ensures Jacobi(2, n) == Sgn(n % 8 == 3 || n % 8 == 5)
  {
    hide Parity, Sgn, Coprime;
    CoprimeFromBezout(2, n, -(n / 2), 1);
    DoublesProduct(n / 2, n);
    HalfLessQuarter(n);
    if n == 1 { JacobiOverOne(2); JacobiTwoOverOne(); }
  }

  lemma JacobiTwoOverOne()
    ensures Sgn(1 % 8 == 3 || 1 % 8 == 5) == 1
  {
  }

  // ----- reciprocity

  function FloorSign(m: int, n: nat): int -> int
    requires 1 <= n
  {
    k => Parity(m * k / n)
  }

  lemma OddTimes(a: int, k: int)
    requires a % 2 == 1
    ensures Parity(a * k) == Parity(k)
  {
    var c := a / 2;
    assert a * k == 2 * (c * k) + k;
  }

  /** Modulo 2, k is the quotient plus the folded residue plus the sign of a k. */
  lemma EisensteinStep(a: nat, k: nat, n: nat)
    requires n % 2 == 1 && a % 2 == 1
    ensures Parity(k) == (Parity(a * k / n) * Parity(Fold(a * k, n))) * NearSign(a * k, n)
  {
    hide Parity;
    var x := a * k;
    OddTimes(a, k);
    var q, r := x / n, x % n;
    assert x == n * q + r;
    ParityAdd(n * q, r);
    OddTimes(n, q);
    if n / 2 < r { ParityAdd(r, n - r); ParityOdd(n); }
  }

  lemma ParityOdd(n: int)
    ensures Parity(n) == (if n % 2 == 1 then -1 else 1)
  {
  }

  lemma RangeProductIsSign(f: int -> int, m: nat)
    requires forall k :: IsSign(f(k))
    ensures IsSign(RangeProduct(f, m))
  {
    RangeProductSign(f, m);
  }

  lemma SignCancel(p: int, q: int, j: int)
    requires IsSign(p) && IsSign(q) && p == (q * p) * j
    ensures j == q
  {
  }

  lemma Eisenstein(a: nat, n: nat)
    requires n % 2 == 1 && a % 2 == 1 && Coprime(a, n)
    ensures Jacobi(a, n) == RangeProduct(FloorSign(a, n), n / 2)
  {
    hide Parity, NearSign, Fold, Coprime;
    var f: int -> int := k => Parity(k);
    var g: int -> int := k => Parity(Fold(a * k, n));
    var gh: int -> int := k => Parity(a * k / n) * Parity(Fold(a * k, n));
    forall k | 1 <= k <= n / 2
      ensures f(k) == gh(k) * SignOfMultiple(a, n)(k)
    {
      EisensteinStep(a, k, n);
    }
    RangeProductMul(f, gh, SignOfMultiple(a, n), n / 2);
    RangeProductMul(gh, FloorSign(a, n), g, n / 2);
    FoldedProduct(f, a, n, g);
    RangeProductIsSign(f, n / 2);
    RangeProductIsSign(FloorSign(a, n), n / 2);
    SignCancel(RangeProduct(f, n / 2), RangeProduct(FloorSign(a, n), n / 2), Jacobi(a, n));
  }

  /** How many l in 1 .. c have n l < x. */
  function CountBelow(n: nat, c: nat, x: nat): nat {
    if c == 0 then 0 else CountBelow(n, c - 1, x) + (if n * c < x then 1 else 0)
  }

  /** How many pairs k in 1 .. r, l in 1 .. c have n l < m k. */
  function Below(m: nat, n: nat, r: nat, c: nat): nat {
    if r == 0 then 0 else MulMono(0, m, r); Below(m, n, r - 1, c) + CountBelow(n, c, m * r)
  }

  /** How many k in 1 .. r have x < m k. */
  function CountAbove(m: nat, r: nat, x: nat): nat {
    if r == 0 then 0 else CountAbove(m, r - 1, x) + (if x < m * r then 1 else 0)
  }

  lemma {:induction false} BelowByColumn(m: nat, n: nat, r: nat, c: nat)
    requires 1 <= c
    ensures 0 <= n * c
    ensures Below(m, n, r, c) == Below(m, n, r, c - 1) + CountAbove(m, r, n * c)
    decreases r
  {
    MulMono(0, n, c);
    if r > 0 {
      BelowByColumn(m, n, r - 1, c);
      MulMono(0, m, r);
    }
  }

  lemma {:induction false} RowSplit(n: nat, c: nat, x: nat)
    requires forall l :: 1 <= l <= c ==> n * l != x
    ensures CountBelow(n, c, x) + CountAbove(n, c, x) == c
    decreases c
  {
    if c > 0 { RowSplit(n, c - 1, x); }
  }

  lemma {:induction false} BelowNone(m: nat, n: nat, r: nat)
    ensures Below(m, n, r, 0) == 0
    decreases r
  {
    if r > 0 { BelowNone(m, n, r - 1); MulMono(0, m, r); }
  }

  /** The lattice points below and above the diagonal fill the rectangle. */
  lemma {:induction false} Lattice(m: nat, n: nat, r: nat, c: nat)
    requires forall k, l :: 1 <= k <= r && 1 <= l <= c ==> n * l != m * k
    ensures Below(m, n, r, c) + Below(n, m, c, r) == r * c
    decreases r
  {
    if r == 0 {
      BelowNone(n, m, c);
    } else {
      Lattice(m, n, r - 1, c);
      MulMono(0, m, r);
      BelowByColumn(n, m, c, r);
      RowSplit(n, c, m * r);
      assert (r - 1) * c + c == r * c;
    }
  }

  lemma {:induction false} CountIsFloor(n: nat, c: nat, x: nat)
    requires 1 <= n && forall l :: 1 <= l <= c ==> n * l != x
    ensures CountBelow(n, c, x) == (if x / n <= c then x / n else c)
    decreases c
  {
    if c > 0 {
      CountIsFloor(n, c - 1, x);
      FloorCompare(n, c, x);
    }
  }

  lemma FloorCompare(n: nat, c: nat, x: nat)
    requires 1 <= n
    ensures n * c <= x <==> c <= x / n
  {
    var q, r := x / n, x % n;
    assert x == q * n + r;
    if c <= q { MulMono(c, q, n); } else { MulMono(q + 1, c, n); }
  }

  lemma {:induction false} FloorsAreBelow(m: nat, n: nat, r: nat, c: nat)
    requires 1 <= n
    requires forall k, l :: 1 <= k <= r && 1 <= l <= c ==> n * l != m * k
    requires forall k :: 1 <= k <= r ==> m * k / n <= c
    ensures RangeProduct(FloorSign(m, n), r) == Parity(Below(m, n, r, c))
    decreases r
  {
    if r > 0 {
      FloorsAreBelow(m, n, r - 1, c);
      MulMono(0, m, r);
      CountIsFloor(n, c, m * r);
      ParityAdd(Below(m, n, r - 1, c), CountBelow(n, c, m * r));
    }
  }

  lemma FloorsFit(m: nat, n: nat, k: nat)
    requires m % 2 == 1 && n % 2 == 1 && k <= n / 2
    ensures m * k / n <= m / 2
  {
    FloorCompare(n, m / 2 + 1, m * k);
    MulMono(2 * k, n, m);
    assert 2 * (n * (m / 2 + 1)) == n * (m + 1) == m * n + n;
    assert (2 * k) * m == 2 * (m * k);
    assert n * m == m * n;
  }

  lemma NoTies(m: nat, n: nat)
    requires n % 2 == 1 && Coprime(m, n)
    ensures forall k, l :: 1 <= k <= n / 2 && 1 <= l <= m / 2 ==> n * l != m * k
  {
    forall k, l | 1 <= k <= n / 2 && 1 <= l <= m / 2
      ensures n * l != m * k
    {
      MultipleNotDivisible(m, k, n);
      if n * l == m * k { DividesFrom(n, l, m * k); }
    }
  }

  lemma FloorProductBelow(m: nat, n: nat)
    requires m % 2 == 1 && n % 2 == 1 && Coprime(m, n)
    ensures RangeProduct(FloorSign(m, n), n / 2) == Parity(Below(m, n, n / 2, m / 2))
  {
    NoTies(m, n);
    forall k | 1 <= k <= n / 2 ensures m * k / n <= m / 2 { FloorsFit(m, n, k); }
    FloorsAreBelow(m, n, n / 2, m / 2);
  }

  /** Whether swapping the two odd arguments changes the sign. */
  function SwapSign(m: int, n: int): int {
    Sgn(m % 4 == 3 && n % 4 == 3)
  }

  lemma EvenTimes(x: int, y: int)
    requires x % 2 == 0
    ensures Parity(x * y) == 1
  {
    var c := x / 2;
    assert x * y == 2 * (c * y);
  }

  lemma ParityIsSgn(x: int)
    ensures Parity(x) == Sgn(x % 2 == 1)
  {
  }

  lemma SgnFalse()
    ensures Sgn(false) == 1
  {
  }

  lemma ThreeMod4(x: nat)
    requires x % 2 == 1
    ensures x % 4 == 3 <==> x / 2 % 2 == 1
  {
    var h := x / 2;
    var j, b := h / 2, h % 2;
    assert x == 2 * h + 1 && h == 2 * j + b;
    DivModUnique(x, 4, j, 2 * b + 1);
  }

  lemma HalvesParity(m: nat, n: nat)
    requires m % 2 == 1 && n % 2 == 1
    ensures Parity((n / 2) * (m / 2)) == SwapSign(m, n)
  {
    hide Parity, Sgn;
    var x, y := n / 2, m / 2;
    ParityIsSgn(y);
    SgnFalse();
    ThreeMod4(m);
    ThreeMod4(n);
    if x % 2 == 1 { OddTimes(x, y); } else { EvenTimes(x, y); }
  }

  lemma SignMove(x: int, y: int, s: int)
    requires IsSign(x) && IsSign(y) && x * y == s
    ensures x == s * y
  {
  }

  lemma ReciprocityCoprime(m: nat, n: nat)
    requires m % 2 == 1 && n % 2 == 1 && Coprime(m, n)
    ensures Jacobi(m, n) == SwapSign(m, n) * Jacobi(n, m)
  {
    hide Coprime, Parity, SwapSign, Jacobi, RangeProduct, FloorSign, Below;
    CoprimeSymmetric(m, n);
    Eisenstein(m, n);
    Eisenstein(n, m);
    FloorProductBelow(m, n);
    FloorProductBelow(n, m);
    NoTies(m, n);
    Lattice(m, n, n / 2, m / 2);
    ParityAdd(Below(m, n, n / 2, m / 2), Below(n, m, m / 2, n / 2));
    HalvesParity(m, n);
    SignMove(Jacobi(m, n), Jacobi(n, m), SwapSign(m, n));
  }

  /** Quadratic reciprocity. */
  lemma Reciprocity(m: nat, n: nat)
    requires m % 2 == 1 && n % 2 == 1
    ensures Jacobi(m, n) == SwapSign(m, n) * Jacobi(n, m)
  {
    hide SwapSign, RangeProduct;
    if Coprime(m, n) {
      ReciprocityCoprime(m, n);
    } else {
      if Coprime(n, m) { CoprimeSymmetric(n, m); }
      assert Jacobi(m, n) == 0 && Jacobi(n, m) == 0;
    }
  }

  // ----- multiplicativity below

  lemma SgnXor(x: bool, y: bool)
    ensures Sgn(x) * Sgn(y) == Sgn(x != y)
  {
  }

  lemma SmallOddProduct(u: nat, v: nat)
    requires (u == 1 || u == 3) && (v == 1 || v == 3)
    ensures u * v % 4 == (if u == v then 1 else 3)
  {
    if u == 1 { assert u * v == v; } else if v == 1 { assert u * v == 3; } else { assert u * v == 9; }
  }

  lemma OddMod4(x: nat)
    ensures x % 2 == 1 <==> x % 4 == 1 || x % 4 == 3
  {
    var r := x % 4;
    ModAddMul(r, 2 * (x / 4), 2);
    assert x % 2 == r % 2;
  }

  lemma OddProductMod4(m: nat, n: nat)
    requires m % 2 == 1 && n % 2 == 1
    ensures 0 <= m * n && (m * n) % 2 == 1 && (m * n) % 4 == (if m % 4 == n % 4 then 1 else 3)
  {
    MulMono(0, m, n);
    OddMod4(m);
    OddMod4(n);
    OddMod4(m * n);
    ModMod(m, 4);
    ModMod(n, 4);
    CongMul(m, m % 4, n, n % 4, 4);
    SmallOddProduct(m % 4, n % 4);
  }

  /** The sign of a swap by the residues modulo 4. */
  lemma SignsMultiply(a: int, m: int, n: int, mn: int)
    requires (m == 1 || m == 3) && (n == 1 || n == 3) && mn == if m == n then 1 else 3
    ensures Sgn(a == 3 && mn == 3) == Sgn(a == 3 && m == 3) * Sgn(a == 3 && n == 3)
  {
  }

  lemma SwapSignMul(a: nat, m: nat, n: nat)
    requires a % 2 == 1 && m % 2 == 1 && n % 2 == 1
    ensures (m * n) % 2 == 1 && SwapSign(a, m * n) == SwapSign(a, m) * SwapSign(a, n)
  {
    hide Sgn;
    OddProductMod4(m, n);
    OddMod4(m);
    OddMod4(n);
    SignsMultiply(a % 4, m % 4, n % 4, (m * n) % 4);
  }

  lemma JacobiMulBelowOdd(a: nat, m: nat, n: nat)
    requires a % 2 == 1 && m % 2 == 1 && n % 2 == 1
    ensures 0 <= m * n && (m * n) % 2 == 1 && Jacobi(a, m * n) == Jacobi(a, m) * Jacobi(a, n)
  {
    hide Jacobi, SwapSign;
    MulMono(0, m, n);
    SwapSignMul(a, m, n);
    Reciprocity(a, m * n);
    Reciprocity(a, m);
    Reciprocity(a, n);
    JacobiMul(m, n, a);
    MulSwap(SwapSign(a, m), SwapSign(a, n), Jacobi(m, a), Jacobi(n, a));
  }

  /** Multiplicativity below. */
  lemma JacobiMulBelow(a: nat, m: nat, n: nat)
    requires m % 2 == 1 && n % 2 == 1
    ensures 0 <= m * n && (m * n) % 2 == 1 && Jacobi(a, m * n) == Jacobi(a, m) * Jacobi(a, n)
  {
    hide Jacobi;
    if a % 2 == 1 {
      JacobiMulBelowOdd(a, m, n);
    } else {
      MulMono(0, m, n);
      SwapSignMul(1, m, n);
      JacobiMulBelowOdd(a + m * n, m, n);
      ModAddMul(a, 1, m * n);
      ModAddMul(a, n, m);
      ModAddMul(a, m, n);
      assert n * m == m * n;
      JacobiMod(a + m * n, a, m * n);
      JacobiMod(a + m * n, a, m);
      JacobiMod(a + m * n, a, n);
    }
  }

  // ----- Euler's criterion

  lemma {:induction false} SignsAndResidues(a: int, m: nat, n: nat)
    requires n % 2 == 1
    ensures (Pow(a, m) * Factorial(m)) % n
         == (RangeProduct(SignOfMultiple(a, n), m) * Product(FoldedMultiples(a, m, n))) % n
    decreases m
  {
    hide NearSign, Fold;
    if m > 0 {
      SignsAndResidues(a, m - 1, n);
      var p, f := Pow(a, m - 1), Factorial(m - 1);
      var r, s := RangeProduct(SignOfMultiple(a, n), m - 1), FoldedMultiples(a, m - 1, n);
      FoldMeaning(a * m, n);
      CongMul(p * f, r * Product(s), a * m, NearSign(a * m, n) * Fold(a * m, n), n);
      MulSwap(p, f, a, m);
      MulSwap(r, Product(s), NearSign(a * m, n), Fold(a * m, n));
      ProductAppend(s, [Fold(a * m, n)]);
      ProductSingle(Fold(a * m, n));
      PowFactorial(a, m);
    }
  }

  lemma PowFactorial(a: int, m: nat)
    requires 1 <= m
    ensures Pow(a, m) == Pow(a, m - 1) * a && Factorial(m) == Factorial(m - 1) * m
  {
  }

  lemma EulerCoprime(a: nat, p: nat)
    requires IsPrime(p) && p % 2 == 1 && !Divides(p, a)
    ensures Pow(a, p / 2) % p == Jacobi(a, p) % p
  {
    hide IsPrime, Divides, Coprime, Factorial, Pow, RangeProduct, SignOfMultiple;
    var h := p / 2;
    PrimeCoprime(p, a);
    SignsAndResidues(a, h, p);
    FoldedPermutation(a, p);
    PermutationProduct(FoldedMultiples(a, h, p), h);
    FactorialCoprime(h, p);
    CoprimeSymmetric(Factorial(h), p);
    CancelFactor(Pow(a, h), Jacobi(a, p), Factorial(h), p);
  }

  lemma CancelFactor(x: int, y: int, f: nat, p: nat)
    requires 1 <= p && Coprime(p, f) && (x * f) % p == (y * f) % p
    ensures x % p == y % p
  {
    hide Coprime;
    assert x * f == f * x && y * f == f * y;
    CoprimeCancel(f, x, y, p);
  }

  /** At an odd prime the symbol is the residue of a^((p-1)/2) nearest to zero. */
  lemma EulerCriterion(a: nat, p: nat)
    requires IsPrime(p) && p % 2 == 1
    ensures Pow(a, p / 2) % p == Jacobi(a, p) % p
  {
    hide IsPrime, Pow;
    if Divides(p, a) {
      NotCoprimeMultiple(a, p);
      SmallMod(0, p);
      PowCong(a, 0, p / 2, p);
      OddPrimeAtLeastThree(p);
      PowOfZero(p);
    } else {
      EulerCoprime(a, p);
    }
  }

  lemma OddPrimeAtLeastThree(p: nat)
    requires IsPrime(p) && p % 2 == 1
    ensures 3 <= p
  {
  }

  lemma PowOfZero(p: nat)
    requires 2 <= p && p % 2 == 1
    ensures Pow(0, p / 2) == 0
  {
  }

  lemma NotCoprimeMultiple(a: nat, p: nat)
    requires IsPrime(p) && Divides(p, a)
    ensures !Coprime(a, p)
  {
    if Coprime(a, p) {
      CoprimeNotDivides(p, a, p);
      DividesFrom(p, 1, p);
    }
  }
}
