/** The strong probable-prime test of factorize.c and its two halves of
    soundness. */
module MillerRabin {
  import opened Arith
  import opened Primes
  import opened Fermat

  /** Number of trailing zero bits of a positive number. */
  function Scan1(t: nat): (s: nat)
    requires 0 < t
    ensures 0 < Pow(2, s) && Divides(Pow(2, s), t) && (t / Pow(2, s)) % 2 == 1
    decreases t
  {
    if t % 2 == 1 then
      0
    else
      var s := Scan1(t / 2);
      Scan1Step(t, s);
      s + 1
  }

  lemma Scan1Step(t: nat, s: nat)
    requires 0 < t && t % 2 == 0
    requires 0 < Pow(2, s) && Divides(Pow(2, s), t / 2)
    ensures 0 < Pow(2, s + 1) && Divides(Pow(2, s + 1), t) && t / Pow(2, s + 1) == (t / 2) / Pow(2, s)
  {
    var q := DividesQuotient(Pow(2, s), t / 2);
    assert t == q * Pow(2, s + 1) by { assert 2 * (q * Pow(2, s)) == q * (2 * Pow(2, s)); }
    DivModUnique(t, Pow(2, s + 1), q, 0);
  }

  /** There is one way to split a number into a power of two and an odd part. */
  lemma {:induction false} SplitUnique(t: nat, s: nat, q: nat)
    requires 0 < t && t == Pow(2, s) * q && q % 2 == 1
    ensures s == Scan1(t) && 0 < Pow(2, s) && q == t / Pow(2, s)
    decreases s
  {
    PowPositive(2, s);
    DivModUnique(t, Pow(2, s), q, 0);
    if s > 0 {
      MulAssoc(2, Pow(2, s - 1), q);
      SplitUnique(t / 2, s - 1, q);
    }
  }

  /** n passes to base x, where n - 1 = q * 2^k: x^q is 1, or one of the k
      repeated squares of x^q is -1. */
  ghost predicate Passes(n: nat, x: nat, q: nat, k: nat)
    requires 0 < n
  {
    Pow(x, q) % n == 1 || exists i: nat :: i < k && Square(n, x, q, i) == n - 1
  }

  /** The i-th repeated square of x^q modulo n. */
  function Square(n: nat, x: nat, q: nat, i: nat): (y: nat)
    requires 0 < n
    ensures y < n
  {
    if i == 0 then (ModMod(Pow(x, q), n); Pow(x, q) % n)
    else
      var y := Square(n, x, q, i - 1);
      MulMono(0, y, y);
      ModMod(y * y, n);
      (y * y) % n
  }

  lemma {:induction false} SquareIsPower(n: nat, x: nat, q: nat, i: nat)
    requires 0 < n
    ensures 0 <= Pow(2, i) * q
    ensures Square(n, x, q, i) == Pow(x, Pow(2, i) * q) % n
    decreases i
  {
    if i > 0 {
      SquareIsPower(n, x, q, i - 1);
      var e := Pow(2, i - 1) * q;
      assert Pow(2, i) * q == e + e by { assert (2 * Pow(2, i - 1)) * q == 2 * (Pow(2, i - 1) * q); }
      PowAdd(x, e, e);
      var y := Pow(x, e);
      ModMod(y, n);
      CongMul(y % n, y, y % n, y, n);
    }
  }

  /** What passing says in powers of x. */
  lemma PassesInPowers(n: nat, x: nat, q: nat, k: nat)
    requires 0 < n
    ensures Passes(n, x, q, k) <==>
      (Pow(x, q) % n == 1
       || exists i: nat :: i < k && 0 <= Pow(2, i) * q && Pow(x, Pow(2, i) * q) % n == n - 1)
  {
    hide Square, Pow;
    if i: nat :| i < k && Square(n, x, q, i) == n - 1 {
      SquareIsPower(n, x, q, i);
    }
    if i: nat :| i < k && 0 <= Pow(2, i) * q && Pow(x, Pow(2, i) * q) % n == n - 1 {
      SquareIsPower(n, x, q, i);
    }
  }

  /** A square root of 1 other than 1 and -1 among the powers makes the test fail. */
  lemma FalseRootFails(n: nat, x: nat, q: nat, k: nat, i: nat)
    requires 3 <= n && i < k && 0 <= Pow(2, i) * q && 0 <= Pow(2, i + 1) * q
    requires Pow(x, Pow(2, i + 1) * q) % n == 1
    requires Pow(x, Pow(2, i) * q) % n != 1 && Pow(x, Pow(2, i) * q) % n != n - 1
    ensures !Passes(n, x, q, k)
  {
    SquareIsPower(n, x, q, i);
    SquareIsPower(n, x, q, i + 1);
    if Pow(x, q) % n == 1 {
      StaysOne(n, x, q, 0, i);
    }
    forall j: nat | j < k
      ensures Square(n, x, q, j) != n - 1
    {
      if j > i {
        StaysOne(n, x, q, i + 1, j);
      } else if j < i && Square(n, x, q, j) == n - 1 {
        MinusOneSquared(n, x, q, j);
        StaysOne(n, x, q, j + 1, i);
      }
    }
  }

  lemma MinusOneSquared(n: nat, x: nat, q: nat, i: nat)
    requires 3 <= n && Square(n, x, q, i) == n - 1
    ensures Square(n, x, q, i + 1) == 1
  {
    SmallMod(1, n);
    assert (n - 1) * (n - 1) == 1 + (n - 2) * n;
    ModAddMul(1, n - 2, n);
  }

  /** The strong test: passed exactly if x^q is 1 or some x^(2^i q), i below k, is -1;
      so a square root of 1 other than 1 and -1 among these powers is an answer no. */
  method MpMillerrabin(n: nat, nm1: nat, x: nat, q: nat, k: nat) returns (passed: bool)
    requires 3 <= n && nm1 == n - 1 && 1 <= k
    ensures passed <==> Passes(n, x, q, k)
    ensures passed <==>
      (Pow(x, q) % n == 1
       || exists i: nat :: i < k && 0 <= Pow(2, i) * q && Pow(x, Pow(2, i) * q) % n == n - 1)
  {
    PassesInPowers(n, x, q, k);
    var y := Pow(x, q) % n;
    if y == 1 || y == nm1 {
      assert y == nm1 ==> Square(n, x, q, 0) == n - 1;
      return true;
    }
    var i := 1;
    while i < k
      invariant 1 <= i <= k
      invariant Pow(x, q) % n != 1
      invariant y == Square(n, x, q, i - 1)
      invariant forall j: nat :: j < i ==> Square(n, x, q, j) != n - 1
    {
      SquareAsPower(y);
      y := Pow(y, 2) % n;
      if y == nm1 {
        assert Square(n, x, q, i) == n - 1;
        return true;
      }
      if y == 1 {
        forall j: nat | j < k ensures Square(n, x, q, j) != n - 1 {
          if j >= i { StaysOne(n, x, q, i, j); }
        }
        return false;
      }
      i := i + 1;
    }
    return false;
  }

  lemma SquareAsPower(y: int)
    ensures Pow(y, 2) == y * y
  {
    assert Pow(y, 1) == y * Pow(y, 0);
  }

  lemma {:induction false} StaysOne(n: nat, x: nat, q: nat, i: nat, j: nat)
    requires 3 <= n && i <= j && Square(n, x, q, i) == 1
    ensures Square(n, x, q, j) == 1
    decreases j
  {
    if i < j {
      StaysOne(n, x, q, i, j - 1);
      SmallMod(1, n);
    }
  }

  /** Passing implies Fermat's congruence. */
  lemma PassesImpliesFermat(n: nat, x: nat, q: nat, k: nat)
    requires 3 <= n && n - 1 == Pow(2, k) * q && Passes(n, x, q, k)
    ensures Pow(x, n - 1) % n == 1
  {
    SmallMod(1, n);
    if Pow(x, q) % n == 1 {
      StaysOne(n, x, q, 0, k);
    } else {
      var i: nat :| i < k && Square(n, x, q, i) == n - 1;
      MinusOneSquared(n, x, q, i);
      StaysOne(n, x, q, i + 1, k);
    }
    SquareIsPower(n, x, q, k);
  }

  /** A prime passes to every base that it does not divide. */
  lemma PrimePasses(n: nat, x: nat, q: nat, k: nat)
    requires 3 <= n && n - 1 == Pow(2, k) * q && IsPrime(n) && !Divides(n, x)
    ensures Passes(n, x, q, k)
  {
    LittleFermat(x, n);
    SquareIsPower(n, x, q, k);
    if !Passes(n, x, q, k) {
      NoMinusOneBack(n, x, q, k, k);
    }
  }

  lemma {:induction false} NoMinusOneBack(n: nat, x: nat, q: nat, k: nat, i: nat)
    requires 3 <= n && IsPrime(n) && i <= k && Square(n, x, q, i) == 1
    requires forall j: nat :: j < k ==> Square(n, x, q, j) != n - 1
    ensures Pow(x, q) % n == 1
    decreases i
  {
    if i > 0 {
      SquareRootsOfOne(Square(n, x, q, i - 1), n);
      NoMinusOneBack(n, x, q, k, i - 1);
    }
  }
}
