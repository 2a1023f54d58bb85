/** Binomial coefficients and the identities between neighbours. */
module Binomials {

  function Binomial(n: nat, k: nat): nat {
    if k == 0 then 1
    else if n == 0 then 0
    else Binomial(n - 1, k - 1) + Binomial(n - 1, k)
  }

  lemma {:induction false} BinomialZero(n: nat, k: nat)
    requires n < k
    ensures Binomial(n, k) == 0
    decreases n
  {
    if n > 0 {
      BinomialZero(n - 1, k - 1);
      BinomialZero(n - 1, k);
    }
  }

  lemma {:induction false} BinomialPositive(n: nat, k: nat)
    requires k <= n
    ensures 1 <= Binomial(n, k)
    decreases n
  {
    if k > 0 { BinomialPositive(n - 1, k - 1); }
  }

  /** k C(n, k) = (n - k + 1) C(n, k - 1). */
  lemma {:induction false} BinomialRatio(n: nat, k: nat)
    requires 1 <= k <= n + 1
    ensures k * Binomial(n, k) == (n - k + 1) * Binomial(n, k - 1)
    decreases n
  {
    if n == 0 {
      assert Binomial(0, 1) == 0;
    } else if k == n + 1 {
      BinomialZero(n, k);
    } else {
      BinomialRatio(n - 1, k);
      var b, c := Binomial(n - 1, k - 1), Binomial(n - 1, k);
      assert Binomial(n, k) == b + c;
      if k == 1 {
        assert Binomial(n - 1, 0) == 1 && Binomial(n, 0) == 1;
      } else {
        BinomialRatio(n - 1, k - 1);
        var a := Binomial(n - 1, k - 2);
        assert Binomial(n, k - 1) == a + b;
        RatioStep(n, k, a, b, c);
      }
    }
  }

  lemma RatioStep(n: int, k: int, a: int, b: int, c: int)
    requires k * c == (n - k) * b
    requires (k - 1) * b == (n - k + 1) * a
    ensures k * (b + c) == (n - k + 1) * (a + b)
  {
    assert (k - 1) * b == k * b - b;
    assert (n - k + 1) * b == (n - k) * b + b;
    assert k * (b + c) == k * b + k * c;
    assert (n - k + 1) * (a + b) == (n - k + 1) * a + (n - k + 1) * b;
  }

  /** k C(n, k) = n C(n - 1, k - 1). */
  lemma AbsorbSum(n: int, k: int, b: int, c: int)
    requires k * c == (n - k) * b
    ensures k * (b + c) == n * b
  {
    assert k * (b + c) == k * b + k * c;
  }

  lemma {:induction false} BinomialAbsorb(n: nat, k: nat)
    requires 1 <= n && 1 <= k
    ensures k * Binomial(n, k) == n * Binomial(n - 1, k - 1)
  {
    var b, c := Binomial(n - 1, k - 1), Binomial(n - 1, k);
    assert Binomial(n, k) == b + c;
    if k <= n {
      BinomialRatio(n - 1, k);
      AbsorbSum(n, k, b, c);
    } else {
      BinomialZero(n, k);
      BinomialZero(n - 1, k - 1);
      assert k * 0 == n * 0;
    }
  }

  lemma {:induction false} BinomialSymmetric(n: nat, k: nat)
    requires k <= n
    ensures Binomial(n, k) == Binomial(n, n - k)
    decreases n
  {
    if k == n {
      BinomialFull(n);
    } else if k > 0 {
      BinomialSymmetric(n - 1, k - 1);
      BinomialSymmetric(n - 1, k);
    } else {
      BinomialFull(n);
    }
  }

  lemma {:induction false} BinomialFull(n: nat)
    ensures Binomial(n, n) == 1
    decreases n
  {
    if n > 0 {
      BinomialFull(n - 1);
      BinomialZero(n - 1, n);
    }
  }

  /** Central coefficients: C(2m+2, m+1) = 2 C(2m+1, m). */
  lemma CentralDouble(m: nat)
    ensures Binomial(2 * m + 2, m + 1) == 2 * Binomial(2 * m + 1, m)
  {
    BinomialSymmetric(2 * m + 1, m);
  }

  /** (m + 1) C(2m+1, m) = (2m + 1) C(2m, m). */
  lemma CentralOdd(m: nat)
    ensures (m + 1) * Binomial(2 * m + 1, m) == (2 * m + 1) * Binomial(2 * m, m)
  {
    BinomialSymmetric(2 * m + 1, m);
    BinomialAbsorb(2 * m + 1, m + 1);
  }
}
