/** Elementary facts about integer division, remainders and powers that every
    other module builds on.  Products of variables are kept in small lemmas so
    that no larger proof has to reason about them. */
module Arith {

  lemma DivModUnique(x: int, d: int, q: int, r: int)
    requires 0 <= r < d
    requires x == q * d + r
    ensures x / d == q && x % d == r
  {
    var k := x / d - q;
    assert k * d == (x / d) * d - q * d;
    assert k * d == r - x % d;
    if k >= 1 {
      MulMono(1, k, d);
    } else if k <= -1 {
      MulMono(k, -1, d);
    }
  }

  lemma MulMono(a: int, b: int, c: int)
    requires a <= b && 0 <= c
    ensures a * c <= b * c
  {
    assert b * c - a * c == (b - a) * c;
  }

  lemma MulPositive(a: int, b: int)
    requires 0 < a && 0 < b
    ensures 0 < a * b && a <= a * b && b <= a * b
  {
    MulMono(1, a, b);
    MulMono(1, b, a);
  }

  lemma MulSwap(a: int, b: int, x: int, y: int)
    ensures (a * b) * (x * y) == (a * x) * (b * y)
  {
    calc {
      (a * b) * (x * y);
      a * (b * (x * y));
      { assert b * (x * y) == x * (b * y); }
      a * (x * (b * y));
      (a * x) * (b * y);
    }
  }

  lemma MulAssoc(a: int, b: int, c: int)
    ensures (a * b) * c == a * (b * c)
  {
  }

  lemma MulRotate(a: int, b: int, c: int)
    ensures a * (b * c) == b * (a * c)
  {
    assert a * (b * c) == (a * b) * c;
  }

  lemma MulCancel(a: int, b: int, c: int)
    requires c != 0 && a * c == b * c
    ensures a == b
  {
    assert (a - b) * c == 0;
  }

  /** Adding a multiple of the modulus does not change the remainder. */
  lemma ModAddMul(a: int, k: int, m: int)
    requires 0 < m
    ensures (a + k * m) % m == a % m
    ensures (a + k * m) / m == a / m + k
  {
    assert a + k * m == (a / m + k) * m + a % m by {
      assert a == (a / m) * m + a % m;
      assert (a / m + k) * m == (a / m) * m + k * m;
    }
    DivModUnique(a + k * m, m, a / m + k, a % m);
  }

  /** Congruent numbers differ by a multiple of the modulus. */
  lemma CongWitness(a: int, b: int, m: int) returns (k: int)
    requires 0 < m && a % m == b % m
    ensures a == b + k * m
  {
    k := a / m - b / m;
    assert a == (a / m) * m + a % m;
    assert b == (b / m) * m + b % m;
    assert k * m == (a / m) * m - (b / m) * m;
  }

  lemma ModEqual(a: int, b: int, k: int, m: int)
    requires 0 < m && a == b + k * m
    ensures a % m == b % m
  {
    ModAddMul(b, k, m);
  }

  lemma MulSpread(k: int, l: int, m: int)
    ensures (k + l) * m == k * m + l * m && (k - l) * m == k * m - l * m
  {
  }

  lemma CongAdd(a: int, a': int, b: int, b': int, m: int)
    requires 0 < m && a % m == a' % m && b % m == b' % m
    ensures (a + b) % m == (a' + b') % m
    ensures (a - b) % m == (a' - b') % m
  {
    var k := CongWitness(a, a', m);
    var l := CongWitness(b, b', m);
    MulSpread(k, l, m);
    ModEqual(a + b, a' + b', k + l, m);
    ModEqual(a - b, a' - b', k - l, m);
  }

  lemma CongMul(a: int, a': int, b: int, b': int, m: int)
    requires 0 < m && a % m == a' % m && b % m == b' % m
    ensures (a * b) % m == (a' * b') % m
  {
    var k := CongWitness(a, a', m);
    var l := CongWitness(b, b', m);
    var j := a' * l + k * b' + k * l * m;
    MulExpand(a', k, b', l, m);
    ModEqual(a * b, a' * b', j, m);
  }

  lemma MulExpand(a: int, k: int, b: int, l: int, m: int)
    ensures (a + k * m) * (b + l * m) == a * b + (a * l + k * b + k * l * m) * m
  {
    calc {
      (a + k * m) * (b + l * m);
      a * (b + l * m) + (k * m) * (b + l * m);
      a * b + a * (l * m) + (k * m) * b + (k * m) * (l * m);
      { assert a * (l * m) == (a * l) * m; assert (k * m) * b == (k * b) * m;
        assert (k * m) * (l * m) == (k * l * m) * m; }
      a * b + (a * l) * m + (k * b) * m + (k * l * m) * m;
      a * b + (a * l + k * b + k * l * m) * m;
    }
  }

  lemma ModMod(a: int, m: int)
    requires 0 < m
    ensures (a % m) % m == a % m && 0 <= a % m < m
  {
    DivModUnique(a % m, m, 0, a % m);
  }

  lemma SmallMod(a: int, m: int)
    requires 0 <= a < m
    ensures a % m == a && a / m == 0
  {
    DivModUnique(a, m, 0, a);
  }

  /** A remainder modulo a multiple of m determines the remainder modulo m. */
  lemma ModOfMultiple(a: int, m: int, k: int)
    requires 0 < m && 0 < k
    ensures 0 < m * k && (a % (m * k)) % m == a % m
  {
    MulPositive(m, k);
    var q := a / (m * k);
    assert a == q * (m * k) + a % (m * k);
    assert q * (m * k) == (q * k) * m;
    ModAddMul(a % (m * k), q * k, m);
  }

  // ----- powers

  function Pow(b: int, e: nat): int
    decreases e
  {
    if e == 0 then 1 else b * Pow(b, e - 1)
  }

  lemma PowZero(b: int)
    ensures Pow(b, 0) == 1
  {
  }

  lemma PowStep(b: int, e: nat)
    requires 1 <= e
    ensures Pow(b, e) == b * Pow(b, e - 1)
  {
  }

  lemma {:induction false} PowAdd(b: int, e: nat, f: nat)
    ensures Pow(b, e + f) == Pow(b, e) * Pow(b, f)
    decreases e
  {
    if e > 0 {
      PowAdd(b, e - 1, f);
      assert b * (Pow(b, e - 1) * Pow(b, f)) == (b * Pow(b, e - 1)) * Pow(b, f);
    }
  }

  lemma {:induction false} PowMulBase(a: int, b: int, e: nat)
    ensures Pow(a * b, e) == Pow(a, e) * Pow(b, e)
    decreases e
  {
    if e > 0 {
      PowMulBase(a, b, e - 1);
      var x, y := Pow(a, e - 1), Pow(b, e - 1);
      MulSwap(a, b, x, y);
    }
  }

  lemma {:induction false} PowPow(b: int, e: nat, f: nat)
    ensures 0 <= e * f
    ensures Pow(Pow(b, e), f) == Pow(b, e * f)
    decreases f
  {
    if f > 0 {
      PowPow(b, e, f - 1);
      assert e * f == e + e * (f - 1);
      PowAdd(b, e, e * (f - 1));
    }
  }

  lemma {:induction false} PowCong(a: int, b: int, e: nat, m: int)
    requires 0 < m && a % m == b % m
    ensures Pow(a, e) % m == Pow(b, e) % m
    decreases e
  {
    if e > 0 {
      PowCong(a, b, e - 1, m);
      CongMul(a, b, Pow(a, e - 1), Pow(b, e - 1), m);
    }
  }

  lemma {:induction false} PowOne(e: nat)
    ensures Pow(1, e) == 1
    decreases e
  {
    if e > 0 { PowOne(e - 1); }
  }

  lemma {:induction false} PowPositive(b: int, e: nat)
    requires 0 < b
    ensures 0 < Pow(b, e)
    decreases e
  {
    if e > 0 {
      PowPositive(b, e - 1);
      MulPositive(b, Pow(b, e - 1));
    }
  }

  lemma {:induction false} PowNonNegative(b: int, e: nat)
    requires 0 <= b
    ensures 0 <= Pow(b, e)
    decreases e
  {
    if e > 0 {
      PowNonNegative(b, e - 1);
      MulMono(0, b, Pow(b, e - 1));
    }
  }

  lemma {:induction false} PowMono(b: int, e: nat, f: nat)
    requires 1 <= b && e <= f
    ensures 0 < Pow(b, e) <= Pow(b, f)
  {
    PowPositive(b, e);
    PowPositive(b, f - e);
    PowAdd(b, e, f - e);
    MulPositive(Pow(b, e), Pow(b, f - e));
  }

  lemma {:induction false} PowStrict(a: nat, b: nat, e: nat)
    requires a < b && 1 <= e
    ensures 0 <= Pow(a, e) < Pow(b, e)
    decreases e
  {
    if e == 1 {
      assert Pow(a, 1) == a * Pow(a, 0) && Pow(b, 1) == b * Pow(b, 0);
    } else {
      PowStrict(a, b, e - 1);
      var x, y := Pow(a, e - 1), Pow(b, e - 1);
      MulMono(a, b - 1, x);
      MulMono(x, y, b);
      MulMono(0, a, x);
      assert (b - 1) * x == b * x - x;
      if a * x == b * y {
        assert x == 0 && b * y == 0;
        MulPositive(b, y);
      }
    }
  }

  lemma {:induction false} PowMonoBase(a: nat, b: nat, e: nat)
    requires a <= b
    ensures 0 <= Pow(a, e) <= Pow(b, e)
    decreases e
  {
    if e > 0 {
      PowMonoBase(a, b, e - 1);
      MulMono(a, b, Pow(a, e - 1));
      MulMono(Pow(a, e - 1), Pow(b, e - 1), b);
      MulMono(0, a, Pow(a, e - 1));
    }
  }

  // ----- integer square roots

  function Root(n: nat): (s: nat)
    ensures s * s <= n < (s + 1) * (s + 1)
  {
    if n == 0 then 0
    else
      var s := Root(n - 1);
      if (s + 1) * (s + 1) <= n then (RootStep(s); s + 1) else s
  }

  lemma RootStep(s: nat)
    ensures (s + 1) * (s + 1) + 1 < (s + 2) * (s + 2)
  {
  }

  lemma RootAtLeast(n: nat, s: nat, k: nat)
    requires n < (s + 1) * (s + 1) && k * k <= n
    ensures k <= s
  {
    if k > s { MulMono(s + 1, k, s + 1); MulMono(s + 1, k, k); }
  }
}
