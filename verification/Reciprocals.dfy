/** The reciprocals that the table generators compute with shifts and clrbit
    (bootstrap.c, gen-bases.c, gen-trialdivtab.c): they are the ones that 2/1
    division needs exactly when the divisor is not a power of two. */
module Reciprocals {
  import opened Arith
  import opened Primes
  import LimbDivision

  /** mpz_sizeinbase (d, 2). */
  function BitLength(d: nat): (len: nat)
    requires 0 < d
    ensures 1 <= len && Pow(2, len - 1) <= d < Pow(2, len)
  {
    if d == 1 then PowZeroOne(); 1
    else
      var len := BitLength(d / 2);
      DoubleBounds(d, len);
      len + 1
  }

  lemma PowZeroOne()
    ensures Pow(2, 0) == 1 && Pow(2, 1) == 2
  {
  }

  lemma DoubleBounds(d: nat, len: nat)
    requires 1 <= len && Pow(2, len - 1) <= d / 2 < Pow(2, len)
    ensures Pow(2, len) <= d < Pow(2, len + 1)
  {
    assert Pow(2, len) == 2 * Pow(2, len - 1) && Pow(2, len + 1) == 2 * Pow(2, len);
  }

  /** mpz_clrbit. */
  function ClearBit(x: nat, k: nat): int {
    PowPositive(2, k);
    if x / Pow(2, k) % 2 == 1 then x - Pow(2, k) else x
  }

  /** floor((2^2n - 1) / dn) - 2^n, what division by a normalised dn < 2^n needs. */
  function ReciprocalBits(dn: nat, n: nat): int
    requires 0 < dn
  {
    (Pow(2, 2 * n) - 1) / dn - Pow(2, n)
  }

  /** The divisor shifted up until its top bit is bit n - 1. */
  function Normalised(d: nat, n: nat): (dn: nat)
    requires 0 < d && BitLength(d) <= n
    ensures 0 < dn
  {
    PowPositive(2, n - BitLength(d));
    MulPositive(d, Pow(2, n - BitLength(d)));
    d * Pow(2, n - BitLength(d))
  }

  /** mpz_preinv_invert, and the same formula in generate of gen-bases.c. */
  function PreinvInvert(d: nat, n: nat): int
    requires 0 < d && BitLength(d) <= n
  {
    var norm := n - BitLength(d);
    PowPositive(2, 2 * n - norm);
    ClearBit(Pow(2, 2 * n - norm) / d, n)
  }

  /** cps[0] of mpn_mod_1s_4p_cps. */
  function CpsInverse(b: nat, n: nat): int
    requires 0 < b && BitLength(b) <= n
  {
    (Pow(2, BitLength(b)) - b) * Pow(2, n) / b
  }

  predicate PowerOfTwo(d: nat)
    requires 0 < d
  {
    d == Pow(2, BitLength(d) - 1)
  }

  /** The only divisors of powers of two are powers of two. */
  lemma {:induction false} DivisorOfPower(d: nat, k: nat)
    requires 0 < d && Divides(d, Pow(2, k))
    ensures exists j: nat :: d == Pow(2, j)
    decreases k
  {
    PowPositive(2, k);
    var q := DividesQuotient(d, Pow(2, k));
    if d == 1 {
      assert Pow(2, 0) == 1;
    } else if d % 2 == 0 && k > 0 {
      var h := d / 2;
      assert 2 * Pow(2, k - 1) == q * (2 * h) == 2 * (q * h);
      DividesFrom(h, q, Pow(2, k - 1));
      DivisorOfPower(h, k - 1);
      var j: nat :| h == Pow(2, j);
      assert d == Pow(2, j + 1);
    } else if k > 0 {
      CoprimeFromBezout(d, 2, 1, -(d / 2));
      CoprimeDivides(d, 2, Pow(2, k - 1));
      DivisorOfPower(d, k - 1);
    }
  }

  lemma {:induction false} PowerOfTwoLength(j: nat)
    ensures 0 < Pow(2, j) && BitLength(Pow(2, j)) == j + 1
    decreases j
  {
    PowPositive(2, j);
    if j > 0 {
      PowerOfTwoLength(j - 1);
      assert Pow(2, j) / 2 == Pow(2, j - 1);
    }
  }

  lemma NotDividing(d: nat, k: nat)
    requires 0 < d && !PowerOfTwo(d)
    ensures !Divides(d, Pow(2, k))
  {
    if Divides(d, Pow(2, k)) {
      DivisorOfPower(d, k);
      var j: nat :| d == Pow(2, j);
      PowerOfTwoLength(j);
    }
  }

  /** One less in the numerator only matters when the division is exact. */
  lemma FloorOfPredecessor(x: nat, d: nat)
    requires 0 < d && 0 < x
    ensures (x - 1) / d == if Divides(d, x) then x / d - 1 else x / d
  {
    var q, r := x / d, x % d;
    assert x == q * d + r;
    if r == 0 {
      assert (q - 1) * d == q * d - d;
      DivModUnique(x - 1, d, q - 1, d - 1);
    } else {
      DivModUnique(x - 1, d, q, r - 1);
    }
  }

  /** Shifting numerator and divisor alike. */
  lemma ScaledDivision(x: nat, d: nat, s: nat, q: int, r: int)
    requires 0 < s && x == q * d + r && 0 <= r < d
    ensures 0 < d * s && 0 <= r * s < d * s && x * s == q * (d * s) + r * s
    ensures r * s == 0 <==> r == 0
  {
    MulPositive(d, s);
    MulAssoc(q, d, s);
    assert (q * d + r) * s == (q * d) * s + r * s;
    MulMono(0, r, s);
    MulMono(r + 1, d, s);
    assert (r + 1) * s == r * s + s;
    if r > 0 { MulPositive(r, s); }
  }

  lemma ShiftedQuotient(x: nat, d: nat, s: nat)
    requires 0 < d && 0 < s
    ensures 0 < d * s && (x * s) / (d * s) == x / d && (Divides(d * s, x * s) <==> Divides(d, x))
  {
    var q, r := x / d, x % d;
    ScaledDivision(x, d, s, q, r);
    DivModUnique(x * s, d * s, q, r * s);
  }

  lemma QuotientRange(d: nat, len: nat, n: nat)
    requires 0 < d && 1 <= len <= n && Pow(2, len - 1) <= d < Pow(2, len)
    ensures Pow(2, n) <= Pow(2, n + len) / d <= 2 * Pow(2, n)
    ensures Pow(2, n + len) / d == 2 * Pow(2, n) <==> d == Pow(2, len - 1)
  {
    PowAdd(2, n, len);
    PowPositive(2, n);
    assert Pow(2, len) == 2 * Pow(2, len - 1);
    QuotientByRange(Pow(2, n), Pow(2, len - 1), d);
  }

  lemma QuotientByRange(p: nat, l: nat, d: nat)
    requires 0 < p && 0 < l <= d < 2 * l
    ensures p <= p * (2 * l) / d <= 2 * p
    ensures p * (2 * l) / d == 2 * p <==> d == l
  {
    var x := p * (2 * l);
    assert x == (2 * p) * l;
    if d == l {
      DivModUnique(x, d, 2 * p, 0);
    } else {
      MulMono(d, 2 * l, p);
      MulMono(l + 1, d, 2 * p);
      QuotientBetween(x, d, p, 2 * p);
    }
  }

  lemma QuotientBetween(x: int, d: int, lo: int, hi: int)
    requires 0 < d && lo * d <= x < hi * d
    ensures lo <= x / d < hi
  {
    var q := x / d;
    assert x == q * d + x % d;
    if q < lo { MulMono(q + 1, lo, d); }
    if q >= hi { MulMono(hi, q, d); }
  }

  lemma ClearTopBit(x: nat, p: nat)
    requires 0 < p <= x <= 2 * p
    ensures (x / p) % 2 == 1 <==> x < 2 * p
  {
    if x < 2 * p { DivModUnique(x, p, 1, x - p); } else { DivModUnique(x, p, 2, 0); }
  }

  /** The generators' numerator over d is 2^2n over the normalised divisor. */
  lemma NormalisedQuotient(d: nat, n: nat)
    requires 0 < d && BitLength(d) <= n
    ensures 0 < Pow(2, 2 * n)
    ensures Pow(2, 2 * n) / Normalised(d, n) == Pow(2, n + BitLength(d)) / d
    ensures Divides(Normalised(d, n), Pow(2, 2 * n)) <==> PowerOfTwo(d)
  {
    hide Pow, Divides;
    var len := BitLength(d);
    var s := Pow(2, n - len);
    PowPositive(2, n - len);
    PowPositive(2, n + len);
    PowPositive(2, 2 * n);
    PowAdd(2, n + len, n - len);
    ShiftedQuotient(Pow(2, n + len), d, s);
    OnlyPowersDivide(d, n, len);
  }

  lemma OnlyPowersDivide(d: nat, n: nat, len: nat)
    requires 0 < d && len == BitLength(d)
    ensures 0 < Pow(2, n + len) && (Divides(d, Pow(2, n + len)) <==> PowerOfTwo(d))
  {
    hide Pow, Divides, BitLength;
    PowPositive(2, n + len);
    if PowerOfTwo(d) {
      PowAdd(2, len - 1, n + 1);
      PowPositive(2, n + 1);
      assert Pow(2, n + len) == Pow(2, n + 1) * d;
      DividesFrom(d, Pow(2, n + 1), Pow(2, n + len));
    } else {
      NotDividing(d, n + len);
    }
  }

  /** Both generator formulas meet the requirement if and only if the divisor is not
      a power of two; there they give 2^(n+1) and 2^n instead of 2^n - 1. */
  lemma PreinvIsReciprocal(d: nat, n: nat)
    requires 0 < d && BitLength(d) <= n
    ensures PreinvInvert(d, n) == ReciprocalBits(Normalised(d, n), n) <==> !PowerOfTwo(d)
    ensures CpsInverse(d, n) == ReciprocalBits(Normalised(d, n), n) <==> !PowerOfTwo(d)
    ensures PowerOfTwo(d) ==>
      PreinvInvert(d, n) == 2 * Pow(2, n) && CpsInverse(d, n) == Pow(2, n)
      && ReciprocalBits(Normalised(d, n), n) == Pow(2, n) - 1
  {
    hide Pow, BitLength, Normalised;
    var len, dn := BitLength(d), Normalised(d, n);
    var x := Pow(2, n + len) / d;
    PowPositive(2, n);
    NormalisedQuotient(d, n);
    QuotientRange(d, len, n);
    ClearTopBit(x, Pow(2, n));
    FloorOfPredecessor(Pow(2, 2 * n), dn);
    assert 2 * n - (n - len) == n + len;
    PowAdd(2, n, len);
    CpsQuotient(Pow(2, len), Pow(2, n), d);
  }

  lemma CpsQuotient(l: int, p: int, d: int)
    requires 0 < d
    ensures (l - d) * p / d == p * l / d - p
  {
    assert (l - d) * p == p * l + (-p) * d;
    ModAddMul(p * l, -p, d);
  }

  lemma NormalisedRange(d: nat, n: nat)
    requires 0 < d && BitLength(d) <= n && 1 <= n
    ensures Pow(2, n - 1) <= Normalised(d, n) < Pow(2, n)
  {
    hide Pow, BitLength;
    var len := BitLength(d);
    var s := Pow(2, n - len);
    PowPositive(2, n - len);
    PowAdd(2, len - 1, n - len);
    PowAdd(2, len, n - len);
    RangeTimes(Pow(2, len - 1), d, Pow(2, len), s);
  }

  lemma RangeTimes(a: int, d: int, b: int, s: int)
    requires a <= d < b && 0 < s
    ensures a * s <= d * s < b * s
  {
    MulMono(a, d, s);
    MulMono(d + 1, b, s);
    assert (d + 1) * s == d * s + s;
  }

  /** At 64 bits: what the generators emit may be used by the division macros for
      the normalised divisor, if and only if it is not a power of two. */
  lemma PreinvServesDivision(d: nat)
    requires 0 < d && BitLength(d) <= 64
    ensures LimbDivision.B / 2 <= Normalised(d, 64) < LimbDivision.B
    ensures LimbDivision.IsReciprocal(PreinvInvert(d, 64), Normalised(d, 64)) <==> !PowerOfTwo(d)
    ensures LimbDivision.IsReciprocal(CpsInverse(d, 64), Normalised(d, 64)) <==> !PowerOfTwo(d)
  {
    hide BitLength, PreinvInvert, CpsInverse, Normalised, LimbDivision.IsReciprocal;
    LimbDivision.Pow64();
    NormalisedRange(d, 64);
    assert Pow(2, 64) == 2 * Pow(2, 63);
    PreinvIsReciprocal(d, 64);
    LimbDivision.ReciprocalIs(PreinvInvert(d, 64), Normalised(d, 64));
    LimbDivision.ReciprocalIs(CpsInverse(d, 64), Normalised(d, 64));
  }
}
