/** Operator bodies of gmpxx.h that write more than once: a rational with an integer
    added or subtracted, and a built-in number divided by an integer object.  The
    target may be an operand, and an integer operand may even be the numerator or the
    denominator of a rational involved. */
module GmpxxOps {
  import opened Arith
  import opened Primes

  const ULONG: int := 0x1_0000_0000_0000_0000
  const LONG_MIN: int := -0x8000_0000_0000_0000

  type Ulong = x: int | 0 <= x < ULONG witness 0
  type Slong = x: int | LONG_MIN <= x < -LONG_MIN

  class Mpz {
    var value: int

    constructor (v: int)
      ensures value == v
    {
      value := v;
    }
  }

  /** A rational owns its numerator and its denominator. */
  class Mpq {
    const num: Mpz
    const den: Mpz

    constructor (n: int, d: int)
      ensures fresh(num) && fresh(den) && num != den && num.value == n && den.value == d
    {
      num := new Mpz(n);
      den := new Mpz(d);
    }
  }

  /** Two references to the same rational, or rationals that share nothing. */
  predicate Separate(q: Mpq, r: Mpq) {
    && q.num != q.den && r.num != r.den
    && (q == r || (q.num != r.num && q.num != r.den && q.den != r.num && q.den != r.den))
  }

  /** In lowest terms with a positive denominator. */
  ghost predicate Canonical(n: int, d: int) {
    0 < d && forall e: nat :: 1 <= e && Divides(e, n) && Divides(e, d) ==> e == 1
  }

  /** n + l d over d is the sum of n over d and l, and in lowest terms when n over d is. */
  lemma SumOfRational(n: int, d: int, l: int)
    requires 0 < d
    ensures (n + l * d) as real / d as real == n as real / d as real + l as real
    ensures Canonical(n, d) <==> Canonical(n + l * d, d)
  {
    RealSum(n, d, l);
    if Canonical(n, d) { CanonicalShift(n, d, l); }
    if Canonical(n + l * d, d) {
      CanonicalShift(n + l * d, d, -l);
      assert n + l * d + (-l) * d == n;
    }
  }

  lemma RealSum(n: int, d: int, l: int)
    requires 0 < d
    ensures (n + l * d) as real / d as real == n as real / d as real + l as real
  {
    var x, y, z := n as real, d as real, l as real;
    assert (n + l * d) as real == x + z * y;
    assert (x + z * y) / y == x / y + z;
  }

  lemma CanonicalShift(n: int, d: int, l: int)
    requires Canonical(n, d)
    ensures Canonical(n + l * d, d)
  {
    forall e: nat | 1 <= e && Divides(e, n + l * d) && Divides(e, d)
      ensures e == 1
    {
      DividesProduct(e, d, l);
      assert d * l == l * d;
      DividesSum(e, l * d, n);
      assert l * d + n == n + l * d;
    }
  }

  // ----- rational and unsigned long

  /** __gmp_binary_plus for a rational and an unsigned long; constant tells whether the
      compiler knows the number. */
  method PlusUi(q: Mpq, r: Mpq, l: Ulong, constant: bool)
    requires Separate(q, r)
    modifies q.num, q.den
    ensures q.num.value == old(r.num.value + l * r.den.value) && q.den.value == old(r.den.value)
  {
    if constant && l == 0 {
      if q != r {
        q.num.value := r.num.value;
        q.den.value := r.den.value;
      }
    } else if constant && l == 1 {
      q.num.value := r.num.value + r.den.value;
      if q != r { q.den.value := r.den.value; }
    } else if q == r {
      q.num.value := q.num.value + q.den.value * l;
    } else {
      q.num.value := r.den.value * l;
      q.num.value := q.num.value + r.num.value;
      q.den.value := r.den.value;
    }
  }

  method MinusUi(q: Mpq, r: Mpq, l: Ulong, constant: bool)
    requires Separate(q, r)
    modifies q.num, q.den
    ensures q.num.value == old(r.num.value - l * r.den.value) && q.den.value == old(r.den.value)
  {
    if constant && l == 0 {
      if q != r {
        q.num.value := r.num.value;
        q.den.value := r.den.value;
      }
    } else if constant && l == 1 {
      q.num.value := r.num.value - r.den.value;
      if q != r { q.den.value := r.den.value; }
    } else if q == r {
      q.num.value := q.num.value - q.den.value * l;
    } else {
      q.num.value := r.den.value * l;
      q.num.value := r.num.value - q.num.value;
      q.den.value := r.den.value;
    }
  }

  /** The negation of an unsigned long, taken modulo 2^64. */
  function NegatedUlong(l: int): (u: Ulong)
    requires LONG_MIN <= l < 0
    ensures u == -l
  {
    SmallMod(-l, ULONG);
    ModAddMul(-l, -1, ULONG);
    (-(l % ULONG)) % ULONG
  }

  method PlusSi(q: Mpq, r: Mpq, l: Slong, constant: bool)
    requires Separate(q, r)
    modifies q.num, q.den
    ensures q.num.value == old(r.num.value + l * r.den.value) && q.den.value == old(r.den.value)
  {
    if l >= 0 {
      PlusUi(q, r, l, constant);
    } else {
      MinusUi(q, r, NegatedUlong(l), constant);
    }
  }

  method MinusSi(q: Mpq, r: Mpq, l: Slong, constant: bool)
    requires Separate(q, r)
    modifies q.num, q.den
    ensures q.num.value == old(r.num.value - l * r.den.value) && q.den.value == old(r.den.value)
  {
    if l >= 0 {
      MinusUi(q, r, l, constant);
    } else {
      PlusUi(q, r, NegatedUlong(l), constant);
    }
  }

  /** The built-in number comes first: subtract and negate. */
  method SiMinus(q: Mpq, l: Slong, r: Mpq, constant: bool)
    requires Separate(q, r)
    modifies q.num, q.den
    ensures q.num.value == old(l * r.den.value - r.num.value) && q.den.value == old(r.den.value)
  {
    MinusSi(q, r, l, constant);
    q.num.value := -q.num.value;
  }

  // ----- rational and integer object

  /** z may be any integer object, also a part of q or r. */
  method PlusZ(q: Mpq, r: Mpq, z: Mpz)
    requires Separate(q, r)
    modifies q.num, q.den
    ensures q.num.value == old(r.num.value + z.value * r.den.value) && q.den.value == old(r.den.value)
  {
    if q == r {
      q.num.value := q.num.value + q.den.value * z.value;
    } else {
      q.num.value := r.den.value * z.value;
      q.num.value := q.num.value + r.num.value;
      q.den.value := r.den.value;
    }
  }

  method MinusZ(q: Mpq, r: Mpq, z: Mpz)
    requires Separate(q, r)
    modifies q.num, q.den
    ensures q.num.value == old(r.num.value - z.value * r.den.value) && q.den.value == old(r.den.value)
  {
    if q == r {
      q.num.value := q.num.value - q.den.value * z.value;
    } else {
      q.num.value := r.den.value * z.value;
      q.num.value := r.num.value - q.num.value;
      q.den.value := r.den.value;
    }
  }

  method ZMinus(q: Mpq, z: Mpz, r: Mpq)
    requires Separate(q, r)
    modifies q.num, q.den
    ensures q.num.value == old(z.value * r.den.value - r.num.value) && q.den.value == old(r.den.value)
  {
    MinusZ(q, r, z);
    q.num.value := -q.num.value;
  }

  // ----- built-in number divided by integer object

  function Abs(x: int): nat {
    if x < 0 then -x else x
  }

  /** Quotient and remainder rounded towards zero, as C and mpz_tdiv have them. */
  function Quotient(a: int, b: int): int
    requires b != 0
  {
    var q := Abs(a) / Abs(b);
    if (a < 0) == (b < 0) then q else -q
  }

  function Remainder(a: int, b: int): int
    requires b != 0
  {
    a - b * Quotient(a, b)
  }

  /** The remainder is smaller than the divisor and has the sign of the dividend, which
      determines both. */
  lemma TruncatedDivision(a: int, b: int, q: int, r: int)
    requires b != 0
    ensures q == Quotient(a, b) && r == Remainder(a, b) <==>
      a == b * q + r && Abs(r) < Abs(b) && (r == 0 || (r < 0) == (a < 0))
  {
    hide Quotient;
    TruncatedRemainder(a, b);
    if a == b * q + r && Abs(r) < Abs(b) && (r == 0 || (r < 0) == (a < 0)) {
      TruncatedUnique(a, b, q, r);
    }
  }

  lemma TruncatedRemainder(a: int, b: int)
    requires b != 0
    ensures Abs(Remainder(a, b)) < Abs(b)
    ensures Remainder(a, b) == 0 || (Remainder(a, b) < 0) == (a < 0)
  {
    hide Quotient;
    var k := DivisionOf(Abs(a), Abs(b));
    QuotientProduct(a, b, k);
  }

  lemma DivisionOf(x: nat, y: nat) returns (k: int)
    requires 0 < y
    ensures k == x / y && k * y <= x < k * y + y
  {
    k := x / y;
    assert x == k * y + x % y;
  }

  lemma TruncatedUnique(a: int, b: int, q: int, r: int)
    requires b != 0 && a == b * q + r && Abs(r) < Abs(b) && (r == 0 || (r < 0) == (a < 0))
    ensures q == Quotient(a, b)
  {
    var p := if (a < 0) == (b < 0) then q else -q;
    SignedProduct(b, q, p, a);
    var y, t := Abs(b), Abs(r);
    AbsoluteDivision(a, p * y, r);
    DivModUnique(Abs(a), y, p, t);
  }

  lemma AbsoluteDivision(a: int, w: int, r: int)
    requires a == (if a < 0 then -w else w) + r && (r == 0 || (r < 0) == (a < 0))
    ensures Abs(a) == w + Abs(r)
  {
  }

  lemma QuotientProduct(a: int, b: int, k: int)
    requires b != 0 && k == Abs(a) / Abs(b)
    ensures b * Quotient(a, b) == if a < 0 then -(k * Abs(b)) else k * Abs(b)
  {
  }

  lemma SignedProduct(b: int, q: int, p: int, a: int)
    requires p == if (a < 0) == (b < 0) then q else -q
    ensures b * q == if a < 0 then -(p * Abs(b)) else p * Abs(b)
  {
  }

  /** A divisor larger than the dividend. */
  lemma SmallDividend(a: int, b: int)
    requires Abs(a) < Abs(b)
    ensures Quotient(a, b) == 0 && Remainder(a, b) == a
  {
    SmallMod(Abs(a), Abs(b));
  }

  lemma EqualSize(a: int, b: int)
    requires Abs(a) == Abs(b) && b != 0
    ensures Quotient(a, b) == (if a == b then 1 else -1) && Remainder(a, b) == 0
  {
    DivModUnique(Abs(a), Abs(b), 1, 0);
  }

  /** __gmp_binary_divides for an unsigned long and an integer object. */
  method DivUiByZ(z: Mpz, l: Ulong, w: Mpz)
    requires w.value != 0
    modifies z
    ensures z.value == Quotient(l, old(w.value))
  {
    if w.value >= 0 {
      if w.value < ULONG {
        z.value := l / w.value;
      } else {
        SmallDividend(l, w.value);
        z.value := 0;
      }
    } else {
      ghost var b := w.value;
      z.value := -w.value;
      if z.value < ULONG {
        z.value := l / z.value;
        z.value := -z.value;
      } else {
        SmallDividend(l, b);
        z.value := 0;
      }
    }
  }

  method ModUiByZ(z: Mpz, l: Ulong, w: Mpz)
    requires w.value != 0
    modifies z
    ensures z.value == Remainder(l, old(w.value))
  {
    ghost var b := w.value;
    QuotientProduct(l, b, l / Abs(b));
    assert l == (l / Abs(b)) * Abs(b) + l % Abs(b);
    if w.value >= 0 {
      if w.value < ULONG {
        z.value := l % w.value;
      } else {
        SmallDividend(l, b);
        z.value := l;
      }
    } else {
      z.value := -w.value;
      if z.value < ULONG {
        z.value := l % z.value;
      } else {
        SmallDividend(l, b);
        z.value := l;
      }
    }
  }

  /** C leaves LONG_MIN divided by -1 undefined. */
  method DivSiByZ(z: Mpz, l: Slong, w: Mpz)
    requires w.value != 0 && !(l == LONG_MIN && w.value == -1)
    modifies z
    ensures z.value == Quotient(l, old(w.value))
  {
    if LONG_MIN <= w.value < -LONG_MIN {
      z.value := Quotient(l, w.value);
    } else {
      if Abs(w.value) == Abs(l) { EqualSize(l, w.value); } else { SmallDividend(l, w.value); }
      z.value := if Abs(w.value) == Abs(l) then -1 else 0;
    }
  }

  method ModSiByZ(z: Mpz, l: Slong, w: Mpz)
    requires w.value != 0 && !(l == LONG_MIN && w.value == -1)
    modifies z
    ensures z.value == Remainder(l, old(w.value))
  {
    if LONG_MIN <= w.value < -LONG_MIN {
      z.value := Remainder(l, w.value);
    } else {
      if Abs(w.value) == Abs(l) { EqualSize(l, w.value); } else { SmallDividend(l, w.value); }
      z.value := if Abs(w.value) == Abs(l) then 0 else l;
    }
  }
}
