/** __gmp_extract_double of extract-dbl.c for binary64 numbers (section 3.4 of IEEE
    754-2019), 64-bit limbs: the two limbs and the exponent represent the number
    exactly. */
module ExtractDouble {
  import opened Arith
  import opened LimbDivision

  const HIGH_BIT: int := 0x8000_0000_0000_0000

  /** The bit fields of a non-negative finite double: 11 exponent bits and 20 + 32
      fraction bits. */
  datatype Double = Double(exp: nat, manh: nat, manl: nat)

  predicate Finite(d: Double) {
    d.exp < 2047 && d.manh < 0x10_0000 && d.manl < 0x1_0000_0000
  }

  function Fraction(d: Double): nat {
    d.manh * 0x1_0000_0000 + d.manl
  }

  /** The order of the bit fields, the exponent first. */
  predicate Before(d: Double, d': Double) {
    || d.exp < d'.exp
    || (d.exp == d'.exp && d.manh < d'.manh)
    || (d.exp == d'.exp && d.manh == d'.manh && d.manl < d'.manl)
  }

  /** The value is Significand(d) * 2^Scale(d). */
  function Significand(d: Double): nat {
    if d.exp == 0 then Fraction(d) else 0x10_0000_0000_0000 + Fraction(d)
  }

  function Scale(d: Double): int {
    (if d.exp == 0 then 1 else d.exp) - 1075
  }

  /** The number as a multiple of the least positive one, 2^-1074. */
  function Units(d: Double): int {
    Significand(d) * Pow(2, Scale(d) + 1074)
  }

  /** Numbers are ordered as their bit fields are. */
  lemma UnitsOrdered(d: Double, d': Double)
    requires Finite(d) && Finite(d') && Before(d, d')
    ensures 0 <= Units(d) < Units(d')
  {
    hide Pow;
    var m, m', e, e' := Significand(d), Significand(d'), Scale(d) + 1074, Scale(d') + 1074;
    if e == e' {
      PowPositive(2, e);
      MulMono(m + 1, m', Pow(2, e));
      Expand(m, Pow(2, e));
      MulMono(0, m, Pow(2, e));
    } else {
      HigherExponent(m, e, m', e');
    }
  }

  lemma Expand(m: int, p: int)
    ensures (m + 1) * p == m * p + p
  {
  }

  lemma HigherExponent(m: nat, e: nat, m': nat, e': nat)
    requires e < e' && m < 2 * m'
    ensures 0 <= m * Pow(2, e) < m' * Pow(2, e')
  {
    hide Pow;
    PowUp(e);
    Expand(m, Pow(2, e));
    MulMono(0, m, Pow(2, e));
    MulMono(m + 1, 2 * m', Pow(2, e));
    MulRotate(m', 2, Pow(2, e));
    MulAssoc(2, m', Pow(2, e));
    PowMono(2, e + 1, e');
    MulMono(Pow(2, e + 1), Pow(2, e'), m');
  }

  /** The number after d in this order is one unit in the last place of d above it. */
  lemma NextNumber(d: Double, next: Double)
    requires Finite(d) && Finite(next)
    requires || (d.manl < 0xFFFF_FFFF && next == Double(d.exp, d.manh, d.manl + 1))
      || (d.manl == 0xFFFF_FFFF && d.manh < 0xF_FFFF && next == Double(d.exp, d.manh + 1, 0))
      || (d.manl == 0xFFFF_FFFF && d.manh == 0xF_FFFF && next == Double(d.exp + 1, 0, 0))
    ensures Units(next) == Units(d) + Pow(2, if d.exp == 0 then 0 else d.exp - 1)
  {
    hide Pow;
    var m, e := Significand(d), Scale(d) + 1074;
    Expand(m, Pow(2, e));
    if d.exp != 0 && next.exp == d.exp + 1 {
      PowUp(e);
      MulRotate(Significand(next), 2, Pow(2, e));
      MulAssoc(2, Significand(next), Pow(2, e));
    }
  }

  /** m * 2^e in whole multiples of 2^-5000. */
  function Scaled(m: int, e: int): int
    requires -5000 <= e
  {
    m * Pow(2, e + 5000)
  }

  /** Two numbers with the same exponent are the same only if the significands are, and
      a factor 2 counts as one exponent. */
  lemma ScaledSame(m: int, n: int, e: int, k: nat)
    requires -5000 <= e
    ensures Scaled(m, e) == Scaled(n, e + k) <==> m == n * Pow(2, k)
    ensures Scaled(m, -5000) == m
  {
    hide Pow;
    SmallPowers();
    PowPositive(2, e + 5000);
    PowAdd(2, k, e + 5000);
    MulAssoc(n, Pow(2, k), Pow(2, e + 5000));
    if Scaled(m, e) == Scaled(n, e + k) { MulCancel(m, n * Pow(2, k), Pow(2, e + 5000)); }
  }

  /** Moving k factors 2 between significand and exponent. */
  lemma Shifted(m: int, e: int, k: nat)
    requires -5000 <= e
    ensures Scaled(m * Pow(2, k), e) == Scaled(m, e + k)
  {
    PowAdd(2, k, e + 5000);
    MulAssoc(m, Pow(2, k), Pow(2, e + 5000));
  }

  lemma PowUp(k: nat)
    ensures Pow(2, k + 1) == 2 * Pow(2, k) && 0 < Pow(2, k)
  {
    PowPositive(2, k);
  }

  lemma SmallPowers()
    ensures Pow(2, 64) == B && Pow(2, 11) == 0x800 && Pow(2, 12) == 0x1000 && Pow(2, 0) == 1
  {
    Pow64();
    assert Pow(2, 8) == 0x100;
    assert Pow(2, 3) == 8 && Pow(2, 4) == 16;
    PowAdd(2, 8, 3);
    PowAdd(2, 8, 4);
  }

  /** The mantissa with its top bit set, and the exponent with the bias removed. */
  method Normalise(d: Double) returns (manl: Word, exp: int)
    requires Finite(d) && !(d.exp == 0 && d.manh == 0 && d.manl == 0)
    ensures HIGH_BIT <= manl && -1073 <= exp <= 1024
    ensures Scaled(manl, exp - 64)
         == Scaled(
              (if d.exp == 0 then 0 else 0x10_0000_0000_0000) + d.manh * 0x1_0000_0000 + d.manl,
              (if d.exp == 0 then 1 else d.exp) - 1075)
  {
    hide Pow;
    SmallPowers();
    exp := d.exp;
    manl := HIGH_BIT + d.manh * 0x800_0000_0000 + d.manl * 0x800;
    if exp == 0 {
      manl, exp := Denormal(manl, Fraction(d));
    }
    ghost var k := if d.exp == 0 then 12 - exp else 11;
    exp := exp - 1022;
    Shifted(Significand(d), exp - 64, k);
  }

  /** The shifting loop for subnormal numbers; the first shift drops the top bit that
      was set for normal ones. */
  method Denormal(m: Word, ghost f: nat) returns (manl: Word, exp: int)
    requires 0 < f < 0x10_0000_0000_0000 && m == HIGH_BIT + f * 0x800
    ensures HIGH_BIT <= manl && -51 <= exp <= 0 && manl == f * Pow(2, 12 - exp)
  {
    hide Pow, Low;
    SmallPowers();
    exp, manl := 1, m;
    ghost var first := true;
    while true
      invariant -51 <= exp <= 1 && (first <==> exp == 1) && (first ==> manl == m)
      invariant !first ==> manl == f * Pow(2, 12 - exp) && manl < HIGH_BIT
      invariant !first ==> Pow(2, 12 - exp) * f < HIGH_BIT
      decreases exp + 51
    {
      if first {
        LowIs(2 * manl, 1, f * 0x1000);
      } else {
        PowUp(12 - exp);
        LowIs(2 * manl, 0, 2 * manl);
        MulRotate(f, 2, Pow(2, 12 - exp));
        StillSmall(f, 12 - exp);
      }
      manl := Low(2 * manl);
      exp := exp - 1;
      first := false;
      if manl >= HIGH_BIT { break; }
    }
  }

  /** While the top bit is clear, at most 63 places have been shifted. */
  lemma StillSmall(f: nat, k: nat)
    requires 0 < f && f * Pow(2, k) < HIGH_BIT
    ensures k < 63
  {
    SmallPowers();
    PowPositive(2, k);
    MulMono(1, f, Pow(2, k));
    if k >= 63 {
      PowUp(63);
      PowMono(2, 63, k);
    }
  }

  /** A left shift across the limb boundary. */
  lemma SplitShift(m: Word, sc: nat)
    requires 1 <= sc < 64 && HIGH_BIT <= m
    ensures 0 < Pow(2, 64 - sc) && 0 < m / Pow(2, 64 - sc) < B
    ensures m / Pow(2, 64 - sc) * B + Low(m * Pow(2, sc)) == m * Pow(2, sc)
  {
    hide Pow, Low;
    SmallPowers();
    var p, q := Pow(2, sc), Pow(2, 64 - sc);
    PowAdd(2, sc, 64 - sc);
    PowPositive(2, sc);
    PowPositive(2, 64 - sc);
    PowUp(sc - 1);
    PowUp(63 - sc);
    assert p * q == B;
    SplitProduct(m, p, q);
    MulMono(2, p, m);
    MulMono(2, q, m / q);
  }

  lemma SplitProduct(m: Word, p: int, q: int)
    requires 0 < p && 0 < q && p * q == B
    ensures 0 <= m / q && m == m / q * q + m % q && m / q * B + Low(m * p) == m * p
  {
    var h, l := m / q, m % q;
    assert m == h * q + l;
    assert m * p == (h * q) * p + l * p;
    assert (h * q) * p == h * (p * q);
    MulMono(l + 1, q, p);
    MulMono(0, l, p);
    assert (l + 1) * p == l * p + p;
    assert q * p == p * q;
    LowIs(m * p, h, l * p);
    if h < 0 { MulMono(h, -1, q); }
  }

  /** The last steps put the significand on a limb boundary. */
  lemma Placed(manl: Word, e: int, exp: int, sc: int)
    requires HIGH_BIT <= manl && -1073 <= e <= 1024
    requires sc == (e + 64 * 64) % 64 && exp == (e + 64 * 64) / 64 - 64 + 1
    ensures -4500 <= 64 * (exp - 2) && e - 64 == 64 * (exp - 2) + sc && 0 <= sc
    ensures Scaled(manl * Pow(2, sc), 64 * (exp - 2)) == Scaled(manl, e - 64)
    ensures Scaled(manl * B, 64 * (exp - 3)) == Scaled(manl, 64 * (exp - 2))
  {
    hide Pow;
    SmallPowers();
    Shifted(manl, 64 * (exp - 2), sc);
    Shifted(manl, 64 * (exp - 3), 64);
  }

  /** The limbs of a significand of full width at its place among the limbs. */
  method PlaceLimbs(manl: Word, e: int) returns (rp1: Word, rp0: Word, exp: int)
    requires HIGH_BIT <= manl && -1073 <= e <= 1024
    ensures 0 < rp1 && -4500 <= 64 * (exp - 2)
    ensures Scaled(rp1 * 0x1_0000_0000_0000_0000 + rp0, 64 * (exp - 2)) == Scaled(manl, e - 64)
  {
    hide Pow, Low;
    var sc := (e + 64 * 64) % 64;
    exp := (e + 64 * 64) / 64 - 64 * 64 / 64 + 1;
    Placed(manl, e, exp, sc);
    if sc != 0 {
      SplitShift(manl, sc);
      rp1 := manl / Pow(2, 64 - sc);
      rp0 := Low(manl * Pow(2, sc));
    } else {
      rp1 := manl;
      rp0 := 0;
      exp := exp - 1;
    }
  }

  /** The whole function: the limbs and the exponent are exactly the number that the
      fields encode, and the top limb is not zero unless the number is. */
  method ExtractDouble(d: Double) returns (rp1: Word, rp0: Word, exp: int)
    requires Finite(d)
    ensures d.exp == 0 && d.manh == 0 && d.manl == 0 ==> rp1 == 0 && rp0 == 0 && exp == 0
    ensures !(d.exp == 0 && d.manh == 0 && d.manl == 0) ==> 0 < rp1
    ensures -4500 <= 64 * (exp - 2)
    ensures Scaled(rp1 * 0x1_0000_0000_0000_0000 + rp0, 64 * (exp - 2))
         == Scaled(
              (if d.exp == 0 then 0 else 0x10_0000_0000_0000) + d.manh * 0x1_0000_0000 + d.manl,
              (if d.exp == 0 then 1 else d.exp) - 1075)
  {
    hide Pow, Scaled;
    if d.exp == 0 && d.manh == 0 && d.manl == 0 {
      NoUnits(-128);
      NoUnits(-1074);
      rp1, rp0, exp := 0, 0, 0;
    } else {
      var manl, e := Normalise(d);
      rp1, rp0, exp := PlaceLimbs(manl, e);
    }
  }

  lemma NoUnits(e: int)
    requires -5000 <= e
    ensures Scaled(0, e) == 0
  {
  }
}
