/** Inverses modulo powers of two: bit by bit in bootstrap.c, by Newton doubling from
    a table in gmp-impl.h, and the divisibility test that gen-trialdivtab.c builds
    on them. */
module BinaryInverse {
  import opened Arith
  import opened Primes
  import opened LimbDivision

  // ----- bit by bit

  /** Setting bit i or not, by bit i of the product, p being 2^i. */
  lemma NextBit(inv: nat, a: nat, p: nat)
    requires a % 2 == 1 && inv < p && 2 <= p && (inv * a) % p == 1
    ensures var next := if inv * a / p % 2 != 0 then inv + p else inv;
      next < 2 * p && (next * a) % (2 * p) == 1
  {
    var x := inv * a;
    var k := QuotientOf(x, p);
    if k % 2 != 0 {
      SumTimes(inv, p, a, k);
      DoubledModulus((inv + p) * a, k + a, p);
    } else {
      DoubledModulus(x, k, p);
    }
  }

  lemma QuotientOf(x: nat, p: nat) returns (k: int)
    requires 2 <= p && x % p == 1
    ensures k == x / p && x == k * p + 1
  {
    k := x / p;
  }

  lemma SumTimes(inv: int, p: int, a: int, k: int)
    requires inv * a == k * p + 1
    ensures (inv + p) * a == (k + a) * p + 1
  {
  }

  lemma DoubledModulus(x: int, k: int, p: int)
    requires 2 <= p && k % 2 == 0 && x == k * p + 1
    ensures x % (2 * p) == 1
  {
    var j := k / 2;
    assert k * p == j * (2 * p);
    DivModUnique(x, 2 * p, j, 1);
  }

  /** mpz_invert_2exp: the inverse of an odd number modulo 2^n. */
  method MpzInvert2exp(a: nat, n: nat) returns (r: nat)
    requires a % 2 == 1 && 1 <= n
    ensures 1 < Pow(2, n) && r < Pow(2, n) && (r * a) % Pow(2, n) == 1
  {
    hide Pow;
    var inv: nat, i: nat := 1, 1;
    PowDoubles(0);
    assert 1 * a == a;
    while i < n
      invariant 1 <= i <= n && 2 <= Pow(2, i) && inv < Pow(2, i) && (inv * a) % Pow(2, i) == 1
    {
      NextBit(inv, a, Pow(2, i));
      PowDoubles(i);
      var prod := inv * a;
      if prod / Pow(2, i) % 2 != 0 {
        inv := inv + Pow(2, i);
      }
      i := i + 1;
    }
    r := inv;
  }

  lemma PowDoubles(i: nat)
    ensures Pow(2, 0) == 1 && Pow(2, i + 1) == 2 * Pow(2, i) && 0 < Pow(2, i)
  {
    PowPositive(2, i);
  }

  // ----- Newton doubling

  /** binvert_limb_table, eight entries to a row. */
  function BinvertRow(r: nat): (row: seq<int>)
    requires r < 16
    ensures |row| == 8
  {
    match r
    case 0 => [0x01, 0xAB, 0xCD, 0xB7, 0x39, 0xA3, 0xC5, 0xEF]
    case 1 => [0xF1, 0x1B, 0x3D, 0xA7, 0x29, 0x13, 0x35, 0xDF]
    case 2 => [0xE1, 0x8B, 0xAD, 0x97, 0x19, 0x83, 0xA5, 0xCF]
    case 3 => [0xD1, 0xFB, 0x1D, 0x87, 0x09, 0xF3, 0x15, 0xBF]
    case 4 => [0xC1, 0x6B, 0x8D, 0x77, 0xF9, 0x63, 0x85, 0xAF]
    case 5 => [0xB1, 0xDB, 0xFD, 0x67, 0xE9, 0xD3, 0xF5, 0x9F]
    case 6 => [0xA1, 0x4B, 0x6D, 0x57, 0xD9, 0x43, 0x65, 0x8F]
    case 7 => [0x91, 0xBB, 0xDD, 0x47, 0xC9, 0xB3, 0xD5, 0x7F]
    case 8 => [0x81, 0x2B, 0x4D, 0x37, 0xB9, 0x23, 0x45, 0x6F]
    case 9 => [0x71, 0x9B, 0xBD, 0x27, 0xA9, 0x93, 0xB5, 0x5F]
    case 10 => [0x61, 0x0B, 0x2D, 0x17, 0x99, 0x03, 0x25, 0x4F]
    case 11 => [0x51, 0x7B, 0x9D, 0x07, 0x89, 0x73, 0x95, 0x3F]
    case 12 => [0x41, 0xEB, 0x0D, 0xF7, 0x79, 0xE3, 0x05, 0x2F]
    case 13 => [0x31, 0x5B, 0x7D, 0xE7, 0x69, 0x53, 0x75, 0x1F]
    case 14 => [0x21, 0xCB, 0xED, 0xD7, 0x59, 0xC3, 0xE5, 0x0F]
    case _ => [0x11, 0x3B, 0x5D, 0xC7, 0x49, 0x33, 0x55, 0xFF]
  }

  function BinvertLimbTable(i: nat): int
    requires i < 128
  {
    BinvertRow(i / 8)[i % 8]
  }

  /** Entry x is a byte and the inverse of n modulo 256. */
  predicate InverseByte(x: int, n: int) {
    0 <= x < 256 && x * n % 256 == 1
  }

  predicate RowInverts(r: nat)
    requires r < 16
  {
    var row, n := BinvertRow(r), 16 * r;
    && InverseByte(row[0], n + 1) && InverseByte(row[1], n + 3)
    && InverseByte(row[2], n + 5) && InverseByte(row[3], n + 7)
    && InverseByte(row[4], n + 9) && InverseByte(row[5], n + 11)
    && InverseByte(row[6], n + 13) && InverseByte(row[7], n + 15)
  }

  lemma Row0() ensures RowInverts(0) { }
  lemma Row1() ensures RowInverts(1) { }
  lemma Row2() ensures RowInverts(2) { }
  lemma Row3() ensures RowInverts(3) { }
  lemma Row4() ensures RowInverts(4) { }
  lemma Row5() ensures RowInverts(5) { }
  lemma Row6() ensures RowInverts(6) { }
  lemma Row7() ensures RowInverts(7) { }
  lemma Row8() ensures RowInverts(8) { }
  lemma Row9() ensures RowInverts(9) { }
  lemma Row10() ensures RowInverts(10) { }
  lemma Row11() ensures RowInverts(11) { }
  lemma Row12() ensures RowInverts(12) { }
  lemma Row13() ensures RowInverts(13) { }
  lemma Row14() ensures RowInverts(14) { }
  lemma Row15() ensures RowInverts(15) { }

  lemma EveryRow(r: nat)
    requires r < 16
    ensures RowInverts(r)
  {
    hide RowInverts;
    Row0();
    Row1();
    Row2();
    Row3();
    Row4();
    Row5();
    Row6();
    Row7();
    Row8();
    Row9();
    Row10();
    Row11();
    Row12();
    Row13();
    Row14();
    Row15();
  }

  /** The table holds the inverses of all odd residues modulo 256. */
  lemma TableInverts(n: nat)
    requires n % 2 == 1
    ensures 0 <= BinvertLimbTable(n / 2 % 128) < 256
    ensures BinvertLimbTable(n / 2 % 128) * n % 256 == 1
  {
    hide BinvertRow, RowInverts;
    var i := n / 2 % 128;
    var x := BinvertLimbTable(i);
    EveryRow(i / 8);
    RowEntry(i / 8, i % 8);
    OddResidue(n);
    ModMod(n, 256);
    CongMul(x, x, n, 2 * i + 1, 256);
  }

  lemma RowEntry(r: nat, c: nat)
    requires r < 16 && c < 8 && RowInverts(r)
    ensures InverseByte(BinvertRow(r)[c], 2 * (8 * r + c) + 1)
  {
    hide BinvertRow, InverseByte;
    assert c == 0 || c == 1 || c == 2 || c == 3 || c == 4 || c == 5 || c == 6 || c == 7;
  }

  lemma OddResidue(n: nat)
    requires n % 2 == 1
    ensures n % 256 == 2 * (n / 2 % 128) + 1
  {
    var h := n / 2;
    DivModUnique(n, 256, h / 128, 2 * (h % 128) + 1);
  }

  /** The algebra of a Newton step from an inverse with error k * m. */
  lemma NewtonIdentity(inv: int, n: int, m: int, k: int)
    requires inv * n == k * m + 1
    ensures (2 * inv - inv * inv * n) * n == 1 + (-(k * k)) * (m * m)
  {
    var x := inv * n;
    assert (inv * inv * n) * n == x * x;
    assert x * x == (k * m) * (k * m) + 2 * (k * m) + 1;
    MulSwap(k, m, k, m);
  }

  /** One Newton step squares the modulus mm = m * m of the inverse; e is the new error. */
  lemma NewtonStep(inv: int, n: int, m: int, mm: int, j: int, k: int) returns (e: int)
    requires mm == m * m && B == j * mm && inv * n == k * m + 1
    ensures Low(2 * inv - inv * inv * n) * n == e * mm + 1
  {
    hide Low;
    var y := 2 * inv - inv * inv * n;
    var c := y / B;
    NewtonIdentity(inv, n, m, k);
    LowQuotient(y);
    e := -(k * k) - c * j * n;
    MulAssoc(c * j, mm, n);
    MulAssoc(c, j, mm);
    ErrorSum(y, c * B, Low(y), n, k * k, c * j, mm);
  }

  lemma ErrorSum(y: int, w: int, low: int, n: int, kk: int, cj: int, mm: int)
    requires y == w + low && w == cj * mm && y * n == 1 + (-kk) * mm
    ensures low * n == (-kk - cj * n) * mm + 1
  {
    assert low * n == y * n - w * n;
    assert w * n == (cj * n) * mm;
  }

  lemma ErrorQuotient(x: int, m: int) returns (k: int)
    requires 2 <= m && x % m == 1
    ensures x == k * m + 1
  {
    k := x / m;
  }

  /** binvert_limb: the same inverse as bit by bit. */
  method BinvertLimb(n: Word) returns (inv: Word)
    requires n % 2 == 1
    ensures (inv * n) % B == 1
  {
    hide Low, BinvertLimbTable;
    TableInverts(n);
    inv := BinvertLimbTable(n / 2 % 128);
    ghost var k := ErrorQuotient(inv * n, 0x100);
    k := NewtonStep(inv, n, 0x100, 0x1_0000, 0x1_0000_0000_0000, k);
    inv := Low(2 * inv - inv * inv * n);
    k := NewtonStep(inv, n, 0x1_0000, HALF, HALF, k);
    inv := Low(2 * inv - inv * inv * n);
    k := NewtonStep(inv, n, HALF, B, 1, k);
    inv := Low(2 * inv - inv * inv * n);
    ModAddMul(1, k, B);
    SmallMod(1, B);
  }

  /** An inverse modulo B is unique, so both methods compute the same limb. */
  lemma InverseUnique(n: Word, x: Word, y: Word)
    requires (x * n) % B == 1 && (y * n) % B == 1
    ensures x == y
  {
    var k := x * n / B;
    assert n * x + B * (-k) == 1;
    CoprimeFromBezout(n, B, x, -k);
    CoprimeSymmetric(n, B);
    assert x * n == n * x && y * n == n * y;
    CoprimeCancel(n, x, y, B);
    SmallMod(x, B);
    SmallMod(y, B);
  }

  method BothInverses(n: Word) returns (x: Word, y: nat)
    requires n % 2 == 1
    ensures x == y && (x * n) % B == 1
  {
    x := BinvertLimb(n);
    y := MpzInvert2exp(n, 64);
    Pow64();
    InverseUnique(n, x, y);
  }

  // ----- divisibility

  /** The test x * inv mod B <= lim with lim = floor((B - 1) / p) tells exactly the
      multiples of p. */
  lemma ExactDivisionTest(p: Word, inv: Word, x: Word)
    requires 0 < p && (inv * p) % B == 1
    ensures Divides(p, x) <==> Low(x * inv) <= (B - 1) / p
  {
    hide Divides, Low;
    if Divides(p, x) { MultiplePasses(p, inv, x); }
    if Low(x * inv) <= (B - 1) / p { PassingIsMultiple(p, inv, x); }
  }

  lemma LimitTimes(p: Word)
    requires 0 < p
    ensures (B - 1) / p * p <= B - 1 < ((B - 1) / p + 1) * p
  {
    var lim := (B - 1) / p;
    assert B - 1 == lim * p + (B - 1) % p;
  }

  lemma MultiplePasses(p: Word, inv: Word, x: Word)
    requires 0 < p && (inv * p) % B == 1 && Divides(p, x)
    ensures Low(x * inv) <= (B - 1) / p
  {
    var lim := (B - 1) / p;
    LimitTimes(p);
    var y := DividesQuotient(p, x);
    MultipleTimesInverse(p, inv, y);
    if y > lim { MulMono(lim + 1, y, p); }
    if y < 0 { MulMono(y, -1, p); }
    MulMono(1, p, y);
    SmallMod(y, B);
  }

  lemma PassingIsMultiple(p: Word, inv: Word, x: Word)
    requires 0 < p && (inv * p) % B == 1 && Low(x * inv) <= (B - 1) / p
    ensures Divides(p, x)
  {
    hide Divides;
    var q, lim := Low(x * inv), (B - 1) / p;
    LimitTimes(p);
    MulMono(q, lim, p);
    MulMono(0, q, p);
    ModMod(x * inv, B);
    CongMul(q, x * inv, p, p, B);
    SmallMod(1, B);
    CongMul(x, x, inv * p, 1, B);
    MulAssoc(x, inv, p);
    SmallMod(q * p, B);
    SmallMod(x, B);
    DividesFrom(p, q, x);
  }

  lemma MultipleTimesInverse(p: int, inv: int, y: int)
    requires (inv * p) % B == 1
    ensures ((y * p) * inv) % B == y % B
  {
    SmallMod(1, B);
    CongMul(y, y, inv * p, 1, B);
    assert (y * p) * inv == y * (inv * p);
  }

  /** An entry P(p, inv, lim) of the trial division table. */
  method DtabEntry(p: Word) returns (inv: nat, lim: int)
    requires p % 2 == 1
    ensures 0 <= inv < B && forall x: Word :: Divides(p, x) <==> Low(x * inv) <= lim
  {
    inv := MpzInvert2exp(p, 64);
    Pow64();
    lim := (B - 1) / p;
    forall x: Word ensures Divides(p, x) <==> Low(x * inv) <= lim {
      ExactDivisionTest(p, inv, x);
    }
  }
}
