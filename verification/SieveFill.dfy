/** fill_bitpattern of primesieve.c: the two patterns are rotated to a start
    offset and then advanced limb by limb. */
module SieveFill {
  import opened Arith
  import opened Limbs
  import opened SieveMasks

  function Wrap(x: nat, period: nat): nat
    requires 1 <= period && x < 3 * period
  {
    if x < period then x else if x < 2 * period then x - period else x - 2 * period
  }

  /** Bit k of the pattern held in two words. */
  function At2(M1: Limb, M2: Limb, k: nat): bool
    requires k < 110
  {
    if k < 64 then M1[k] else M2[k - 64]
  }

  /** m1 and m2 hold the pattern advanced by off; what m2 carries beyond the period
      agrees with the continued pattern. */
  ghost predicate Advanced2(M1: Limb, M2: Limb, off: nat, m1: Limb, m2: Limb)
    requires off < 110
  {
    && (forall j :: 0 <= j < 64 ==> m1[j] == At2(M1, M2, Wrap(j + off, 110)))
    && (forall j :: 0 <= j < 46 ==> m2[j] == At2(M1, M2, Wrap(64 + j + off, 110)))
    && (forall j :: 46 <= j < 64 && m2[j] ==> At2(M1, M2, Wrap(64 + j + off, 110)))
  }

  /** The SET_OFF1 macro for a period of 110 bits. */
  method SetOff1(M1: Limb, M2: Limb, off: nat) returns (m1: Limb, m2: Limb)
    requires off < 110 && forall j :: 46 <= j < 64 ==> !M2[j]
    ensures Advanced2(M1, M2, off, m1, m2)
  {
    if off != 0 {
      if off < 64 {
        m1 := Or(Shr(M1, off), Shl(M2, 64 - off));
        if off <= 110 - 64 {
          m2 := Or(Shl(M1, 110 - 64 - off), Shr(M2, off));
        } else {
          m1 := Or(m1, Shl(M1, 110 - off));
          m2 := Shr(M1, off + 64 - 110);
        }
      } else {
        m1 := Or(Shl(M1, 110 - off), Shr(M2, off - 64));
        m2 := Or(Shl(M2, 110 - off), Shr(M1, off + 64 - 110));
      }
    } else {
      m1, m2 := M1, M2;
    }
  }

  /** Bit k of the pattern held in three words. */
  function At3(M1: Limb, M2: Limb, M3: Limb, k: nat): bool
    requires k < 182
  {
    if k < 64 then M1[k] else if k < 128 then M2[k - 64] else M3[k - 128]
  }

  ghost predicate Advanced3(M1: Limb, M2: Limb, M3: Limb, off: nat, m1: Limb, m2: Limb, m3: Limb)
    requires off < 182
  {
    && (forall j :: 0 <= j < 64 ==> m1[j] == At3(M1, M2, M3, Wrap(j + off, 182)))
    && (forall j :: 0 <= j < 64 ==> m2[j] == At3(M1, M2, M3, Wrap(64 + j + off, 182)))
    && (forall j :: 0 <= j < 54 ==> m3[j] == At3(M1, M2, M3, Wrap(128 + j + off, 182)))
    && (forall j :: 54 <= j < 64 && m3[j] ==> At3(M1, M2, M3, Wrap(128 + j + off, 182)))
  }

  /** The SET_OFF2 macro for a period of 182 bits, one method per range of off. */
  method SetOff2(M1: Limb, M2: Limb, M3: Limb, off: nat) returns (m1: Limb, m2: Limb, m3: Limb)
    requires off < 182 && forall j :: 54 <= j < 64 ==> !M3[j]
    ensures Advanced3(M1, M2, M3, off, m1, m2, m3)
  {
    if off != 0 {
      if off <= 64 {
        m1, m2, m3 := SetOff2Low(M1, M2, M3, off);
      } else if off < 2 * 64 {
        m1, m2, m3 := SetOff2Middle(M1, M2, M3, off);
      } else {
        m1 := Or(Shl(M1, 182 - off), Shr(M3, off - 2 * 64));
        m2 := Or(Shl(M2, 182 - off), Shr(M1, off + 64 - 182));
        m3 := Or(Shl(M3, 182 - off), Shr(M2, off + 64 - 182));
      }
    } else {
      m1, m2, m3 := M1, M2, M3;
    }
  }

  method SetOff2Low(M1: Limb, M2: Limb, M3: Limb, off: nat) returns (m1: Limb, m2: Limb, m3: Limb)
    requires 1 <= off <= 64 && forall j :: 54 <= j < 64 ==> !M3[j]
    ensures Advanced3(M1, M2, M3, off, m1, m2, m3)
  {
    m1 := Shl(M2, 64 - off);
    m2 := Shl(M3, 64 - off);
    if off != 64 {
      m1 := Or(m1, Shr(M1, off));
      m2 := Or(m2, Shr(M2, off));
    }
    if off <= 182 - 2 * 64 {
      m3 := Or(Shl(M1, 182 - 2 * 64 - off), Shr(M3, off));
    } else {
      m2 := Or(m2, Shl(M1, 182 - 64 - off));
      m3 := Shr(M1, off + 2 * 64 - 182);
    }
  }

  method SetOff2Middle(M1: Limb, M2: Limb, M3: Limb, off: nat) returns (m1: Limb, m2: Limb, m3: Limb)
    requires 64 < off < 2 * 64 && forall j :: 54 <= j < 64 ==> !M3[j]
    ensures Advanced3(M1, M2, M3, off, m1, m2, m3)
  {
    m1 := Or(Shr(M2, off - 64), Shl(M3, 2 * 64 - off));
    if off <= 182 - 64 {
      m2 := Or(Shr(M3, off - 64), Shl(M1, 182 - 64 - off));
      m3 := Shl(M2, 182 - 64 - off);
      if off != 182 - 64 {
        m3 := Or(m3, Shr(M1, off + 2 * 64 - 182));
      }
    } else {
      m1 := Or(m1, Shl(M1, 182 - off));
      m2 := Or(Shl(M2, 182 - off), Shr(M1, 64 - 182 + off));
      m3 := Shr(M2, 64 - 182 + off);
    }
  }

  // ----- windows on the endless patterns

  /** m1 and m2 show pattern 0 from bit b on. */
  ghost predicate Window2(m1: Limb, m2: Limb, b: nat) {
    && (forall j :: 0 <= j < 64 ==> m1[j] == Pattern(0, b + j))
    && (forall j :: 0 <= j < 46 ==> m2[j] == Pattern(0, b + 64 + j))
    && (forall j :: 46 <= j < 64 && m2[j] ==> Pattern(0, b + 64 + j))
  }

  /** m1, m2 and m3 show pattern 1 from bit b on. */
  ghost predicate Window3(m1: Limb, m2: Limb, m3: Limb, b: nat) {
    && (forall j :: 0 <= j < 64 ==> m1[j] == Pattern(1, b + j))
    && (forall j :: 0 <= j < 64 ==> m2[j] == Pattern(1, b + 64 + j))
    && (forall j :: 0 <= j < 54 ==> m3[j] == Pattern(1, b + 128 + j))
    && (forall j :: 54 <= j < 64 && m3[j] ==> Pattern(1, b + 128 + j))
  }

  const M1: Limb := FromNat(0x81214a1204892058)
  const MT: Limb := FromNat(0xc8130681244)
  const N1: Limb := FromNat(0x9402180c40230184)
  const N2: Limb := FromNat(0x0285021088402120)
  const NT: Limb := FromNat(0xa41210084421)

  lemma {:induction false} HighBitsZero(n: nat, k: nat, j: nat)
    requires n < Pow(2, k) && k <= j
    ensures !NatBit(n, j)
    decreases j
  {
    if k > 0 { HighBitsZero(n / 2, k - 1, j - 1); }
    else if j > 0 { HighBitsZero(0, 0, j - 1); }
  }

  lemma PowerBounds()
    ensures 0xc8130681244 < Pow(2, 46) && 0xa41210084421 < Pow(2, 54)
  {
    hide Pow;
    SmallPowers();
    PowAdd(2, 8, 8);
    PowAdd(2, 16, 16);
    PowAdd(2, 8, 6);
    PowAdd(2, 32, 14);
    PowAdd(2, 46, 8);
  }

  lemma SmallPowers()
    ensures Pow(2, 6) == 0x40 && Pow(2, 8) == 0x100
  {
  }

  /** The constants hold one full period of each pattern, and nothing above it. */
  lemma Constants2()
    ensures forall k :: 0 <= k < 110 ==> At2(M1, MT, k) == Pattern(0, 64 + k)
    ensures forall j :: 46 <= j < 64 ==> !MT[j]
  {
    Mask1Holds();
    MaskTHolds();
    PowerBounds();
    forall k | 0 <= k < 110
      ensures At2(M1, MT, k) == Pattern(0, 64 + k)
    {
      if k < 64 { HoldsMeaning(0, 0x81214a1204892058, 64, 64, k); }
      else { HoldsMeaning(0, 0xc8130681244, 128, 46, k - 64); }
    }
    forall j | 46 <= j < 64
      ensures !MT[j]
    {
      HighBitsZero(0xc8130681244, 46, j);
    }
  }

  lemma Constants3()
    ensures forall k :: 0 <= k < 182 ==> At3(N1, N2, NT, k) == Pattern(1, 64 + k)
    ensures forall j :: 54 <= j < 64 ==> !NT[j]
  {
    TwoMask1Holds();
    TwoMask2Holds();
    TwoMaskTHolds();
    PowerBounds();
    forall k | 0 <= k < 182
      ensures At3(N1, N2, NT, k) == Pattern(1, 64 + k)
    {
      if k < 64 { HoldsMeaning(1, 0x9402180c40230184, 64, 64, k); }
      else if k < 128 { HoldsMeaning(1, 0x0285021088402120, 128, 64, k - 64); }
      else { HoldsMeaning(1, 0xa41210084421, 192, 54, k - 128); }
    }
    forall j | 54 <= j < 64
      ensures !NT[j]
    {
      HighBitsZero(0xa41210084421, 54, j);
    }
  }

  /** Wrapping around the period does not change the pattern. */
  lemma WrapPattern(w: nat, offset: nat, j: nat)
    requires w < 2 && var period := if w == 0 then 110 else 182; j + offset % period < 3 * period
    ensures var period := if w == 0 then 110 else 182;
      Pattern(w, 64 + Wrap(j + offset % period, period)) == Pattern(w, 64 + offset + j)
  {
    hide Pattern;
    var period := if w == 0 then 110 else 182;
    var k, r := offset / period, offset % period;
    var c := if j + r < period then 0 else if j + r < 2 * period then 1 else 2;
    assert offset == k * period + r;
    PatternPeriod(w, 64 + Wrap(j + r, period), k + c);
  }

  lemma StartWindow2(offset: nat, m1: Limb, m2: Limb)
    requires Advanced2(M1, MT, offset % 110, m1, m2)
    ensures Window2(m1, m2, 64 + offset)
  {
    hide Pattern;
    Constants2();
    forall j | 0 <= j < 64 ensures m1[j] == Pattern(0, 64 + offset + j) {
      WrapPattern(0, offset, j);
    }
    forall j | 0 <= j < 46 ensures m2[j] == Pattern(0, 64 + offset + 64 + j) {
      WrapPattern(0, offset, 64 + j);
    }
    forall j | 46 <= j < 64 && m2[j] ensures Pattern(0, 64 + offset + 64 + j) {
      WrapPattern(0, offset, 64 + j);
    }
  }

  lemma StartWindow3(offset: nat, m1: Limb, m2: Limb, m3: Limb)
    requires Advanced3(N1, N2, NT, offset % 182, m1, m2, m3)
    ensures Window3(m1, m2, m3, 64 + offset)
  {
    hide Pattern;
    Constants3();
    forall j | 0 <= j < 64
      ensures m1[j] == Pattern(1, 64 + offset + j) && m2[j] == Pattern(1, 64 + offset + 64 + j)
    {
      WrapPattern(1, offset, j);
      WrapPattern(1, offset, 64 + j);
    }
    forall j | 0 <= j < 54 ensures m3[j] == Pattern(1, 64 + offset + 128 + j) {
      WrapPattern(1, offset, 128 + j);
    }
    forall j | 54 <= j < 64 && m3[j] ensures Pattern(1, 64 + offset + 128 + j) {
      WrapPattern(1, offset, 128 + j);
    }
  }

  /** The ROTATE1 macro advances the first window by a limb. */
  lemma RotateWindow2(m1: Limb, m2: Limb, b: nat)
    requires Window2(m1, m2, b)
    ensures Window2(Or(Shl(m1, 110 - 64), m2), Shr(m1, 2 * 64 - 110), b + 64)
  {
    hide Pattern;
    var n1, n2 := Or(Shl(m1, 110 - 64), m2), Shr(m1, 2 * 64 - 110);
    forall j | 0 <= j < 64 ensures n1[j] == Pattern(0, b + 64 + j) {
      if j >= 46 { PatternPeriod(0, b + j - 46, 1); }
    }
    forall j | 0 <= j < 46 ensures n2[j] == Pattern(0, b + 64 + 64 + j) {
      PatternPeriod(0, b + j + 18, 1);
    }
  }

  /** The ROTATE2 macro advances the second window by two limbs. */
  lemma RotateWindow3(m1: Limb, m2: Limb, m3: Limb, b: nat)
    requires Window3(m1, m2, m3, b)
    ensures Window3(Or(Shl(m1, 182 - 2 * 64), m3), Or(Shl(m2, 182 - 2 * 64), Shr(m1, 3 * 64 - 182)),
                    Shr(m2, 3 * 64 - 182), b + 128)
  {
    hide Pattern;
    var n1 := Or(Shl(m1, 182 - 2 * 64), m3);
    var n2 := Or(Shl(m2, 182 - 2 * 64), Shr(m1, 3 * 64 - 182));
    var n3 := Shr(m2, 3 * 64 - 182);
    forall j | 0 <= j < 64
      ensures n1[j] == Pattern(1, b + 128 + j) && n2[j] == Pattern(1, b + 128 + 64 + j)
    {
      if j >= 54 { PatternPeriod(1, b + j - 54, 1); }
      PatternPeriod(1, b + j + 10, 1);
    }
    forall j | 0 <= j < 54 ensures n3[j] == Pattern(1, b + 128 + 128 + j) {
      PatternPeriod(1, b + j + 74, 1);
    }
  }

  ghost predicate Filled(x: Limb, b: nat) {
    forall k :: 0 <= k < 64 ==> x[k] == SmallMultiple(b + k)
  }

  lemma PatternsTogether(b: nat)
    ensures SmallMultiple(b) == (Pattern(0, b) || Pattern(1, b))
  {
  }

  lemma CombineFirst(m11: Limb, m12: Limb, m21: Limb, m22: Limb, m23: Limb, b: nat)
    requires Window2(m11, m12, b) && Window3(m21, m22, m23, b)
    ensures Filled(Or(m11, m21), b)
  {
    hide Pattern, SmallMultiple;
    forall k | 0 <= k < 64 ensures Or(m11, m21)[k] == SmallMultiple(b + k) {
      PatternsTogether(b + k);
    }
  }

  lemma CombineSecond(m11: Limb, m12: Limb, m21: Limb, m22: Limb, m23: Limb, b: nat)
    requires Window2(m11, m12, b + 64) && Window3(m21, m22, m23, b)
    ensures Filled(Or(m11, m22), b + 64)
  {
    hide Pattern, SmallMultiple;
    forall k | 0 <= k < 64 ensures Or(m11, m22)[k] == SmallMultiple(b + 64 + k) {
      PatternsTogether(b + 64 + k);
    }
  }

  lemma FirstWindows()
    ensures Window2(M1, MT, 64) && Window3(N1, N2, NT, 64)
  {
    hide Pattern;
    Constants2();
    Constants3();
    forall j | 0 <= j < 64
      ensures M1[j] == Pattern(0, 64 + j) && N1[j] == Pattern(1, 64 + j) && N2[j] == Pattern(1, 128 + j)
    {
      assert At2(M1, MT, j) == M1[j] && At3(N1, N2, NT, j) == N1[j] && At3(N1, N2, NT, j + 64) == N2[j];
    }
    forall j | 0 <= j < 46 ensures MT[j] == Pattern(0, 128 + j) {
      assert At2(M1, MT, j + 64) == MT[j];
    }
    forall j | 0 <= j < 54 ensures NT[j] == Pattern(1, 192 + j) {
      assert At3(N1, N2, NT, j + 128) == NT[j];
    }
  }

  /** The windows to start from, at offset 0 or through the SET_OFF macros. */
  method StartWindows(offset: nat) returns (m11: Limb, m12: Limb, m21: Limb, m22: Limb, m23: Limb)
    ensures Window2(m11, m12, 64 + offset) && Window3(m21, m22, m23, 64 + offset)
  {
    hide Window2, Window3, Advanced2, Advanced3;
    if offset == 0 {
      m11, m12 := M1, MT;
      m21, m22, m23 := N1, N2, NT;
      FirstWindows();
    } else {
      Constants2();
      Constants3();
      m11, m12 := SetOff1(M1, MT, offset % 110);
      m21, m22, m23 := SetOff2(N1, N2, NT, offset % 182);
      StartWindow2(offset, m11, m12);
      StartWindow3(offset, m21, m22, m23);
    }
  }

  /** Mark the multiples of 5, 7, 11 and 13 in limbs limbs from start on; the
      first bit written stands for entry 64 + offset. */
  method FillBitpattern(a: array<Limb>, start: nat, limbs: nat, offset: nat) returns (i: nat)
    requires 1 <= limbs && start + limbs <= a.Length
    modifies a
    ensures i == 4
    ensures forall j :: 0 <= j < limbs ==> Filled(a[start + j], 64 + offset + 64 * j)
    ensures forall j :: 0 <= j < a.Length && !(start <= j < start + limbs) ==> a[j] == old(a[j])
  {
    hide Window2, Window3, Filled, Shl, Shr, Or;
    var m11, m12, m21, m22, m23 := StartWindows(offset);
    var d := 0;
    while true
      invariant 0 <= d < limbs
      invariant Window2(m11, m12, 64 + offset + 64 * d)
      invariant Window3(m21, m22, m23, 64 + offset + 64 * d)
      invariant forall j :: 0 <= j < d ==> Filled(a[start + j], 64 + offset + 64 * j)
      invariant forall j :: 0 <= j < a.Length && !(start <= j < start + limbs) ==> a[j] == old(a[j])
      decreases limbs - d
    {
      ghost var b := 64 + offset + 64 * d;
      CombineFirst(m11, m12, m21, m22, m23, b);
      a[start + d] := Or(m11, m21);
      if d + 1 == limbs { break; }
      RotateWindow2(m11, m12, b);
      m11, m12 := Or(Shl(m11, 110 - 64), m12), Shr(m11, 2 * 64 - 110);
      CombineSecond(m11, m12, m21, m22, m23, b);
      a[start + d + 1] := Or(m11, m22);
      if d + 2 == limbs { break; }
      RotateWindow2(m11, m12, b + 64);
      m11, m12 := Or(Shl(m11, 110 - 64), m12), Shr(m11, 2 * 64 - 110);
      RotateWindow3(m21, m22, m23, b);
      m21, m22, m23 := Or(Shl(m21, 182 - 2 * 64), m23),
        Or(Shl(m22, 182 - 2 * 64), Shr(m21, 3 * 64 - 182)), Shr(m22, 3 * 64 - 182);
      d := d + 2;
    }
    return 4;
  }
}
