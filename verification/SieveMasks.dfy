/** The pre-sieved patterns of primesieve.c: two constant bit strings with
    periods 110 and 182 that mark the multiples of 5, 11 and of 7, 13. */
module SieveMasks {
  import opened Arith
  import opened Limbs
  import opened SieveMath


  /** Bit b of pattern w: multiples of 5 or 11, multiples of 7 or 13, or the
      composites among the first 64 entries. */
  predicate Pattern(w: nat, b: nat) {
    if w == 0 then BitToN(b) % 5 == 0 || BitToN(b) % 11 == 0
    else if w == 1 then BitToN(b) % 7 == 0 || BitToN(b) % 13 == 0
    else b >= 4 && SmallMultiple(b)
  }

  predicate SmallMultiple(b: nat) {
    var n := BitToN(b);
    n % 5 == 0 || n % 11 == 0 || n % 7 == 0 || n % 13 == 0
  }

  /** Half the period of each pattern in numbers: 2 * 5 * 11 and 2 * 7 * 13 bits. */
  lemma PatternPeriod(w: nat, b: nat, k: nat)
    requires w < 2
    ensures Pattern(w, b + k * (if w == 0 then 110 else 182)) == Pattern(w, b)
  {
    if w == 0 {
      BitShift(b, 55 * k);
      ModAddMul(BitToN(b), 66 * k, 5);
      ModAddMul(BitToN(b), 30 * k, 11);
    } else {
      BitShift(b, 91 * k);
      ModAddMul(BitToN(b), 78 * k, 7);
      ModAddMul(BitToN(b), 42 * k, 13);
    }
  }

  // ----- the constants hold the patterns

  /** The low k bits of n are pattern w from bit b on. */
  predicate Holds(w: nat, n: nat, b: nat, k: nat)
    decreases k
  {
    k == 0 || ((n % 2 == 1) == Pattern(w, b) && Holds(w, n / 2, b + 1, k - 1))
  }

  lemma {:induction false} HoldsMeaning(w: nat, n: nat, b: nat, k: nat, j: nat)
    requires Holds(w, n, b, k) && j < k
    ensures NatBit(n, j) == Pattern(w, b + j)
    decreases k
  {
    if j > 0 { HoldsMeaning(w, n / 2, b + 1, k - 1, j - 1); }
  }

  lemma HoldsNothing(w: nat, b: nat)
    ensures Holds(w, 0, b, 0)
  {
  }

  lemma HoldsTwoZeros(w: nat, b: nat)
    requires !Pattern(w, b) && !Pattern(w, b + 1)
    ensures Holds(w, 0, b, 2)
  {
    assert Holds(w, 0, b + 1, 1);
  }

  lemma PrependNibble(w: nat, hi: nat, d: nat, b: nat, k: nat)
    requires d < 16 && Holds(w, hi, b + 4, k)
    requires (d % 2 == 1) == Pattern(w, b)
    requires ((d / 2) % 2 == 1) == Pattern(w, b + 1)
    requires ((d / 4) % 2 == 1) == Pattern(w, b + 2)
    requires (d / 8 == 1) == Pattern(w, b + 3)
    ensures Holds(w, hi * 16 + d, b, k + 4)
  {
    hide Holds, Pattern;
    PrependBit(w, hi, d / 8, b + 3, k);
    PrependBit(w, hi * 2 + d / 8, d / 4 % 2, b + 2, k + 1);
    PrependBit(w, hi * 4 + d / 4, d / 2 % 2, b + 1, k + 2);
    PrependBit(w, hi * 8 + d / 2, d % 2, b, k + 3);
  }

  lemma PrependBit(w: nat, hi: nat, d: nat, b: nat, k: nat)
    requires d < 2 && Holds(w, hi, b + 1, k) && (d == 1) == Pattern(w, b)
    ensures Holds(w, hi * 2 + d, b, k + 1)
  {
    hide Pattern;
    assert (hi * 2 + d) / 2 == hi;
  }

  lemma SeedHoldsA()
    ensures Holds(2, 0x3294, 48, 16)
  {
    hide Holds;
    HoldsNothing(2, 64);
    PrependNibble(2, 0x0, 3, 60, 0);
    PrependNibble(2, 0x3, 2, 56, 4);
    PrependNibble(2, 0x32, 9, 52, 8);
    PrependNibble(2, 0x329, 4, 48, 12);
  }

  lemma SeedHoldsB()
    ensures Holds(2, 0x3294c9e0, 32, 32)
  {
    hide Holds;
    SeedHoldsA();
    PrependNibble(2, 0x3294, 12, 44, 16);
    PrependNibble(2, 0x3294c, 9, 40, 20);
    PrependNibble(2, 0x3294c9, 14, 36, 24);
    PrependNibble(2, 0x3294c9e, 0, 32, 28);
  }

  lemma SeedHoldsC()
    ensures Holds(2, 0x3294c9e06912, 16, 48)
  {
    hide Holds;
    SeedHoldsB();
    PrependNibble(2, 0x3294c9e0, 6, 28, 32);
    PrependNibble(2, 0x3294c9e06, 9, 24, 36);
    PrependNibble(2, 0x3294c9e069, 1, 20, 40);
    PrependNibble(2, 0x3294c9e0691, 2, 16, 44);
  }

  /** SIEVE_SEED marks the composites among the first 64 entries. */
  lemma SeedHolds()
    ensures Holds(2, 0x3294c9e069128480, 0, 64)
  {
    hide Holds;
    SeedHoldsC();
    PrependNibble(2, 0x3294c9e06912, 8, 12, 48);
    PrependNibble(2, 0x3294c9e069128, 4, 8, 52);
    PrependNibble(2, 0x3294c9e0691284, 8, 4, 56);
    PrependNibble(2, 0x3294c9e06912848, 0, 0, 60);
  }

  lemma Mask1HoldsAHalf()
    ensures Holds(0, 0x8121, 112, 16)
  {
    hide Holds;
    HoldsNothing(0, 128);
    PrependNibble(0, 0x0, 8, 124, 0);
    PrependNibble(0, 0x8, 1, 120, 4);
    PrependNibble(0, 0x81, 2, 116, 8);
    PrependNibble(0, 0x812, 1, 112, 12);
  }

  lemma Mask1HoldsA()
    ensures Holds(0, 0x81214a12, 96, 32)
  {
    hide Holds;
    Mask1HoldsAHalf();
    PrependNibble(0, 0x8121, 4, 108, 16);
    PrependNibble(0, 0x81214, 10, 104, 20);
    PrependNibble(0, 0x81214a, 1, 100, 24);
    PrependNibble(0, 0x81214a1, 2, 96, 28);
  }

  lemma Mask1HoldsHalf()
    ensures Holds(0, 0x81214a120489, 80, 48)
  {
    hide Holds;
    Mask1HoldsA();
    PrependNibble(0, 0x81214a12, 0, 92, 32);
    PrependNibble(0, 0x81214a120, 4, 88, 36);
    PrependNibble(0, 0x81214a1204, 8, 84, 40);
    PrependNibble(0, 0x81214a12048, 9, 80, 44);
  }

  /** SIEVE_MASK1 and SIEVE_MASKT continue the multiples of 5 and 11 from bit 64. */
  lemma Mask1Holds()
    ensures Holds(0, 0x81214a1204892058, 64, 64)
  {
    hide Holds;
    Mask1HoldsHalf();
    PrependNibble(0, 0x81214a120489, 2, 76, 48);
    PrependNibble(0, 0x81214a1204892, 0, 72, 52);
    PrependNibble(0, 0x81214a12048920, 5, 68, 56);
    PrependNibble(0, 0x81214a120489205, 8, 64, 60);
  }

  lemma MaskTHoldsA()
    ensures Holds(0, 0xc8130, 152, 22)
  {
    hide Holds;
    HoldsTwoZeros(0, 172);
    PrependNibble(0, 0x0, 12, 168, 2);
    PrependNibble(0, 0xc, 8, 164, 6);
    PrependNibble(0, 0xc8, 1, 160, 10);
    PrependNibble(0, 0xc81, 3, 156, 14);
    PrependNibble(0, 0xc813, 0, 152, 18);
  }

  /** The tail fills the period of 110 bits. */
  lemma MaskTHolds()
    ensures Holds(0, 0xc8130681244, 128, 46)
  {
    hide Holds;
    MaskTHoldsA();
    PrependNibble(0, 0xc8130, 6, 148, 22);
    PrependNibble(0, 0xc81306, 8, 144, 26);
    PrependNibble(0, 0xc813068, 1, 140, 30);
    PrependNibble(0, 0xc8130681, 2, 136, 34);
    PrependNibble(0, 0xc81306812, 4, 132, 38);
    PrependNibble(0, 0xc813068124, 4, 128, 42);
  }

  lemma TwoMask1HoldsAHalf()
    ensures Holds(1, 0x9402, 112, 16)
  {
    hide Holds;
    HoldsNothing(1, 128);
    PrependNibble(1, 0x0, 9, 124, 0);
    PrependNibble(1, 0x9, 4, 120, 4);
    PrependNibble(1, 0x94, 0, 116, 8);
    PrependNibble(1, 0x940, 2, 112, 12);
  }

  lemma TwoMask1HoldsA()
    ensures Holds(1, 0x9402180c, 96, 32)
  {
    hide Holds;
    TwoMask1HoldsAHalf();
    PrependNibble(1, 0x9402, 1, 108, 16);
    PrependNibble(1, 0x94021, 8, 104, 20);
    PrependNibble(1, 0x940218, 0, 100, 24);
    PrependNibble(1, 0x9402180, 12, 96, 28);
  }

  lemma TwoMask1HoldsHalf()
    ensures Holds(1, 0x9402180c4023, 80, 48)
  {
    hide Holds;
    TwoMask1HoldsA();
    PrependNibble(1, 0x9402180c, 4, 92, 32);
    PrependNibble(1, 0x9402180c4, 0, 88, 36);
    PrependNibble(1, 0x9402180c40, 2, 84, 40);
    PrependNibble(1, 0x9402180c402, 3, 80, 44);
  }

  /** The three words for 7 and 13. */
  lemma TwoMask1Holds()
    ensures Holds(1, 0x9402180c40230184, 64, 64)
  {
    hide Holds;
    TwoMask1HoldsHalf();
    PrependNibble(1, 0x9402180c4023, 0, 76, 48);
    PrependNibble(1, 0x9402180c40230, 1, 72, 52);
    PrependNibble(1, 0x9402180c402301, 8, 68, 56);
    PrependNibble(1, 0x9402180c4023018, 4, 64, 60);
  }

  lemma TwoMask2HoldsAHalf()
    ensures Holds(1, 0x285, 176, 16)
  {
    hide Holds;
    HoldsNothing(1, 192);
    PrependNibble(1, 0x0, 0, 188, 0);
    PrependNibble(1, 0x0, 2, 184, 4);
    PrependNibble(1, 0x2, 8, 180, 8);
    PrependNibble(1, 0x28, 5, 176, 12);
  }

  lemma TwoMask2HoldsA()
    ensures Holds(1, 0x2850210, 160, 32)
  {
    hide Holds;
    TwoMask2HoldsAHalf();
    PrependNibble(1, 0x285, 0, 172, 16);
    PrependNibble(1, 0x2850, 2, 168, 20);
    PrependNibble(1, 0x28502, 1, 164, 24);
    PrependNibble(1, 0x285021, 0, 160, 28);
  }

  lemma TwoMask2HoldsHalf()
    ensures Holds(1, 0x28502108840, 144, 48)
  {
    hide Holds;
    TwoMask2HoldsA();
    PrependNibble(1, 0x2850210, 8, 156, 32);
    PrependNibble(1, 0x28502108, 8, 152, 36);
    PrependNibble(1, 0x285021088, 4, 148, 40);
    PrependNibble(1, 0x2850210884, 0, 144, 44);
  }

  /** The second word. */
  lemma TwoMask2Holds()
    ensures Holds(1, 0x285021088402120, 128, 64)
  {
    hide Holds;
    TwoMask2HoldsHalf();
    PrependNibble(1, 0x28502108840, 2, 140, 48);
    PrependNibble(1, 0x285021088402, 1, 136, 52);
    PrependNibble(1, 0x2850210884021, 2, 132, 56);
    PrependNibble(1, 0x28502108840212, 0, 128, 60);
  }

  lemma TwoMaskTHoldsA()
    ensures Holds(1, 0xa4121, 220, 26)
  {
    hide Holds;
    HoldsTwoZeros(1, 244);
    PrependNibble(1, 0x0, 0, 240, 2);
    PrependNibble(1, 0x0, 10, 236, 6);
    PrependNibble(1, 0xa, 4, 232, 10);
    PrependNibble(1, 0xa4, 1, 228, 14);
    PrependNibble(1, 0xa41, 2, 224, 18);
    PrependNibble(1, 0xa412, 1, 220, 22);
  }

  lemma TwoMaskTHoldsHalf()
    ensures Holds(1, 0xa41210084, 204, 42)
  {
    hide Holds;
    TwoMaskTHoldsA();
    PrependNibble(1, 0xa4121, 0, 216, 26);
    PrependNibble(1, 0xa41210, 0, 212, 30);
    PrependNibble(1, 0xa412100, 8, 208, 34);
    PrependNibble(1, 0xa4121008, 4, 204, 38);
  }

  /** The tail fills the period of 182 bits. */
  lemma TwoMaskTHolds()
    ensures Holds(1, 0xa41210084421, 192, 54)
  {
    hide Holds;
    TwoMaskTHoldsHalf();
    PrependNibble(1, 0xa41210084, 4, 200, 42);
    PrependNibble(1, 0xa412100844, 2, 196, 46);
    PrependNibble(1, 0xa4121008442, 1, 192, 50);
  }
}
