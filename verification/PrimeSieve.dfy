/** The bit-packed block sieve of primesieve.c. */
module PrimeSieve {
  import opened Arith
  import opened Primes
  import opened PrimeGaps
  import opened Limbs
  import opened SieveMath
  import opened SieveMasks
  import opened SieveFill

  const SEED_LIMIT: nat := 210
  const BLOCK_SIZE: nat := 2048

  ghost function Bit(a: array<Limb>, b: nat): bool
    requires b / 64 < a.Length
    reads a
  {
    a[b / 64][b % 64]
  }

  /** The test (x & mask) != 0. */
  predicate Meets(x: Limb, mask: Limb) {
    exists j :: 0 <= j < 64 && x[j] && mask[j]
  }

  // ----- striking out one progression

  method SetBit(a: array<Limb>, start: nat, lindex: nat, lmask: Limb)
    requires start + lindex / 64 < a.Length && lmask == OneHot(lindex % 64)
    modifies a
    ensures forall x: nat :: x / 64 < a.Length ==> Bit(a, x) == (old(Bit(a, x)) || x == 64 * start + lindex)
  {
    var k := start + lindex / 64;
    a[k] := Or(a[k], lmask);
    forall x: nat | x / 64 < a.Length
      ensures Bit(a, x) == (old(Bit(a, x)) || x == 64 * start + lindex)
    {
      assert x == 64 * start + lindex <==> x / 64 == k && x % 64 == lindex % 64;
    }
  }

  lemma OnLineNext(l: nat, step: nat, x: int, y: int)
    requires 1 <= step && OnLine(x, l, step)
    ensures OnLine(x + step, l, step)
    ensures x < y < x + step ==> !OnLine(y, l, step)
  {
    ModAddMul(x - l, 1, step);
    if x < y < x + step && OnLine(y, l, step) {
      var k := CongWitness(y - l, x - l, step);
      assert y - x == k * step;
      if k >= 1 { MulMono(1, k, step); } else { MulMono(k, 0, step); }
    }
  }

  lemma OnLineStart(l: nat, step: nat, y: int)
    requires 1 <= step
    ensures OnLine(l, l, step)
  {
    SmallMod(0, step);
  }

  /** Absolute bit x is on the line and below the relative index end. */
  ghost predicate Marked(x: nat, start: nat, end: nat, l: nat, step: nat)
    requires 1 <= step
  {
    64 * start <= x < 64 * start + end && OnLine(x - 64 * start, l, step)
  }

  lemma NothingMarkedYet(x: nat, start: nat, l: nat, step: nat)
    requires 1 <= step
    ensures !Marked(x, start, l, l, step)
  {
  }

  lemma OneMoreMarked(x: nat, start: nat, lindex: nat, l: nat, step: nat)
    requires 1 <= step && OnLine(lindex, l, step)
    ensures Marked(x, start, lindex + step, l, step) <==>
      Marked(x, start, lindex, l, step) || x == 64 * start + lindex
  {
    OnLineNext(l, step, lindex, x - 64 * start);
  }

  lemma AllMarked(x: nat, start: nat, bits: nat, lindex: nat, l: nat, step: nat)
    requires 1 <= step && OnLine(lindex, l, step) && bits < lindex
    requires forall y :: bits < y < lindex ==> !OnLine(y, l, step)
    ensures Marked(x, start, lindex, l, step) <==> Marked(x, start, bits + 1, l, step)
  {
  }

  lemma RotateBy(lindex: nat, step: nat)
    requires step % 64 != 0
    ensures Or(Shl(OneHot(lindex % 64), step % 64), Shr(OneHot(lindex % 64), 64 - step % 64))
         == OneHot((lindex + step) % 64)
  {
    hide OneHot, Or, Shl, Shr;
    RotateOneHot(lindex % 64, step % 64);
    SumMod64(lindex, step);
  }

  lemma SumMod64(x: nat, y: nat)
    ensures (x % 64 + y % 64) % 64 == (x + y) % 64
  {
    ModAddMul(x % 64 + y % 64, x / 64 + y / 64, 64);
  }

  /** Mark indices l, l + step, ... up to bits, relative to limb start, with a mask
      that rotates along. */
  method StrikeLine(a: array<Limb>, start: nat, l: nat, step: nat, bits: nat)
    requires 1 <= step && step % 64 != 0 && start + bits / 64 < a.Length
    modifies a
    ensures forall x: nat :: x / 64 < a.Length ==>
      Bit(a, x) == (old(Bit(a, x)) || Marked(x, start, bits + 1, l, step))
  {
    hide OnLine, Bit, Marked, OneHot, Or, Shl, Shr;
    var lindex := l;
    var maskrot := step % 64;
    var lmask := OneHot(lindex % 64);
    OnLineStart(l, step, 0);
    forall x: nat | x / 64 < a.Length ensures !Marked(x, start, l, l, step) {
      NothingMarkedYet(x, start, l, step);
    }
    forall y | bits < y < l ensures !OnLine(y, l, step) {
      LineBelow(y, l, step);
    }
    while lindex <= bits
      invariant OnLine(lindex, l, step) && l <= lindex
      invariant lmask == OneHot(lindex % 64)
      invariant forall x: nat :: x / 64 < a.Length ==>
        Bit(a, x) == (old(Bit(a, x)) || Marked(x, start, lindex, l, step))
      invariant forall y :: bits < y < lindex ==> !OnLine(y, l, step)
      decreases bits + step - lindex
    {
      SetBit(a, start, lindex, lmask);
      forall x: nat | x / 64 < a.Length
        ensures Bit(a, x) == (old(Bit(a, x)) || Marked(x, start, lindex + step, l, step))
      {
        OneMoreMarked(x, start, lindex, l, step);
      }
      forall y | bits < y < lindex + step ensures !OnLine(y, l, step) {
        OnLineNext(l, step, lindex, y);
      }
      OnLineNext(l, step, lindex, lindex);
      RotateBy(lindex, step);
      lmask := Or(Shl(lmask, maskrot), Shr(lmask, 64 - maskrot));
      lindex := lindex + step;
    }
    forall x: nat | x / 64 < a.Length
      ensures Marked(x, start, lindex, l, step) == Marked(x, start, bits + 1, l, step)
    {
      AllMarked(x, start, bits, lindex, l, step);
    }
  }

  lemma LineBelow(x: int, l: nat, step: nat)
    requires 1 <= step
    ensures OnLine(x, l, step) ==> l <= x
  {
  }

  // ----- the first block

  lemma SmallMultipleIsSieved(b: nat)
    requires 4 <= b
    ensures SmallMultiple(b) <==> SievedBy(b, 13)
  {
    var n := BitToN(b);
    assert 17 <= n;
    if SmallMultiple(b) {
      var d := if n % 5 == 0 then 5 else if n % 7 == 0 then 7 else if n % 11 == 0 then 11 else 13;
      assert Divides(d, n);
    }
    if SievedBy(b, 13) {
      var p := LeastFactorFacts(b);
      SpecialUpTo13(p);
    }
  }

  lemma SpecialUpTo13(p: nat)
    requires 5 <= p <= 13 && NoTwoThree(p)
    ensures p == 5 || p == 7 || p == 11 || p == 13
  {
  }

  lemma FirstEntriesPrime(b: nat)
    requires b < 4
    ensures IsPrime(BitToN(b)) && !SievedBy(b, 13)
  {
    var n := BitToN(b);
    assert n == 5 || n == 7 || n == 11 || n == 13;
    forall d | 2 <= d < n ensures !Divides(d, n) {
    }
  }

  /** Shifting ones up from position k of a limb. */
  method SetHighBits(a: array<Limb>, limb: nat, k: nat)
    requires limb < a.Length && k < 64
    modifies a
    ensures forall x: nat :: x / 64 < a.Length ==>
      Bit(a, x) == (old(Bit(a, x)) || (x / 64 == limb && k <= x % 64))
    ensures forall j :: 0 <= j < a.Length && j != limb ==> a[j] == old(a[j])
  {
    a[limb] := Or(a[limb], Shl(AllOnes(), k));
  }

  /** The array before the main loop: entries up to bits are marked when they have
      a least factor up to 13; entries above are marked. */
  method SeedBlock(a: array<Limb>, bits: nat) returns (i: nat)
    requires bits / 64 < a.Length
    modifies a
    ensures bits >= 64 ==> i == 4
    ensures forall b: nat :: b <= bits ==> Bit(a, b) == SievedBy(b, 13)
    ensures forall b: nat :: bits < b && b / 64 <= bits / 64 ==> Bit(a, b)
    ensures forall j :: bits / 64 < j < a.Length ==> a[j] == old(a[j])
  {
    hide SievedBy, Filled, FromNat;
    var limbs := bits / 64;
    i := 0;
    if limbs != 0 {
      i := FillBitpattern(a, 1, limbs, 0);
    }
    a[0] := FromNat(0x3294C9E069128480);
    forall b: nat | b / 64 <= limbs
      ensures Bit(a, b) == SievedBy(b, 13)
    {
      if b < 64 {
        SeedBit(b);
      } else {
        FilledBit(a[1 + (b / 64 - 1)], b);
      }
    }
    if (bits + 1) % 64 != 0 {
      SetHighBits(a, limbs, (bits + 1) % 64);
    }
  }

  lemma SeedBit(b: nat)
    requires b < 64
    ensures FromNat(0x3294C9E069128480)[b] == SievedBy(b, 13)
  {
    hide SievedBy, BitToN, NatBit;
    SeedHolds();
    HoldsMeaning(2, 0x3294C9E069128480, 0, 64, b);
    if b < 4 { FirstEntriesPrime(b); } else { SmallMultipleIsSieved(b); }
  }

  lemma FilledBit(x: Limb, b: nat)
    requires 64 <= b && Filled(x, 64 + 0 + 64 * (b / 64 - 1))
    ensures x[b % 64] == SievedBy(b, 13)
  {
    hide SievedBy, SmallMultiple;
    assert x[b % 64] == SmallMultiple(64 + 0 + 64 * (b / 64 - 1) + b % 64);
    SmallMultipleIsSieved(b);
  }

  lemma StepRotates(i: nat)
    ensures (2 * IdToN(i)) % 64 != 0 && 1 <= IdToN(i)
  {
  }

  /** Striking the two lines of a prime id advances the state of bit x. */
  lemma StruckState(x: nat, i: nat, bits: nat)
    requires 1 <= i && x <= bits && IsPrime(IdToN(i))
    ensures 0 <= SquareIndex(i)
    ensures SievedBy(x, IdToN(i)) == (SievedBy(x, IdToN(i - 1))
      || Marked(x, 0, bits + 1, SquareIndex(i), 2 * IdToN(i)) || Marked(x, 0, bits + 1, NextIndex(i), 2 * IdToN(i)))
  {
    hide SievedBy, OnLine, IdToN, SquareIndex, NextIndex;
    IdAtLeast(i);
    SquareIndexMeaning(i);
    PrimeIdAddsMultiples(x, i);
    MultiplesAreLines(x, i);
  }

  lemma MeetsOneHot(x: Limb, k: nat)
    requires k < 64
    ensures Meets(x, OneHot(k)) <==> x[k]
  {
    assert x[k] && OneHot(k)[k] ==> Meets(x, OneHot(k));
  }

  /** The id of the prime that stops a scan. */
  function IdOf(r: nat): nat
    requires 5 <= r
  {
    NToBit(r) + 1
  }

  lemma IdOfPrime(r: nat)
    requires IsPrime(r) && 5 <= r
    ensures IdToN(IdOf(r)) == r
  {
    PrimeSpecial(r);
    BitOfSpecial(r);
    IdIsNextBit(IdOf(r));
  }

  /** A line beyond the last bit belongs to a number whose square is too large. */
  lemma BeyondLast(i: nat, bits: nat)
    requires 1 <= i
    ensures 0 <= SquareIndex(i)
    ensures bits < SquareIndex(i) <==> BitToN(bits) < IdToN(i) * IdToN(i)
  {
    SquareIndexMeaning(i);
    BitOrder(bits, SquareIndex(i));
  }

  /** The scan starts before the id of r, which lies within the block. */
  lemma StartBefore(r: nat, bits: nat)
    requires IsPrime(r) && 17 <= r <= BitToN(bits)
    ensures 5 <= IdOf(r) <= bits + 1
    ensures IdToN(4) == 13
  {
    NToBitMeaning(r, 4);
    IdOfPrime(r);
    IdIsNextBit(IdOf(r));
    BitOrder(bits, IdOf(r) - 1);
  }

  lemma NotMarkedBeyond(x: nat, bits: nat, l: nat, step: nat)
    requires 1 <= step && bits < x
    ensures !Marked(x, 0, bits + 1, l, step)
  {
  }

  /** A sieved id is composite. */
  lemma SetMeansComposite(i: nat)
    requires 1 <= i && SievedBy(i - 1, IdToN(i - 1))
    ensures !IsPrime(IdToN(i))
  {
    IdIsNextBit(i);
  }

  /** Moving the scan mask up by one, mask << 1 | mask >> 63; bit 0 comes round
      exactly when the scan enters the next limb. */
  method RotateMask(mask: Limb, ghost i: nat) returns (r: Limb)
    requires mask == OneHot(i % 64)
    ensures r == OneHot((i + 1) % 64)
    ensures i / 64 + (if r[0] then 1 else 0) == (i + 1) / 64
  {
    hide Or, Shl, Shr;
    RotateOneHot(i % 64, 1);
    NextLimb(i);
    r := Or(Shl(mask, 1), Shr(mask, 63));
  }

  lemma NextLimb(i: nat)
    ensures (i % 64 + 1) % 64 == (i + 1) % 64
    ensures i / 64 + (if (i + 1) % 64 == 0 then 1 else 0) == (i + 1) / 64
  {
  }

  /** Strike out the multiples of a prime id in the first block. */
  method StrikeFirst(a: array<Limb>, bits: nat, i: nat)
    requires bits / 64 < a.Length && 1 <= i && IsPrime(IdToN(i)) && 0 <= SquareIndex(i)
    requires forall b: nat :: b <= bits ==> Bit(a, b) == SievedBy(b, IdToN(i - 1))
    modifies a
    ensures forall b: nat :: b <= bits ==> Bit(a, b) == SievedBy(b, IdToN(i))
    ensures forall x: nat :: bits < x && x / 64 < a.Length ==> Bit(a, x) == old(Bit(a, x))
  {
    hide SievedBy, IsPrime, IdToN, BitToN, SquareIndex, NextIndex, Marked;
    StepRotates(i);
    var step := 2 * IdToN(i);
    StrikeLine(a, 0, SquareIndex(i), step, bits);
    StrikeLine(a, 0, NextIndex(i), step, bits);
    forall b: nat | b <= bits ensures Bit(a, b) == SievedBy(b, IdToN(i)) {
      StruckState(b, i, bits);
    }
    forall x: nat | bits < x && x / 64 < a.Length
      ensures !Marked(x, 0, bits + 1, SquareIndex(i), step) && !Marked(x, 0, bits + 1, NextIndex(i), step)
    {
      NotMarkedBeyond(x, bits, SquareIndex(i), step);
      NotMarkedBeyond(x, bits, NextIndex(i), step);
    }
  }

  /** The main loop over the first block.  r is a prime among the entries whose
      square is beyond the last one: it stops the scan. */
  method SieveFirst(a: array<Limb>, bits: nat, i0: nat, ghost r: nat)
    requires bits / 64 < a.Length && i0 == 4
    requires IsPrime(r) && 17 <= r <= BitToN(bits) < r * r
    requires forall b: nat :: b <= bits ==> Bit(a, b) == SievedBy(b, 13)
    modifies a
    ensures forall b: nat :: b <= bits ==> Bit(a, b) == !IsPrime(BitToN(b))
    ensures forall x: nat :: bits < x && x / 64 < a.Length ==> Bit(a, x) == old(Bit(a, x))
  {
    hide SievedBy, IsPrime, IdToN, BitToN, SquareIndex, NextIndex, Marked, Meets, OneHot, Shl, Shr, Or;
    var i := i0;
    var mask := OneHot(i);
    var index := 0;
    ghost var last := IdOf(r);
    IdOfPrime(r);
    StartBefore(r, bits);
    while true
      invariant 4 <= i < last
      invariant mask == OneHot(i % 64) && index == i / 64
      invariant forall b: nat :: b <= bits ==> Bit(a, b) == SievedBy(b, IdToN(i))
      invariant forall x: nat :: bits < x && x / 64 < a.Length ==> Bit(a, x) == old(Bit(a, x))
      decreases last - i
    {
      MeetsOneHot(a[index], i % 64);
      i := i + 1;
      if !Meets(a[index], mask) {
        UnsievedIsPrime(i);
        BeyondLast(i, bits);
        var lindex := SquareIndex(i);
        if lindex > bits {
          forall b: nat | b <= bits ensures SievedBy(b, IdToN(i - 1)) == !IsPrime(BitToN(b)) {
            FinishedSieve(b, i, bits);
          }
          break;
        }
        StrikeFirst(a, bits, i);
      } else {
        SetMeansComposite(i);
        forall b: nat | b <= bits ensures SievedBy(b, IdToN(i)) == SievedBy(b, IdToN(i - 1)) {
          CompositeIdAddsNothing(b, i);
        }
      }
      mask := RotateMask(mask, i - 1);
      index := index + (if mask[0] then 1 else 0);
    }
  }

  // ----- the prime that stops a scan

  lemma StopPrime(n: nat, top: nat, s: nat, t: nat) returns (r: nat)
    requires 14 <= s && 2 <= t && s * t < Pow(2, t - 1) && s * t <= n && top < (s + 1) * (s + 1)
    ensures IsPrime(r) && 17 <= r <= n && top < r * r
  {
    r := PrimeBetween(s, t);
    PrimeSpecial(r);
    assert r != 15 && r != 16;
    MulMono(s + 1, r, s + 1);
    MulMono(s + 1, r, r);
  }

  lemma {:induction false} SquareBelowPower(s: nat)
    requires 14 <= s
    ensures s * s < Pow(2, s - 1)
    decreases s
  {
    if s == 14 {
      assert Pow(2, 13) == 8192;
    } else {
      SquareBelowPower(s - 1);
    }
  }

  lemma {:induction false} HalfSquareBelowPower(t: nat)
    requires 9 <= t
    ensures (2 * t + 1) * t < Pow(2, t - 1)
    decreases t
  {
    if t == 9 {
      assert Pow(2, 8) == 256;
    } else {
      HalfSquareBelowPower(t - 1);
      HalfSquareStep(t);
    }
  }

  lemma HalfSquareStep(t: nat)
    requires 10 <= t
    ensures (2 * t + 1) * t <= 2 * ((2 * (t - 1) + 1) * (t - 1))
  {
    var h := t * t;
    assert (2 * t + 1) * t == 2 * h + t;
    assert (2 * (t - 1) + 1) * (t - 1) == 2 * h - 3 * t + 1;
    MulMono(10, t, t);
  }

  /** The prime that stops the scan of the first block. */
  lemma FirstStop(n: nat) returns (r: nat)
    requires 211 <= n
    ensures IsPrime(r) && 17 <= r <= n < r * r
  {
    var s := Root(n);
    RootAtLeast(n, s, 14);
    SquareBelowPower(s);
    r := StopPrime(n, n, s, s);
  }

  /** The prime that stops the scan of a block no longer than what precedes it. */
  lemma BlockStop(start: nat, limbs: nat) returns (r: nat)
    requires 1 <= limbs <= start
    ensures IsPrime(r) && 17 <= r <= BitToN(64 * start - 1)
    ensures BitToN(64 * (start + limbs) - 1) < r * r
  {
    var n, top := BitToN(64 * start - 1), BitToN(64 * (start + limbs) - 1);
    var s := Root(top);
    RootAtLeast(top, s, 19);
    HalfRoot(s, n, top);
    r := StopPrime(n, top, s, s / 2);
  }

  lemma HalfRoot(s: nat, n: nat, top: nat)
    requires 18 <= s && s * s <= top <= 2 * n
    ensures s * (s / 2) < Pow(2, s / 2 - 1) && s * (s / 2) <= n
  {
    var t := s / 2;
    HalfSquareBelowPower(t);
    HalfTimes(s, t);
  }

  lemma HalfTimes(s: nat, t: nat)
    requires t == s / 2
    ensures s * t <= (2 * t + 1) * t && 2 * (s * t) <= s * s
  {
    assert 2 * t <= s <= 2 * t + 1;
    MulMono(s, 2 * t + 1, t);
    MulMono(2 * t, s, s);
    MulAssoc(2, t, s);
  }

  // ----- the first block as a whole

  lemma SmallBlockFinished(b: nat, n: nat)
    requires 5 <= n <= SEED_LIMIT && b <= NToBit(n)
    ensures SievedBy(b, 13) == !IsPrime(BitToN(b))
  {
    NToBitMeaning(n, b);
    assert IdToN(5) == 17 && IdToN(4) == 13;
    FinishedSieve(b, 5, b);
  }

  /** Bits up to n_to_bit(n) tell the composites, the rest of the last limb is
      set, and later limbs stay as they are. */
  method FirstBlockPrimesieve(a: array<Limb>, n: nat)
    requires 5 <= n && NToBit(n) / 64 < a.Length
    modifies a
    ensures forall b: nat :: b <= NToBit(n) ==> Bit(a, b) == !IsPrime(BitToN(b))
    ensures forall b: nat :: NToBit(n) < b && b / 64 <= NToBit(n) / 64 ==> Bit(a, b)
    ensures forall b: nat :: NToBit(n) / 64 < b / 64 < a.Length ==> Bit(a, b) == old(Bit(a, b))
  {
    hide SievedBy, IsPrime, BitToN, NToBit;
    var bits := NToBit(n);
    var i := SeedBlock(a, bits);
    if n > SEED_LIMIT {
      BeyondSeed(n);
      ghost var r := FirstStop(BitToN(bits));
      SieveFirst(a, bits, i, r);
    } else {
      forall b: nat | b <= bits ensures SievedBy(b, 13) == !IsPrime(BitToN(b)) {
        SmallBlockFinished(b, n);
      }
    }
  }

  lemma BeyondSeed(n: nat)
    requires SEED_LIMIT < n
    ensures 64 <= NToBit(n) && 211 <= BitToN(NToBit(n))
  {
    NToBitMeaning(n, 69);
    BitOrder(69, NToBit(n));
    BitOrder(NToBit(n), 69);
  }

  // ----- later blocks

  /** A line's first index from off on, relative to off. */
  function IntoBlock(l: nat, off: nat, step: nat): nat
    requires 1 <= step
  {
    IntoBlockBounds(l, off, step);
    (if l < off then l + step * ((off - l - 1) / step + 1) else l) - off
  }

  lemma IntoBlockBounds(l: nat, off: nat, step: nat)
    requires 1 <= step
    ensures l < off ==> var m := (off - l - 1) / step; l + step * m < off <= l + step * (m + 1)
  {
    if l < off {
      var m := (off - l - 1) / step;
      assert off - l - 1 == step * m + (off - l - 1) % step;
      assert step * (m + 1) == step * m + step;
    }
  }

  lemma IntoBlockLine(x: nat, l: nat, off: nat, step: nat)
    requires 1 <= step && off <= x
    ensures OnLine(x - off, IntoBlock(l, off, step), step) <==> OnLine(x, l, step)
  {
    if l < off {
      IntoBlockBounds(l, off, step);
      var m := (off - l - 1) / step + 1;
      LaterStart(x, l, m, step);
      if OnLine(x, l, step) && x < l + step * m {
        StepsOnLine(l, step, m - 1);
        assert l + step * m - step == l + (m - 1) * step;
        OnLineNext(l, step, l + step * m - step, x);
      }
    }
  }

  /** From a later number of the line on, the line is the same. */
  lemma LaterStart(x: nat, l: nat, m: nat, step: nat)
    requires 1 <= step
    ensures (x - (l + step * m)) % step == (x - l) % step
  {
    ModAddMul(x - (l + step * m), m, step);
    assert m * step == step * m;
  }

  lemma StepsOnLine(l: nat, step: nat, k: nat)
    requires 1 <= step
    ensures OnLine(l + k * step, l, step)
  {
    DivModUnique(k * step, step, k, 0);
    MulMono(0, k, step);
  }

  lemma StruckBlockState(x: nat, i: nat, start: nat, limbs: nat)
    requires 1 <= i && 64 * start <= x < 64 * (start + limbs) && IsPrime(IdToN(i))
    ensures 0 <= SquareIndex(i) && 1 <= IdToN(i)
    ensures SievedBy(x, IdToN(i)) == (SievedBy(x, IdToN(i - 1))
      || Marked(x, start, 64 * limbs, IntoBlock(SquareIndex(i), 64 * start, 2 * IdToN(i)), 2 * IdToN(i))
      || Marked(x, start, 64 * limbs, IntoBlock(NextIndex(i), 64 * start, 2 * IdToN(i)), 2 * IdToN(i)))
  {
    hide SievedBy, OnLine, IdToN, SquareIndex, NextIndex, IntoBlock;
    IdAtLeast(i);
    SquareIndexMeaning(i);
    PrimeIdAddsMultiples(x, i);
    MultiplesAreLines(x, i);
    IntoBlockLine(x, SquareIndex(i), 64 * start, 2 * IdToN(i));
    IntoBlockLine(x, NextIndex(i), 64 * start, 2 * IdToN(i));
  }

  lemma NotMarkedOutside(x: nat, start: nat, limbs: nat, l: nat, step: nat)
    requires 1 <= step && !(64 * start <= x < 64 * (start + limbs))
    ensures !Marked(x, start, 64 * limbs, l, step)
  {
  }

  /** Strike out the multiples of a prime id in the limbs from start on. */
  method StrikeBlock(a: array<Limb>, start: nat, limbs: nat, i: nat)
    requires 1 <= limbs && start + limbs <= a.Length && 1 <= i && IsPrime(IdToN(i)) && 0 <= SquareIndex(i)
    requires forall b: nat :: 64 * start <= b < 64 * (start + limbs) ==> Bit(a, b) == SievedBy(b, IdToN(i - 1))
    modifies a
    ensures forall b: nat :: 64 * start <= b < 64 * (start + limbs) ==> Bit(a, b) == SievedBy(b, IdToN(i))
    ensures forall b: nat :: !(64 * start <= b < 64 * (start + limbs)) && b / 64 < a.Length ==>
      Bit(a, b) == old(Bit(a, b))
  {
    hide SievedBy, IsPrime, IdToN, BitToN, SquareIndex, NextIndex, Marked, IntoBlock;
    StepRotates(i);
    var step := 2 * IdToN(i);
    var first := IntoBlock(SquareIndex(i), 64 * start, step);
    StrikeLine(a, start, first, step, 64 * limbs - 1);
    var second := IntoBlock(NextIndex(i), 64 * start, step);
    StrikeLine(a, start, second, step, 64 * limbs - 1);
    forall b: nat | 64 * start <= b < 64 * (start + limbs) ensures Bit(a, b) == SievedBy(b, IdToN(i)) {
      StruckBlockState(b, i, start, limbs);
    }
    forall b: nat | !(64 * start <= b < 64 * (start + limbs)) && b / 64 < a.Length
      ensures Bit(a, b) == old(Bit(a, b))
    {
      NotMarkedOutside(b, start, limbs, first, step);
      NotMarkedOutside(b, start, limbs, second, step);
    }
  }

  /** The pre-sieved block. */
  method FillBlock(a: array<Limb>, start: nat, limbs: nat) returns (i: nat)
    requires 1 <= limbs && 1 <= start && start + limbs <= a.Length
    modifies a
    ensures i == 4
    ensures forall b: nat :: 64 * start <= b < 64 * (start + limbs) ==> Bit(a, b) == SievedBy(b, 13)
    ensures forall b: nat :: !(64 * start <= b < 64 * (start + limbs)) && b / 64 < a.Length ==>
      Bit(a, b) == old(Bit(a, b))
  {
    hide SievedBy, Filled;
    i := FillBitpattern(a, start, limbs, 64 * start - 64);
    forall b: nat | 64 * start <= b < 64 * (start + limbs) ensures Bit(a, b) == SievedBy(b, 13) {
      assert Filled(a[start + (b / 64 - start)], 64 + (64 * start - 64) + 64 * (b / 64 - start));
      FilledBit(a[b / 64], b);
    }
    forall b: nat | !(64 * start <= b < 64 * (start + limbs)) && b / 64 < a.Length
      ensures Bit(a, b) == old(Bit(a, b))
    {
      assert !(start <= b / 64 < start + limbs);
    }
  }

  /** block_resieve: with the entries before limb start exact, the following limbs
      become exact, and nothing else changes.  The code's sieve and bit_array - off
      are the same array. */
  method BlockResieve(a: array<Limb>, start: nat, limbs: nat)
    requires 1 <= limbs <= start && start + limbs <= a.Length
    requires forall b: nat :: b < 64 * start ==> Bit(a, b) == !IsPrime(BitToN(b))
    modifies a
    ensures forall b: nat :: b < 64 * (start + limbs) ==> Bit(a, b) == !IsPrime(BitToN(b))
    ensures forall b: nat :: 64 * (start + limbs) <= b && b / 64 < a.Length ==> Bit(a, b) == old(Bit(a, b))
  {
    hide SievedBy, IsPrime, IdToN, BitToN, SquareIndex, NextIndex, Meets, OneHot, Shl, Shr, Or, Bit;
    var top := 64 * (start + limbs) - 1;
    var i := FillBlock(a, start, limbs);
    var mask := OneHot(i);
    var index := 0;
    ghost var r := BlockStop(start, limbs);
    ghost var last := IdOf(r);
    IdOfPrime(r);
    StartBefore(r, 64 * start - 1);
    while true
      invariant 4 <= i < last
      invariant mask == OneHot(i % 64) && index == i / 64
      invariant forall b: nat :: 64 * start <= b < 64 * (start + limbs) ==> Bit(a, b) == SievedBy(b, IdToN(i))
      invariant forall b: nat :: !(64 * start <= b < 64 * (start + limbs)) && b / 64 < a.Length ==>
        Bit(a, b) == old(Bit(a, b))
      decreases last - i
    {
      BitOfMask(a, index, i);
      assert Bit(a, i) == !IsPrime(BitToN(i));
      i := i + 1;
      IdIsNextBit(i);
      if !Meets(a[index], mask) {
        BeyondLast(i, top);
        var lindex := SquareIndex(i);
        if lindex > top {
          forall b: nat | 64 * start <= b < 64 * (start + limbs)
            ensures SievedBy(b, IdToN(i - 1)) == !IsPrime(BitToN(b))
          {
            FinishedSieve(b, i, top);
          }
          break;
        }
        StrikeBlock(a, start, limbs, i);
      } else {
        forall b: nat | 64 * start <= b < 64 * (start + limbs)
          ensures SievedBy(b, IdToN(i)) == SievedBy(b, IdToN(i - 1))
        {
          CompositeIdAddsNothing(b, i);
        }
      }
      mask := RotateMask(mask, i - 1);
      index := index + (if mask[0] then 1 else 0);
    }
  }

  lemma BitOfMask(a: array<Limb>, index: nat, i: nat)
    requires index == i / 64 < a.Length
    ensures Meets(a[index], OneHot(i % 64)) == Bit(a, i)
  {
    MeetsOneHot(a[index], i % 64);
  }

  // ----- counting

  function Ones(x: seq<bool>): nat {
    if |x| == 0 then 0 else Ones(x[..|x| - 1]) + (if x[|x| - 1] then 1 else 0)
  }

  /** mpn_popcount. */
  function PopCount(s: seq<Limb>): nat {
    if |s| == 0 then 0 else PopCount(s[..|s| - 1]) + Ones(s[|s| - 1])
  }

  /** The number of primes from 5 to n. */
  function PrimesFrom5(n: nat): nat {
    if n < 5 then 0 else PrimesFrom5(n - 1) + (if IsPrime(n) then 1 else 0)
  }

  function PrimeSet(n: nat): set<nat> {
    set p: nat | 5 <= p <= n && IsPrime(p)
  }

  lemma {:induction false} PrimesFrom5Counts(n: nat)
    ensures PrimesFrom5(n) == |PrimeSet(n)|
    decreases n
  {
    hide IsPrime;
    if n < 5 {
      assert PrimeSet(n) == {};
    } else {
      PrimesFrom5Counts(n - 1);
      assert PrimeSet(n) == PrimeSet(n - 1) + (if IsPrime(n) then {n} else {});
    }
  }

  /** The clear bits among the first b. */
  function ClearBits(s: seq<Limb>, b: nat): nat
    requires b <= 64 * |s|
  {
    if b == 0 then 0 else ClearBits(s, b - 1) + (if s[(b - 1) / 64][(b - 1) % 64] then 0 else 1)
  }

  lemma {:induction false} ClearInLimb(s: seq<Limb>, l: nat, k: nat)
    requires l < |s| && k <= 64
    ensures ClearBits(s, 64 * l + k) == ClearBits(s, 64 * l) + k - Ones(s[l][..k])
    decreases k
  {
    if k > 0 {
      ClearInLimb(s, l, k - 1);
      assert s[l][..k][..k - 1] == s[l][..k - 1];
      assert (64 * l + k - 1) / 64 == l && (64 * l + k - 1) % 64 == k - 1;
    }
  }

  lemma {:induction false} ClearInLimbs(s: seq<Limb>, l: nat)
    requires l <= |s|
    ensures ClearBits(s, 64 * l) == 64 * l - PopCount(s[..l])
    decreases l
  {
    if l > 0 {
      ClearInLimbs(s, l - 1);
      ClearInLimb(s, l - 1, 64);
      assert s[..l][..l - 1] == s[..l - 1];
      assert s[l - 1][..64] == s[l - 1];
    }
  }

  lemma {:induction false} NoneBetween(lo: nat, hi: nat)
    requires 4 <= lo <= hi && forall k :: lo < k <= hi ==> !IsPrime(k)
    ensures PrimesFrom5(hi) == PrimesFrom5(lo)
    decreases hi
  {
    if lo < hi { NoneBetween(lo, hi - 1); }
  }

  lemma BetweenBits(b: nat, n: nat)
    requires BitToN(b) < n < BitToN(b + 1)
    ensures !IsPrime(n)
  {
    if IsPrime(n) {
      PrimeSpecial(n);
      BitOfSpecial(n);
      NoBitBetween(b, NToBit(n));
    }
  }

  lemma NoBitBetween(b: nat, k: nat)
    ensures !(BitToN(b) < BitToN(k) < BitToN(b + 1))
  {
    BitOrder(b, k);
    BitOrder(k, b + 1);
  }

  lemma FirstBitCounts(s: seq<Limb>)
    requires 1 <= |s|
    ensures BitToN(0) == 5 && ClearBits(s, 0) == 0 && PrimesFrom5(4) == 0
  {
  }

  /** With the first bits telling composites, their clear bits count the primes. */
  lemma {:induction false} ClearBitsCountPrimes(s: seq<Limb>, b: nat)
    requires b < 64 * |s| && forall k :: 0 <= k <= b ==> s[k / 64][k % 64] == !IsPrime(BitToN(k))
    ensures ClearBits(s, b + 1) == PrimesFrom5(BitToN(b))
    decreases b
  {
    hide IsPrime, BitToN;
    if b == 0 {
      FirstBitCounts(s);
    } else {
      ClearBitsCountPrimes(s, b - 1);
      BitOrder(b - 1, b);
      BitToNSpecial(b - 1);
      forall k | BitToN(b - 1) < k <= BitToN(b) - 1 ensures !IsPrime(k) { BetweenBits(b - 1, k); }
      NoneBetween(BitToN(b - 1), BitToN(b) - 1);
    }
  }

  lemma {:induction false} SetBitsDoNotCount(s: seq<Limb>, b: nat, c: nat)
    requires b <= c <= 64 * |s| && forall k :: b <= k < c ==> s[k / 64][k % 64]
    ensures ClearBits(s, c) == ClearBits(s, b)
    decreases c
  {
    if b < c { SetBitsDoNotCount(s, b, c - 1); }
  }

  /** A finished sieve holds 64 size - popcount primes. */
  lemma CountFromPopCount(s: seq<Limb>, n: nat)
    requires 5 <= n && |s| == NToBit(n) / 64 + 1
    requires forall b: nat :: b <= NToBit(n) ==> s[b / 64][b % 64] == !IsPrime(BitToN(b))
    requires forall b: nat :: NToBit(n) < b < 64 * |s| ==> s[b / 64][b % 64]
    ensures 64 * |s| - PopCount(s) == PrimesFrom5(n)
  {
    hide IsPrime, BitToN, NToBit, PopCount, ClearBits, PrimesFrom5;
    var bits := NToBit(n);
    ClearInLimbs(s, |s|);
    assert s[..|s|] == s;
    SetBitsDoNotCount(s, bits + 1, 64 * |s|);
    ClearBitsCountPrimes(s, bits);
    BitToNSpecial(bits);
    NToBitMeaning(n, bits);
    NToBitMeaning(n, bits + 1);
    forall k | BitToN(bits) < k <= n ensures !IsPrime(k) { BetweenBits(bits, k); }
    NoneBetween(BitToN(bits), n);
  }

  // ----- the whole sieve

  method GmpPrimesieve(a: array<Limb>, n: nat) returns (count: nat)
    requires 5 <= n && NToBit(n) / 64 < a.Length
    modifies a
    ensures forall b: nat :: b <= NToBit(n) ==> Bit(a, b) == !IsPrime(BitToN(b))
    ensures forall b: nat :: NToBit(n) < b && b / 64 <= NToBit(n) / 64 ==> Bit(a, b)
    ensures forall b: nat :: NToBit(n) / 64 < b / 64 < a.Length ==> Bit(a, b) == old(Bit(a, b))
    ensures count == PrimesFrom5(n)
  {
    hide IsPrime, BitToN, NToBit;
    var bits := NToBit(n);
    var size := bits / 64 + 1;
    if size > BLOCK_SIZE * 2 {
      SieveBlocks(a, size);
    } else {
      FirstBlockPrimesieve(a, n);
    }
    if (bits + 1) % 64 != 0 {
      SetHighBits(a, size - 1, (bits + 1) % 64);
    }
    forall b: nat | bits < b < 64 * size ensures a[..size][b / 64][b % 64] {
      assert Bit(a, b);
    }
    forall b: nat | b <= bits ensures a[..size][b / 64][b % 64] == !IsPrime(BitToN(b)) {
      assert Bit(a, b) == !IsPrime(BitToN(b));
    }
    CountFromPopCount(a[..size], n);
    count := size * 64 - PopCount(a[..size]);
  }

  /** The branch for more than two blocks: a first block of between one and two
      block sizes, then whole blocks. */
  method SieveBlocks(a: array<Limb>, size: nat)
    requires BLOCK_SIZE * 2 < size <= a.Length
    modifies a
    ensures forall b: nat :: b < 64 * size ==> Bit(a, b) == !IsPrime(BitToN(b))
    ensures forall b: nat :: 64 * size <= b && b / 64 < a.Length ==> Bit(a, b) == old(Bit(a, b))
  {
    hide IsPrime, BitToN, NToBit, Bit;
    var off := BLOCK_SIZE + size % BLOCK_SIZE;
    IdToNBit(off * 64);
    FirstBlockPrimesieve(a, IdToN(off * 64));
    while true
      invariant BLOCK_SIZE <= off < size && (size - off) % BLOCK_SIZE == 0
      invariant forall b: nat :: b < 64 * off ==> Bit(a, b) == !IsPrime(BitToN(b))
      invariant forall b: nat :: 64 * off <= b && b / 64 < a.Length ==> Bit(a, b) == old(Bit(a, b))
      decreases size - off
    {
      BlockResieve(a, off, BLOCK_SIZE);
      off := off + BLOCK_SIZE;
      if !(off < size) { break; }
    }
  }

  lemma IdToNBit(id: nat)
    requires 2 <= id
    ensures 5 <= IdToN(id) && NToBit(IdToN(id)) == id - 1
  {
    IdIsNextBit(id);
    BitToNSpecial(id - 1);
    hide NToBit, BitToN, IdToN;
    NToBitMeaning(IdToN(id), id - 1);
    NToBitMeaning(IdToN(id), NToBit(IdToN(id)));
    BitOrder(id - 1, NToBit(IdToN(id)));
  }
}
