/** The automaton that tracks a Jacobi symbol along a Euclidean division run:
    gen-jacobitab.c makes its table, mpn_jacobi_init, _update and _finish of
    gmp-impl.h run it. */
module JacobiAutomaton {
  import opened Arith
  import opened Primes
  import opened JacobiSymbol

  // ----- the states

  /** The code's decode_table: a and b modulo 4. */
  function DecodeA(i: nat): nat
    requires i < 13
  {
    match i
    case 0 => 0
    case 1 => 0
    case 2 => 1
    case 3 => 1
    case 4 => 2
    case 5 => 2
    case 6 => 3
    case 7 => 3
    case 8 => 1
    case 9 => 1
    case 10 => 3
    case 11 => 3
    case _ => 3
  }

  function DecodeB(i: nat): nat
    requires i < 13
  {
    match i
    case 0 => 1
    case 1 => 3
    case 2 => 1
    case 3 => 3
    case 4 => 1
    case 5 => 3
    case 6 => 1
    case 7 => 3
    case 8 => 0
    case 9 => 2
    case 10 => 0
    case 11 => 2
    case _ => 3
  }

  /** JACOBI_D: which number was reduced last; only told apart when both are 3. */
  function DecodeD(i: nat): nat {
    if i == 7 then 1 else 0
  }

  lemma NeverBothEven(i: nat)
    requires i < 13
    ensures DecodeA(i) < 4 && DecodeB(i) < 4 && (DecodeA(i) % 2 == 1 || DecodeB(i) % 2 == 1)
  {
  }

  predicate Codes(i: nat, a: nat, b: nat, d: nat)
    requires i < 13
  {
    DecodeA(i) == a && DecodeB(i) == b && (a == 3 && b == 3 ==> DecodeD(i) == d)
  }

  lemma CodesUnique(i: nat, j: nat, a: nat, b: nat, d: nat)
    requires i < 13 && j < 13 && d < 2 && Codes(i, a, b, d) && Codes(j, a, b, d)
    ensures i == j
  {
  }

  lemma SomeIndex(a: nat, b: nat)
    requires a < 4 && b < 4 && (a % 2 == 1 || b % 2 == 1) && !(a == 3 && b == 3)
    ensures exists i :: 0 <= i < 12 && DecodeA(i) == a && DecodeB(i) == b
  {
    var i := if b % 2 == 1 then 2 * a + b / 2 else 8 + 2 * (a / 2) + b / 2;
    assert DecodeA(i) == a && DecodeB(i) == b;
  }

  /** The search always finds an entry, so the code's abort is never reached. */
  method Encode(a: nat, b: nat, d: nat) returns (i: nat)
    requires d < 2 && a < 4 && b < 4 && (a % 2 == 1 || b % 2 == 1)
    ensures i < 13 && Codes(i, a, b, d)
  {
    if a == 3 && b == 3 {
      return if d == 1 then 7 else 12;
    }
    SomeIndex(a, b);
    i := 0;
    while i < 12
      invariant i <= 12
      invariant forall k :: 0 <= k < i ==> !(DecodeA(k) == a && DecodeB(k) == b)
    {
      if DecodeA(i) == a && DecodeB(i) == b {
        return;
      }
      i := i + 1;
    }
  }

  // ----- the table

  /** The change of the sign bit: a swap of roles with both numbers 3 modulo 4, and
      a reduction modulo a number that is 2 modulo 4. */
  function SignFlip(a: nat, b: nat, dOld: nat, d: nat, q: nat): (r: nat)
    ensures r < 2
  {
    var swap := if d != dOld && a == 3 && b == 3 then 1 else 0;
    var reduce :=
      if d == 1 then (if b == 2 then ReduceFlip(a, q) else 0)
      else (if a == 2 then ReduceFlip(b, q) else 0);
    (swap + reduce) % 2
  }

  /** (q & (a >> 1)) ^ (q >> 1). */
  function ReduceFlip(a: nat, q: nat): (r: nat)
    ensures r < 2
  {
    ((if q % 2 == 1 then a / 2 else 0) + q / 2) % 2
  }

  /** q b for a quotient below 4. */
  function Times(q: nat, b: nat): nat {
    if q == 0 then 0 else if q == 1 then b else if q == 2 then 2 * b else 3 * b
  }

  lemma TimesIsProduct(q: nat, b: nat)
    requires q < 4
    ensures Times(q, b) == q * b
  {
  }

  /** r is what the generator computes for state bits, denominator d, quotient q. */
  predicate RightEntry(bits: nat, d: nat, q: nat, r: nat)
    requires bits < 26
  {
    var a, b := DecodeA(bits / 2), DecodeB(bits / 2);
    && r < 26
    && Codes(r / 2, if d == 1 then (a - Times(q, b)) % 4 else a, if d == 1 then b else (b - Times(q, a)) % 4, d)
    && r % 2 == (bits % 2 + SignFlip(a, b, DecodeD(bits / 2), d, q)) % 2
  }

  lemma RightEntryUnique(bits: nat, d: nat, q: nat, r: nat, r': nat)
    requires bits < 26 && d < 2 && RightEntry(bits, d, q, r) && RightEntry(bits, d, q, r')
    ensures r == r'
  {
    hide DecodeA, DecodeB, SignFlip, Times;
    var a, b := DecodeA(bits / 2), DecodeB(bits / 2);
    CodesUnique(r / 2, r' / 2, if d == 1 then (a - Times(q, b)) % 4 else a,
                if d == 1 then b else (b - Times(q, a)) % 4, d);
  }

  /** mpn/jacobitab.h, eight entries to a state. */
  function TableRow(bits: nat): (row: seq<nat>)
    requires bits < 26
    ensures |row| == 8
  {
    match bits
    case 0 => [0, 0, 0, 0, 0, 12, 8, 4]
    case 1 => [1, 1, 1, 1, 1, 13, 9, 5]
    case 2 => [2, 2, 2, 2, 2, 6, 10, 14]
    case 3 => [3, 3, 3, 3, 3, 7, 11, 15]
    case 4 => [4, 16, 6, 18, 4, 0, 12, 8]
    case 5 => [5, 17, 7, 19, 5, 1, 13, 9]
    case 6 => [6, 18, 4, 16, 6, 10, 14, 2]
    case 7 => [7, 19, 5, 17, 7, 11, 15, 3]
    case 8 => [8, 10, 9, 11, 8, 4, 0, 12]
    case 9 => [9, 11, 8, 10, 9, 5, 1, 13]
    case 10 => [10, 9, 11, 8, 10, 14, 2, 6]
    case 11 => [11, 8, 10, 9, 11, 15, 3, 7]
    case 12 => [12, 22, 24, 20, 12, 8, 4, 0]
    case 13 => [13, 23, 25, 21, 13, 9, 5, 1]
    case 14 => [25, 21, 13, 23, 14, 2, 6, 10]
    case 15 => [24, 20, 12, 22, 15, 3, 7, 11]
    case 16 => [16, 6, 18, 4, 16, 16, 16, 16]
    case 17 => [17, 7, 19, 5, 17, 17, 17, 17]
    case 18 => [18, 4, 16, 6, 18, 22, 19, 23]
    case 19 => [19, 5, 17, 7, 19, 23, 18, 22]
    case 20 => [20, 12, 22, 24, 20, 20, 20, 20]
    case 21 => [21, 13, 23, 25, 21, 21, 21, 21]
    case 22 => [22, 24, 20, 12, 22, 19, 23, 18]
    case 23 => [23, 25, 21, 13, 23, 18, 22, 19]
    case 24 => [24, 20, 12, 22, 15, 3, 7, 11]
    case _ => [25, 21, 13, 23, 14, 2, 6, 10]
  }

  /** jacobi_table[i]. */
  function TableEntry(i: nat): nat
    requires i < 208
  {
    TableRow(i / 8)[i % 8]
  }

  predicate RowRight(bits: nat)
    requires bits < 26
  {
    var row := TableRow(bits);
    && RightEntry(bits, 0, 0, row[0]) && RightEntry(bits, 0, 1, row[1])
    && RightEntry(bits, 0, 2, row[2]) && RightEntry(bits, 0, 3, row[3])
    && RightEntry(bits, 1, 0, row[4]) && RightEntry(bits, 1, 1, row[5])
    && RightEntry(bits, 1, 2, row[6]) && RightEntry(bits, 1, 3, row[7])
  }

  lemma RowRight0() ensures RowRight(0) { }
  lemma RowRight1() ensures RowRight(1) { }
  lemma RowRight2() ensures RowRight(2) { }
  lemma RowRight3() ensures RowRight(3) { }
  lemma RowRight4() ensures RowRight(4) { }
  lemma RowRight5() ensures RowRight(5) { }
  lemma RowRight6() ensures RowRight(6) { }
  lemma RowRight7() ensures RowRight(7) { }
  lemma RowRight8() ensures RowRight(8) { }
  lemma RowRight9() ensures RowRight(9) { }
  lemma RowRight10() ensures RowRight(10) { }
  lemma RowRight11() ensures RowRight(11) { }
  lemma RowRight12() ensures RowRight(12) { }
  lemma RowRight13() ensures RowRight(13) { }
  lemma RowRight14() ensures RowRight(14) { }
  lemma RowRight15() ensures RowRight(15) { }
  lemma RowRight16() ensures RowRight(16) { }
  lemma RowRight17() ensures RowRight(17) { }
  lemma RowRight18() ensures RowRight(18) { }
  lemma RowRight19() ensures RowRight(19) { }
  lemma RowRight20() ensures RowRight(20) { }
  lemma RowRight21() ensures RowRight(21) { }
  lemma RowRight22() ensures RowRight(22) { }
  lemma RowRight23() ensures RowRight(23) { }
  lemma RowRight24() ensures RowRight(24) { }
  lemma RowRight25() ensures RowRight(25) { }

  lemma TableRight(bits: nat, d: nat, q: nat)
    requires bits < 26 && d < 2 && q < 4
    ensures RightEntry(bits, d, q, TableEntry(8 * bits + 4 * d + q))
  {
    hide RightEntry, TableRow;
    RowIsRight(bits);
  }

  lemma RowIsRight(bits: nat)
    requires bits < 26
    ensures RowRight(bits)
  {
    hide RowRight;
    RowRight0();
    RowRight1();
    RowRight2();
    RowRight3();
    RowRight4();
    RowRight5();
    RowRight6();
    RowRight7();
    RowRight8();
    RowRight9();
    RowRight10();
    RowRight11();
    RowRight12();
    RowRight13();
    RowRight14();
    RowRight15();
    RowRight16();
    RowRight17();
    RowRight18();
    RowRight19();
    RowRight20();
    RowRight21();
    RowRight22();
    RowRight23();
    RowRight24();
    RowRight25();
  }

  /** The generator's main loop prints exactly the table of mpn/jacobitab.h. */
  method GenerateTable() returns (t: seq<nat>)
    ensures |t| == 208 && forall i :: 0 <= i < 208 ==> t[i] == TableEntry(i)
  {
    hide DecodeA, DecodeB, TableEntry;
    t := [];
    for bits := 0 to 208
      invariant |t| == bits && forall i :: 0 <= i < bits ==> t[i] == TableEntry(i)
    {
      var q := bits % 4;
      var d := bits / 4 % 2;
      var s := bits / 8;
      var r := Entry(s, d, q);
      TableRight(s, d, q);
      RightEntryUnique(s, d, q, r, TableEntry(bits));
      t := t + [r];
    }
  }

  /** The body of that loop. */
  method Entry(s: nat, d: nat, q: nat) returns (r: nat)
    requires s < 26 && d < 2 && q < 4
    ensures RightEntry(s, d, q, r)
  {
    hide DecodeA, DecodeB, ReduceFlip, Times, RightEntry;
    var e, a, b, dOld := s % 2, DecodeA(s / 2), DecodeB(s / 2), DecodeD(s / 2);
    NeverBothEven(s / 2);
    TimesIsProduct(q, a);
    TimesIsProduct(q, b);
    if d != dOld && a == 3 && b == 3 {
      e := 1 - e;
    }
    var a', b' := a, b;
    if d == 1 {
      if b == 2 {
        e := (e + ReduceFlip(a, q)) % 2;
      }
      StaysOdd(a, b, q);
      a' := (a - q * b) % 4;
    } else {
      if a == 2 {
        e := (e + ReduceFlip(b, q)) % 2;
      }
      StaysOdd(b, a, q);
      b' := (b - q * a) % 4;
    }
    SumOfFlips(s % 2, if d != dOld && a == 3 && b == 3 then 1 else 0,
               if d == 1 then (if b == 2 then ReduceFlip(a, q) else 0) else (if a == 2 then ReduceFlip(b, q) else 0));
    var i := Encode(a', b', d);
    r := 2 * i + e;
    EntryRight(s, d, q, i, e);
  }

  lemma EntryRight(s: nat, d: nat, q: nat, i: nat, e: nat)
    requires s < 26 && d < 2 && i < 13 && e < 2
    requires var a, b := DecodeA(s / 2), DecodeB(s / 2);
      && Codes(i, if d == 1 then (a - Times(q, b)) % 4 else a, if d == 1 then b else (b - Times(q, a)) % 4, d)
      && e == (s % 2 + SignFlip(a, b, DecodeD(s / 2), d, q)) % 2
    ensures RightEntry(s, d, q, 2 * i + e)
  {
    hide Codes, DecodeA, DecodeB, SignFlip;
    assert (2 * i + e) / 2 == i && (2 * i + e) % 2 == e;
  }

  lemma SumOfFlips(e: nat, x: nat, y: nat)
    requires e < 2 && x < 2 && y < 2
    ensures ((e + x) % 2 + y) % 2 == (e + (x + y) % 2) % 2
  {
  }

  lemma StaysOdd(a: nat, b: nat, q: nat)
    requires a % 2 == 1 || b % 2 == 1
    ensures (a - q * b) % 4 % 2 == 1 || b % 2 == 1
  {
    if b % 2 == 0 {
      var c := b / 2;
      assert q * b == 2 * (q * c);
    }
  }

  // ----- the run

  function MpnJacobiInit(a: nat, b: nat, s: nat): nat {
    4 * (a % 4) + 2 * (b / 2 % 2) + s
  }

  function MpnJacobiUpdate(bits: nat, denominator: nat, q: nat): (r: nat)
    requires bits < 26 && denominator < 2 && q < 4
    ensures r < 26
  {
    TableRight(bits, denominator, q);
    TableEntry(8 * bits + 4 * denominator + q)
  }

  function MpnJacobiFinish(bits: nat): int {
    1 - 2 * (bits % 2)
  }

  /** The symbol a state stands for: the even number, or the number reduced last,
      goes on top. */
  function Current(a: nat, b: nat, d: nat): int
    requires a % 2 == 1 || b % 2 == 1
  {
    if b % 2 == 0 then Jacobi(b, a)
    else if a % 2 == 0 || d == 1 then Jacobi(a, b)
    else Jacobi(b, a)
  }

  /** State bits describes the pair a, b, and target is the tracked symbol. */
  ghost predicate Tracks(bits: nat, a: nat, b: nat, target: int) {
    && bits < 26
    && DecodeA(bits / 2) == a % 4 && DecodeB(bits / 2) == b % 4
    && (a % 2 == 1 || b % 2 == 1)
    && target == Sgn(bits % 2 == 1) * Current(a, b, DecodeD(bits / 2))
  }

  lemma InitTracks(a: nat, b: nat, s: nat)
    requires b % 2 == 1 && s < 2
    ensures Tracks(MpnJacobiInit(a, b, s), a, b, Sgn(s == 1) * Jacobi(a, b))
  {
    hide Jacobi, Coprime;
    var i := 2 * (a % 4) + b / 2 % 2;
    var bits := MpnJacobiInit(a, b, s);
    assert bits / 2 == i && bits % 2 == s;
    assert DecodeA(i) == a % 4 && DecodeB(i) == b % 4;
    CurrentAnyD(a, b, DecodeD(i), 1);
  }

  /** Changing which number counts as reduced last. */
  lemma CurrentAnyD(a: nat, b: nat, d: nat, d': nat)
    requires (a % 2 == 1 || b % 2 == 1) && d < 2 && d' < 2
    ensures Current(a, b, d) == Sgn(d != d' && a % 4 == 3 && b % 4 == 3) * Current(a, b, d')
  {
    hide Jacobi;
    if a % 2 == 1 && b % 2 == 1 {
      Reciprocity(a, b);
      Reciprocity(b, a);
    }
  }

  // ----- reducing the lower argument by multiples of the upper one

  lemma JacobiDouble(m: nat, a: nat)
    requires a % 2 == 1
    ensures Jacobi(2 * m, a) == Jacobi(2, a) * Jacobi(m, a)
  {
    JacobiMul(2, m, a);
  }

  lemma JacobiTimesFour(m: nat, a: nat)
    requires a % 2 == 1
    ensures Jacobi(4 * m, a) == Jacobi(m, a)
  {
    hide Jacobi;
    JacobiDouble(2 * m, a);
    JacobiDouble(m, a);
    JacobiTwo(a);
  }

  lemma LowerReduced(m: nat, a: nat, a': nat, k: nat)
    requires m % 2 == 1 && a' == a - k * m
    ensures Jacobi(a', m) == Jacobi(a, m)
  {
    ModAddMul(a', k, m);
    JacobiMod(a', a, m);
  }

  /** 2 m modulo 8, times q. */
  lemma TwiceOdd(a: nat, a': nat, m: nat, q: nat)
    requires m % 2 == 1 && a' == a - 2 * (q * m)
    ensures a' % 8 == (a % 8 - 2 * ((q % 4) * (m % 4))) % 8
  {
    var u, v := q % 4, m % 4;
    ModMod(q, 4);
    ModMod(m, 4);
    CongMul(q, u, m, v, 4);
    var k := CongWitness(q * m, u * v, 4);
    ModAddMul(a % 8 - 2 * (u * v), a / 8 - k, 8);
  }

  /** Whether J(2m, a) and J(a, m) differ in sign. */
  predicate TwiceNegative(m: nat, a: nat) {
    (a % 8 == 3 || a % 8 == 5) != (m % 4 == 3 && a % 4 == 3)
  }

  lemma JacobiTwiceOdd(m: nat, a: nat)
    requires m % 2 == 1 && a % 2 == 1
    ensures Jacobi(2 * m, a) == Sgn(TwiceNegative(m, a)) * Jacobi(a, m)
  {
    hide Jacobi, Sgn;
    JacobiDouble(m, a);
    JacobiTwo(a);
    Reciprocity(m, a);
    SgnXor(a % 8 == 3 || a % 8 == 5, m % 4 == 3 && a % 4 == 3);
    MulAssoc(Sgn(a % 8 == 3 || a % 8 == 5), SwapSign(m, a), Jacobi(a, m));
  }

  lemma TwiceOddSigns(a: nat, a': nat, m: nat, u: nat)
    requires a % 2 == 1 && m % 2 == 1 && u < 4 && a' % 8 == (a % 8 - 2 * Times(u, m % 4)) % 8
    ensures a' % 2 == 1
    ensures TwiceNegative(m, a') == ((ReduceFlip(a % 4, u) == 1) != TwiceNegative(m, a))
  {
    hide ReduceFlip, Times, TwiceNegative, SmallTwiceNegative;
    TwiceNegativeSmall(m, a);
    TwiceNegativeSmall(m, a');
    SmallSigns(a % 8, m % 4, u);
  }

  lemma TwiceNegativeSmall(m: nat, a: nat)
    ensures TwiceNegative(m, a) == SmallTwiceNegative(m % 4, a % 8)
    ensures a % 8 % 2 == a % 2 && a % 8 % 4 == a % 4
    ensures m % 2 == 1 ==> m % 4 == 1 || m % 4 == 3
  {
    EightThenLess(a);
    OddMod4(m);
  }

  lemma EightThenLess(a: nat)
    ensures a % 8 % 2 == a % 2 && a % 8 % 4 == a % 4
  {
    ModOfMultiple(a, 2, 4);
    ModOfMultiple(a, 4, 2);
  }

  predicate SmallTwiceNegative(w: int, r: int) {
    (r == 3 || r == 5) != (w == 3 && r % 4 == 3)
  }

  lemma SmallSigns(r: nat, w: nat, u: nat)
    requires r < 8 && r % 2 == 1 && (w == 1 || w == 3) && u < 4
    ensures var r' := (r - 2 * Times(u, w)) % 8;
      r' % 2 == 1 && SmallTwiceNegative(w, r') == ((ReduceFlip(r % 4, u) == 1) != SmallTwiceNegative(w, r))
  {
    if u == 0 { } else if u == 1 { } else if u == 2 { } else { }
  }

  lemma ReducedTwiceOdd(m: nat, a: nat, a': nat, q: nat)
    requires m % 2 == 1 && a % 2 == 1 && a' == a - 2 * (q * m)
    ensures a' % 2 == 1
    ensures Jacobi(2 * m, a') == Sgn(ReduceFlip(a % 4, q % 4) == 1) * Jacobi(2 * m, a)
  {
    hide Jacobi, ReduceFlip, Sgn, TwiceNegative, Times;
    TwiceOdd(a, a', m, q);
    TimesIsProduct(q % 4, m % 4);
    TwiceOddSigns(a, a', m, q % 4);
    JacobiTwiceOdd(m, a);
    JacobiTwiceOdd(m, a');
    MulAssoc(2, q, m);
    LowerReduced(m, a, a', 2 * q);
    SgnXor(ReduceFlip(a % 4, q % 4) == 1, TwiceNegative(m, a));
    MulAssoc(Sgn(ReduceFlip(a % 4, q % 4) == 1), Sgn(TwiceNegative(m, a)), Jacobi(a, m));
  }

  /** The symbol over a number that is reduced by a multiple of the even b on top. */
  lemma {:induction false} ReducedBelow(b: nat, a: nat, a': nat, q: nat)
    requires b % 2 == 0 && a % 2 == 1 && a' == a - q * b
    ensures a' % 2 == 1
    ensures Jacobi(b, a') == Sgn(b % 4 == 2 && ReduceFlip(a % 4, q % 4) == 1) * Jacobi(b, a)
    decreases b
  {
    hide Jacobi, ReduceFlip, Sgn;
    OddLess(a, q, b);
    SgnFalse(Jacobi(b, a));
    if b % 4 == 2 {
      var m := b / 2;
      TimesShift(q, m, 2);
      ReducedTwiceOdd(m, a, a', q);
    } else if b > 0 {
      var m := b / 4;
      TimesShift(q, m, 4);
      JacobiTimesFour(m, a);
      JacobiTimesFour(m, a');
      if m % 2 == 0 {
        ReduceFlipZero(a % 4);
        FourTimes(q);
        ReducedBelow(m, a, a', 4 * q);
        SgnFalse(Jacobi(m, a));
      } else {
        ReducedFourTimesOdd(m, a, a', q);
      }
    }
  }

  lemma SgnFalse(x: int)
    ensures Sgn(false) * x == x
  {
  }

  lemma FourTimes(q: nat)
    ensures 4 * q % 4 == 0
  {
  }

  lemma TimesShift(q: nat, m: nat, c: nat)
    ensures q * (c * m) == (c * q) * m == c * (q * m)
  {
    MulRotate(q, c, m);
    MulAssoc(c, q, m);
  }

  lemma ReduceFlipZero(a: nat)
    ensures ReduceFlip(a, 0) == 0
  {
  }

  lemma ReducedFourTimesOdd(m: nat, a: nat, a': nat, q: nat)
    requires m % 2 == 1 && a % 2 == 1 && a' % 2 == 1 && a' == a - (4 * q) * m
    ensures Jacobi(m, a') == Jacobi(m, a)
  {
    hide Jacobi;
    Reciprocity(m, a);
    Reciprocity(m, a');
    LowerReduced(m, a, a', 4 * q);
    ModAddMul(a', q * m, 4);
    assert (4 * q) * m == (q * m) * 4;
  }

  lemma OddLess(a: int, q: int, b: int)
    requires a % 2 == 1 && b % 2 == 0
    ensures (a - q * b) % 2 == 1
  {
    var c := b / 2;
    assert q * b == 2 * (q * c);
  }

  // ----- one step

  /** Reducing x by q y with y as denominator. */
  lemma ReducedCurrent(x: nat, y: nat, x': nat, q: nat)
    requires (x % 2 == 1 || y % 2 == 1) && x' == x - q * y
    ensures x' % 2 == 1 || y % 2 == 1
    ensures (if y % 2 == 0 then Jacobi(y, x') else Jacobi(x', y))
      == Sgn(y % 4 == 2 && ReduceFlip(x % 4, q % 4) == 1) * (if y % 2 == 0 then Jacobi(y, x) else Jacobi(x, y))
  {
    hide Jacobi;
    if y % 2 == 0 {
      ReducedBelow(y, x, x', q);
    } else {
      LowerReduced(y, x, x', q);
    }
  }

  lemma CurrentByDenominator(a: nat, b: nat)
    requires a % 2 == 1 || b % 2 == 1
    ensures Current(a, b, 1) == if b % 2 == 0 then Jacobi(b, a) else Jacobi(a, b)
    ensures Current(a, b, 0) == if a % 2 == 0 then Jacobi(a, b) else Jacobi(b, a)
  {
  }

  lemma ReduceMod4(x: nat, y: nat, q: nat)
    ensures (x % 4 - (q % 4) * (y % 4)) % 4 == (x - q * y) % 4
  {
    ModMod(q, 4);
    ModMod(y, 4);
    ModMod(x, 4);
    CongMul(q % 4, q, y % 4, y, 4);
    CongAdd(x % 4, x, (q % 4) * (y % 4), q * y, 4);
  }

  /** The pair after one division step. */
  function Reduced(a: nat, b: nat, d: nat, q: nat): (int, int) {
    if d == 1 then (a - q * b, b) else (a, b - q * a)
  }

  lemma StepCurrent(a: nat, b: nat, a': nat, b': nat, d: nat, q: nat, dOld: nat)
    requires (a % 2 == 1 || b % 2 == 1) && d < 2 && dOld < 2 && (a', b') == Reduced(a, b, d, q)
    ensures a' % 2 == 1 || b' % 2 == 1
    ensures Current(a', b', d) == Sgn(SignFlip(a % 4, b % 4, dOld, d, q % 4) == 1) * Current(a, b, dOld)
  {
    hide Jacobi, Current, ReduceFlip;
    CurrentByDenominator(a, b);
    CurrentAnyD(a, b, dOld, d);
    CurrentAnyD(a, b, d, dOld);
    if d == 1 {
      ReducedCurrent(a, b, a', q);
    } else {
      ReducedCurrent(b, a, b', q);
    }
    CurrentByDenominator(a', b');
  }

  lemma UpdateTracks(bits: nat, a: nat, b: nat, target: int, d: nat, q: nat, a': nat, b': nat)
    requires Tracks(bits, a, b, target) && d < 2 && (a', b') == Reduced(a, b, d, q)
    ensures Tracks(MpnJacobiUpdate(bits, d, q % 4), a', b', target)
  {
    hide Jacobi, Current, DecodeA, DecodeB, SignFlip, TableEntry, Times;
    var r := MpnJacobiUpdate(bits, d, q % 4);
    TableRight(bits, d, q % 4);
    ReduceMod4(a, b, q);
    ReduceMod4(b, a, q);
    TimesIsProduct(q % 4, a % 4);
    TimesIsProduct(q % 4, b % 4);
    StepCurrent(a, b, a', b', d, q, DecodeD(bits / 2));
    CurrentAnyD(a', b', d, DecodeD(r / 2));
    SignChain(bits % 2, SignFlip(a % 4, b % 4, DecodeD(bits / 2), d, q % 4), r % 2,
              Current(a, b, DecodeD(bits / 2)), Current(a', b', DecodeD(r / 2)));
  }

  lemma SignChain(e: nat, f: nat, e': nat, c: int, c': int)
    requires e < 2 && f < 2 && e' == (e + f) % 2 && c' == Sgn(f == 1) * c
    ensures Sgn(e' == 1) * c' == Sgn(e == 1) * c
  {
  }

  // ----- whole runs

  datatype Step = Step(d: nat, q: nat)

  /** The division steps lead from a, b to a', b', all numbers staying natural. */
  ghost predicate Leads(a: nat, b: nat, steps: seq<Step>, a': nat, b': nat)
    decreases steps
  {
    if steps == [] then a == a' && b == b'
    else
      var (x, y) := Reduced(a, b, steps[0].d, steps[0].q);
      steps[0].d < 2 && 0 <= x && 0 <= y && Leads(x, y, steps[1..], a', b')
  }

  /** The state after all steps, as the code updates it. */
  function StateAfter(bits: nat, steps: seq<Step>): nat
    requires bits < 26 && forall i :: 0 <= i < |steps| ==> steps[i].d < 2
    decreases steps
  {
    if steps == [] then bits
    else StateAfter(MpnJacobiUpdate(bits, steps[0].d, steps[0].q % 4), steps[1..])
  }

  lemma {:induction false} LeadsDenominators(a: nat, b: nat, steps: seq<Step>, a': nat, b': nat)
    requires Leads(a, b, steps, a', b')
    ensures forall i :: 0 <= i < |steps| ==> steps[i].d < 2
    decreases steps
  {
    if steps != [] {
      var (x, y) := Reduced(a, b, steps[0].d, steps[0].q);
      LeadsDenominators(x, y, steps[1..], a', b');
      assert forall i :: 1 <= i < |steps| ==> steps[i] == steps[1..][i - 1];
    }
  }

  lemma {:induction false} RunTracks(bits: nat, a: nat, b: nat, target: int, steps: seq<Step>, a': nat, b': nat)
    requires Tracks(bits, a, b, target) && Leads(a, b, steps, a', b')
    requires forall i :: 0 <= i < |steps| ==> steps[i].d < 2
    ensures Tracks(StateAfter(bits, steps), a', b', target)
    decreases steps
  {
    hide Tracks, MpnJacobiUpdate;
    TracksBelow26(bits, a, b, target);
    if steps != [] {
      var (x, y) := Reduced(a, b, steps[0].d, steps[0].q);
      UpdateTracks(bits, a, b, target, steps[0].d, steps[0].q, x, y);
      RunTracks(MpnJacobiUpdate(bits, steps[0].d, steps[0].q % 4), x, y, target, steps[1..], a', b');
    }
  }

  lemma TracksBelow26(bits: nat, a: nat, b: nat, target: int)
    requires Tracks(bits, a, b, target)
    ensures bits < 26
  {
  }

  lemma EndState(bits: nat, a: nat, b: nat, target: int)
    requires Tracks(bits, a, b, target) && ((a == 1 && b == 0) || (a == 0 && b == 1))
    ensures bits / 2 % 8 == 0 && MpnJacobiFinish(bits) == target
  {
    hide Jacobi;
    JacobiOverOne(0);
  }

  /** Every division run from a, b that ends in 1, 0 or 0, 1, tracked by the
      automaton, delivers the Jacobi symbol, negated when s is 1. */
  lemma FinishIsJacobi(a: nat, b: nat, s: nat, steps: seq<Step>, a': nat, b': nat)
    requires b % 2 == 1 && s < 2 && Leads(a, b, steps, a', b')
    requires (a' == 1 && b' == 0) || (a' == 0 && b' == 1)
    ensures MpnJacobiInit(a, b, s) < 26 && forall i :: 0 <= i < |steps| ==> steps[i].d < 2
    ensures var end := StateAfter(MpnJacobiInit(a, b, s), steps);
      end / 2 % 8 == 0 && MpnJacobiFinish(end) == Sgn(s == 1) * Jacobi(a, b)
  {
    hide Tracks, Jacobi, Leads, StateAfter, MpnJacobiInit, MpnJacobiFinish;
    InitTracks(a, b, s);
    var target := Sgn(s == 1) * Jacobi(a, b);
    TracksBelow26(MpnJacobiInit(a, b, s), a, b, target);
    LeadsDenominators(a, b, steps, a', b');
    RunTracks(MpnJacobiInit(a, b, s), a, b, target, steps, a', b');
    EndState(StateAfter(MpnJacobiInit(a, b, s), steps), a', b', target);
  }
}
