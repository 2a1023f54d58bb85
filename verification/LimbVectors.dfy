/** The limb vector inlines of gmp.h: carry and borrow loops over 64-bit limbs, whose
    destination may be one of the sources. */
module LimbVectors {
  import opened Arith
  import opened LimbDivision

  // ----- values

  /** The number in the first n limbs, least significant first. */
  function Val(s: seq<Word>, n: nat): int
    requires n <= |s|
  {
    if n == 0 then 0 else Val(s, n - 1) + s[n - 1] * Pow(B, n - 1)
  }

  lemma {:induction false} ValSame(s: seq<Word>, t: seq<Word>, n: nat)
    requires n <= |s| && n <= |t| && forall i :: 0 <= i < n ==> s[i] == t[i]
    ensures Val(s, n) == Val(t, n)
    decreases n
  {
    if n > 0 { ValSame(s, t, n - 1); }
  }

  lemma {:induction false} ValRange(s: seq<Word>, n: nat)
    requires n <= |s|
    ensures 0 <= Val(s, n) < Pow(B, n)
    decreases n
  {
    if n > 0 {
      ValRange(s, n - 1);
      PowPositive(B, n - 1);
      MulMono(0, s[n - 1], Pow(B, n - 1));
      MulMono(s[n - 1], B - 1, Pow(B, n - 1));
    } else {
      assert Pow(B, 0) == 1;
    }
  }

  /** The vector is determined by its value. */
  lemma {:induction false} ValInjective(s: seq<Word>, t: seq<Word>, n: nat)
    requires n <= |s| && n <= |t| && Val(s, n) == Val(t, n)
    ensures forall i :: 0 <= i < n ==> s[i] == t[i]
    decreases n
  {
    if n > 0 {
      ValRange(s, n - 1);
      ValRange(t, n - 1);
      var p := Pow(B, n - 1);
      DivModUnique(Val(s, n), p, s[n - 1], Val(s, n - 1));
      DivModUnique(Val(t, n), p, t[n - 1], Val(t, n - 1));
      ValInjective(s, t, n - 1);
    }
  }

  /** A value and a carry out are determined together. */
  lemma CarryUnique(v: int, c: int, w: int, d: int, p: int)
    requires 0 <= v < p && 0 <= w < p && v + c * p == w + d * p
    ensures v == w && c == d
  {
    DivModUnique(v + c * p, p, c, v);
    DivModUnique(w + d * p, p, d, w);
  }

  /** One digit of a sum: the position's weight is p. */
  lemma DigitStep(x: int, y: int, cy: int, d: int, cy': int, p: int)
    requires x + y + cy == d + cy' * B
    ensures x * p + y * p + cy * p == d * p + cy' * (B * p)
  {
    calc {
      x * p + y * p + cy * p;
      (x + y + cy) * p;
      (d + cy' * B) * p;
      { MulAssoc(cy', B, p); }
      d * p + cy' * (B * p);
    }
  }

  lemma PowNext(n: nat)
    ensures Pow(B, n + 1) == B * Pow(B, n) && 0 < Pow(B, n)
  {
    PowPositive(B, n);
  }

  // ----- equal length

  /** The specification of a carry loop: n limbs of w with carry c, against the old
      operands. */
  predicate Sum(w: seq<Word>, c: int, x: seq<Word>, xn: nat, y: seq<Word>, yn: nat, n: nat)
    requires n <= |w| && xn <= |x| && yn <= |y|
  {
    0 <= c <= 1 && Val(w, n) + c * Pow(B, n) == Val(x, xn) + Val(y, yn)
  }

  predicate Difference(w: seq<Word>, c: int, x: seq<Word>, xn: nat, y: seq<Word>, yn: nat, n: nat)
    requires n <= |w| && xn <= |x| && yn <= |y|
  {
    0 <= c <= 1 && Val(w, n) - c * Pow(B, n) == Val(x, xn) - Val(y, yn)
  }

  /** What the two specifications say. */
  lemma SumAndDifference(w: seq<Word>, c: int, x: seq<Word>, xn: nat, y: seq<Word>, yn: nat, n: nat)
    requires n <= |w| && xn <= |x| && yn <= |y|
    ensures Sum(w, c, x, xn, y, yn, n) <==>
      0 <= c <= 1 && Val(w, n) + c * Pow(B, n) == Val(x, xn) + Val(y, yn)
    ensures Difference(w, c, x, xn, y, yn, n) <==>
      0 <= c <= 1 && Val(w, n) - c * Pow(B, n) == Val(x, xn) - Val(y, yn)
  {
    hide Pow, Val;
  }

  /** Limb 0 is the least significant one: it is the remainder modulo B, and the other
      limbs are the quotient. */
  lemma {:induction false} ValHorner(s: seq<Word>, n: nat)
    requires 1 <= n <= |s|
    ensures Val(s, n) == s[0] + B * Val(s[1..], n - 1)
    decreases n
  {
    PowZero(B);
    if n > 1 {
      ValHorner(s, n - 1);
      PowStep(B, n - 1);
      var t, p := s[n - 1], Pow(B, n - 2);
      MulRotate(t, B, p);
      assert B * (Val(s[1..], n - 2) + t * p) == B * Val(s[1..], n - 2) + B * (t * p);
    }
  }

  lemma SumStep(w: seq<Word>, w': seq<Word>, x: seq<Word>, y: seq<Word>, i: nat, cy: int, cy': int)
    requires i < |w| == |w'| && i < |x| && i < |y| && Sum(w, cy, x, i, y, i, i)
    requires w' == w[i := w'[i]] && 0 <= cy' <= 1 && x[i] + y[i] + cy == w'[i] + cy' * B
    ensures Sum(w', cy', x, i + 1, y, i + 1, i + 1)
  {
    ValSame(w, w', i);
    PowNext(i);
    DigitStep(x[i], y[i], cy, w'[i], cy', Pow(B, i));
  }

  lemma DifferenceStep(w: seq<Word>, w': seq<Word>, x: seq<Word>, y: seq<Word>, i: nat, cy: int, cy': int)
    requires i < |w| == |w'| && i < |x| && i < |y| && Difference(w, cy, x, i, y, i, i)
    requires w' == w[i := w'[i]] && 0 <= cy' <= 1 && x[i] - y[i] - cy == w'[i] - cy' * B
    ensures Difference(w', cy', x, i + 1, y, i + 1, i + 1)
  {
    ValSame(w, w', i);
    PowNext(i);
    DigitStep(w'[i], y[i], cy, x[i], cy', Pow(B, i));
  }

  /** mpn_add_n, a primitive of the repository; w may be x or y. */
  method AddN(w: array<Word>, x: array<Word>, y: array<Word>, n: nat) returns (cy: int)
    requires n <= w.Length && n <= x.Length && n <= y.Length
    modifies w
    ensures Sum(w[..], cy, old(x[..]), n, old(y[..]), n, n)
    ensures forall j :: n <= j < w.Length ==> w[j] == old(w[j])
  {
    hide Sum, Low;
    cy := 0;
    ghost var xs, ys := x[..], y[..];
    SumStart(w[..], xs, ys);
    for i := 0 to n
      invariant Sum(w[..], cy, xs, i, ys, i, i) && 0 <= cy <= 1
      invariant forall j :: i <= j < w.Length ==> w[j] == old(w[j])
      invariant forall j :: i <= j < x.Length ==> x[j] == xs[j]
      invariant forall j :: i <= j < y.Length ==> y[j] == ys[j]
    {
      ghost var before := w[..];
      var s := x[i] + y[i] + cy;
      ghost var c := cy;
      LowIs(s, if s < B then 0 else 1, if s < B then s else s - B);
      w[i] := Low(s);
      cy := if s < B then 0 else 1;
      assert w[..] == before[i := w[..][i]];
      SumStep(before, w[..], xs, ys, i, c, cy);
    }
  }

  lemma SumStart(w: seq<Word>, x: seq<Word>, y: seq<Word>)
    ensures Sum(w, 0, x, 0, y, 0, 0) && Difference(w, 0, x, 0, y, 0, 0)
  {
  }

  /** mpn_sub_n. */
  method SubN(w: array<Word>, x: array<Word>, y: array<Word>, n: nat) returns (cy: int)
    requires n <= w.Length && n <= x.Length && n <= y.Length
    modifies w
    ensures Difference(w[..], cy, old(x[..]), n, old(y[..]), n, n)
    ensures forall j :: n <= j < w.Length ==> w[j] == old(w[j])
  {
    hide Difference, Low;
    cy := 0;
    ghost var xs, ys := x[..], y[..];
    SumStart(w[..], xs, ys);
    for i := 0 to n
      invariant Difference(w[..], cy, xs, i, ys, i, i) && 0 <= cy <= 1
      invariant forall j :: i <= j < w.Length ==> w[j] == old(w[j])
      invariant forall j :: i <= j < x.Length ==> x[j] == xs[j]
      invariant forall j :: i <= j < y.Length ==> y[j] == ys[j]
    {
      ghost var before := w[..];
      var s := x[i] - y[i] - cy;
      ghost var c := cy;
      LowIs(s, if s < 0 then -1 else 0, if s < 0 then s + B else s);
      w[i] := Low(s);
      cy := if s < 0 then 1 else 0;
      assert w[..] == before[i := w[..][i]];
      DifferenceStep(before, w[..], xs, ys, i, c, cy);
    }
  }

  // ----- different lengths

  lemma CarryStep(w: seq<Word>, w': seq<Word>, x: seq<Word>, y: seq<Word>, yn: nat, i: nat, cy: int, cy': int)
    requires i < |w| == |w'| && i < |x| && yn <= |y| && Sum(w, cy, x, i, y, yn, i)
    requires w' == w[i := w'[i]] && 0 <= cy' <= 1 && x[i] + cy == w'[i] + cy' * B
    ensures Sum(w', cy', x, i + 1, y, yn, i + 1)
  {
    ValSame(w, w', i);
    PowNext(i);
    DigitStep(x[i], 0, cy, w'[i], cy', Pow(B, i));
  }

  lemma BorrowStep(w: seq<Word>, w': seq<Word>, x: seq<Word>, y: seq<Word>, yn: nat, i: nat, cy: int, cy': int)
    requires i < |w| == |w'| && i < |x| && yn <= |y| && Difference(w, cy, x, i, y, yn, i)
    requires w' == w[i := w'[i]] && 0 <= cy' <= 1 && x[i] - cy == w'[i] - cy' * B
    ensures Difference(w', cy', x, i + 1, y, yn, i + 1)
  {
    ValSame(w, w', i);
    PowNext(i);
    DigitStep(w'[i], 0, cy, x[i], cy', Pow(B, i));
  }

  /** Once there is no carry, the remaining limbs are those of x. */
  lemma {:induction false} RestCopied(w: seq<Word>, x: seq<Word>, i: nat, n: nat)
    requires i <= n <= |w| && n <= |x| && forall j :: i <= j < n ==> w[j] == x[j]
    ensures Val(w, n) - Val(w, i) == Val(x, n) - Val(x, i)
    decreases n
  {
    if i < n { RestCopied(w, x, i, n - 1); }
  }

  /** __GMPN_COPY_REST. */
  method CopyRest(dst: array<Word>, src: array<Word>, size: nat, start: nat)
    requires start <= size <= dst.Length && size <= src.Length
    modifies dst
    ensures forall j :: 0 <= j < dst.Length ==> dst[j] == if start <= j < size then old(src[j]) else old(dst[j])
  {
    for j := start to size
      invariant forall k :: 0 <= k < dst.Length ==> dst[k] == if start <= k < j then old(src[k]) else old(dst[k])
      invariant forall k :: j <= k < size ==> src[k] == old(src[k])
    {
      dst[j] := src[j];
    }
  }

  /** The end of both loops: copying, then no carry. */
  method Finish(w: array<Word>, x: array<Word>, n: nat, i: nat, ghost xs: seq<Word>)
    requires i <= n <= w.Length && n <= x.Length == |xs| && forall j :: i <= j < n ==> x[j] == xs[j]
    modifies w
    ensures Val(w[..], n) == old(Val(w[..], i)) + Val(xs, n) - Val(xs, i)
    ensures forall j :: n <= j < w.Length ==> w[j] == old(w[j])
  {
    if w != x {
      CopyRest(w, x, n, i);
    }
    ValSame(old(w[..]), w[..], i);
    RestCopied(w[..], xs, i, n);
  }

  /** Sending a carry of 1 up from limb start; the loop of mpn_add and mpn_add_1. */
  method CarryUp(w: array<Word>, x: array<Word>, xn: nat, start: nat,
        ghost xs: seq<Word>, ghost ys: seq<Word>, ghost yn: nat)
    returns (c: int)
    requires start <= xn <= w.Length && xn <= x.Length == |xs| && yn <= |ys|
    requires Sum(w[..], 1, xs, start, ys, yn, start) && forall j :: start <= j < xn ==> x[j] == xs[j]
    modifies w
    ensures Sum(w[..], c, xs, xn, ys, yn, xn)
    ensures forall j :: xn <= j < w.Length ==> w[j] == old(w[j])
  {
    hide Low, Sum;
    var i := start;
    while true
      invariant start <= i <= xn && Sum(w[..], 1, xs, i, ys, yn, i)
      invariant forall j :: i <= j < xn ==> x[j] == xs[j]
      invariant forall j :: xn <= j < w.Length ==> w[j] == old(w[j])
      decreases xn - i
    {
      if i >= xn { return 1; }
      ghost var before := w[..];
      var v: int := x[i];
      LowIs(v + 1, if v == B - 1 then 1 else 0, if v == B - 1 then 0 else v + 1);
      w[i] := Low(v + 1);
      assert w[..] == before[i := w[..][i]];
      CarryStep(before, w[..], xs, ys, yn, i, 1, if v == B - 1 then 1 else 0);
      i := i + 1;
      if w[i - 1] != 0 { break; }
    }
    ghost var done := w[..];
    Finish(w, x, xn, i, xs);
    SumFinished(done, w[..], xs, xn, ys, yn, i);
    c := 0;
  }

  lemma SumFinished(done: seq<Word>, w: seq<Word>, xs: seq<Word>, xn: nat, ys: seq<Word>, yn: nat, i: nat)
    requires i <= xn <= |w| == |done| && xn <= |xs| && yn <= |ys|
    requires Sum(done, 0, xs, i, ys, yn, i) && Val(w, xn) == Val(done, i) + Val(xs, xn) - Val(xs, i)
    ensures Sum(w, 0, xs, xn, ys, yn, xn)
  {
  }

  lemma DifferenceFinished(done: seq<Word>, w: seq<Word>, xs: seq<Word>, xn: nat, ys: seq<Word>, yn: nat, i: nat)
    requires i <= xn <= |w| == |done| && xn <= |xs| && yn <= |ys|
    requires Difference(done, 0, xs, i, ys, yn, i) && Val(w, xn) == Val(done, i) + Val(xs, xn) - Val(xs, i)
    ensures Difference(w, 0, xs, xn, ys, yn, xn)
  {
  }

  /** mpn_add: operands of any lengths xn >= yn, in place or separate. */
  method MpnAdd(w: array<Word>, x: array<Word>, xn: nat, y: array<Word>, yn: nat) returns (c: int)
    requires yn <= xn <= w.Length && xn <= x.Length && yn <= y.Length
    modifies w
    ensures Sum(w[..], c, old(x[..]), xn, old(y[..]), yn, xn)
    ensures 0 <= c <= 1 && Val(w[..], xn) + c * Pow(B, xn) == old(Val(x[..], xn)) + old(Val(y[..], yn))
    ensures forall j :: xn <= j < w.Length ==> w[j] == old(w[j])
  {
    hide Low, Sum, Val, Pow;
    ghost var xs, ys := x[..], y[..];
    var cy := 0;
    SumStart(w[..], xs, ys);
    if yn != 0 {
      cy := AddN(w, x, y, yn);
    }
    SumAndDifference(w[..], cy, xs, yn, ys, yn, yn);
    if cy != 0 {
      c := CarryUp(w, x, xn, yn, xs, ys, yn);
    } else {
      ghost var done := w[..];
      Finish(w, x, xn, yn, xs);
      SumFinished(done, w[..], xs, xn, ys, yn, yn);
      c := 0;
    }
    SumAndDifference(w[..], c, xs, xn, ys, yn, xn);
  }

  /** Sending a borrow of 1 up; the loop of mpn_sub and mpn_sub_1. */
  method BorrowUp(w: array<Word>, x: array<Word>, xn: nat, start: nat,
        ghost xs: seq<Word>, ghost ys: seq<Word>, ghost yn: nat)
    returns (c: int)
    requires start <= xn <= w.Length && xn <= x.Length == |xs| && yn <= |ys|
    requires Difference(w[..], 1, xs, start, ys, yn, start) && forall j :: start <= j < xn ==> x[j] == xs[j]
    modifies w
    ensures Difference(w[..], c, xs, xn, ys, yn, xn)
    ensures forall j :: xn <= j < w.Length ==> w[j] == old(w[j])
  {
    hide Low, Difference;
    var i := start;
    while true
      invariant start <= i <= xn && Difference(w[..], 1, xs, i, ys, yn, i)
      invariant forall j :: i <= j < xn ==> x[j] == xs[j]
      invariant forall j :: xn <= j < w.Length ==> w[j] == old(w[j])
      decreases xn - i
    {
      if i >= xn { return 1; }
      ghost var before := w[..];
      var v: int := x[i];
      LowIs(v - 1, if v == 0 then -1 else 0, if v == 0 then B - 1 else v - 1);
      w[i] := Low(v - 1);
      assert w[..] == before[i := w[..][i]];
      BorrowStep(before, w[..], xs, ys, yn, i, 1, if v == 0 then 1 else 0);
      i := i + 1;
      if v != 0 { break; }
    }
    ghost var done := w[..];
    Finish(w, x, xn, i, xs);
    DifferenceFinished(done, w[..], xs, xn, ys, yn, i);
    c := 0;
  }

  /** mpn_sub. */
  method MpnSub(w: array<Word>, x: array<Word>, xn: nat, y: array<Word>, yn: nat) returns (c: int)
    requires yn <= xn <= w.Length && xn <= x.Length && yn <= y.Length
    modifies w
    ensures Difference(w[..], c, old(x[..]), xn, old(y[..]), yn, xn)
    ensures 0 <= c <= 1 && Val(w[..], xn) - c * Pow(B, xn) == old(Val(x[..], xn)) - old(Val(y[..], yn))
    ensures forall j :: xn <= j < w.Length ==> w[j] == old(w[j])
  {
    hide Low, Difference, Val, Pow;
    ghost var xs, ys := x[..], y[..];
    var cy := 0;
    SumStart(w[..], xs, ys);
    if yn != 0 {
      cy := SubN(w, x, y, yn);
    }
    SumAndDifference(w[..], cy, xs, yn, ys, yn, yn);
    if cy != 0 {
      c := BorrowUp(w, x, xn, yn, xs, ys, yn);
    } else {
      ghost var done := w[..];
      Finish(w, x, xn, yn, xs);
      DifferenceFinished(done, w[..], xs, xn, ys, yn, yn);
      c := 0;
    }
    SumAndDifference(w[..], c, xs, xn, ys, yn, xn);
  }

  lemma OneLimb(s: seq<Word>)
    requires 1 <= |s|
    ensures Val(s, 1) == s[0] && Pow(B, 1) == B
  {
    assert Pow(B, 0) == 1;
  }

  /** mpn_add_1: the second operand is a single limb. */
  method MpnAdd1(dst: array<Word>, src: array<Word>, n: nat, v: Word) returns (c: int)
    requires 1 <= n <= dst.Length && n <= src.Length
    modifies dst
    ensures Sum(dst[..], c, old(src[..]), n, [v], 1, n)
    ensures forall j :: n <= j < dst.Length ==> dst[j] == old(dst[j])
  {
    ghost var xs := src[..];
    var x := src[0];
    var r := Low(x + v);
    dst[0] := r;
    OneLimb(dst[..]);
    OneLimb(xs);
    OneLimb([v]);
    LowIs(x + v, if x + v < B then 0 else 1, if x + v < B then x + v else x + v - B);
    if r < v {
      c := CarryUp(dst, src, n, 1, xs, [v], 1);
    } else {
      ghost var done := dst[..];
      Finish(dst, src, n, 1, xs);
      SumFinished(done, dst[..], xs, n, [v], 1, 1);
      c := 0;
    }
  }

  /** mpn_sub_1. */
  method MpnSub1(dst: array<Word>, src: array<Word>, n: nat, v: Word) returns (c: int)
    requires 1 <= n <= dst.Length && n <= src.Length
    modifies dst
    ensures Difference(dst[..], c, old(src[..]), n, [v], 1, n)
    ensures forall j :: n <= j < dst.Length ==> dst[j] == old(dst[j])
  {
    ghost var xs := src[..];
    var x := src[0];
    var r := Low(x - v);
    dst[0] := r;
    OneLimb(dst[..]);
    OneLimb(xs);
    OneLimb([v]);
    LowIs(x - v, if x < v then -1 else 0, if x < v then x - v + B else x - v);
    if x < v {
      c := BorrowUp(dst, src, n, 1, xs, [v], 1);
    } else {
      ghost var done := dst[..];
      Finish(dst, src, n, 1, xs);
      DifferenceFinished(done, dst[..], xs, n, [v], 1, 1);
      c := 0;
    }
  }

  /** Subtracting what was added restores the vector and returns the carry as a
      borrow, and the other way round. */
  lemma AddSubInverse(x: seq<Word>, n: nat, y: seq<Word>, yn: nat, w: seq<Word>, c: int, z: seq<Word>, d: int)
    requires n <= |x| && n <= |w| && n <= |z| && yn <= |y|
    requires (Sum(w, c, x, n, y, yn, n) && Difference(z, d, w, n, y, yn, n))
      || (Difference(w, c, x, n, y, yn, n) && Sum(z, d, w, n, y, yn, n))
    ensures d == c && forall i :: 0 <= i < n ==> z[i] == x[i]
  {
    var p := Pow(B, n);
    ValRange(x, n);
    ValRange(z, n);
    if Sum(w, c, x, n, y, yn, n) && Difference(z, d, w, n, y, yn, n) {
      CarryUnique(Val(z, n), c, Val(x, n), d, p);
    } else {
      CarryUnique(Val(z, n), d, Val(x, n), c, p);
    }
    ValInjective(z, x, n);
  }

  // ----- comparing, zero, negation

  lemma TopDecides(x: seq<Word>, y: seq<Word>, i: nat, n: nat)
    requires i < n <= |x| && n <= |y| && forall j :: i < j < n ==> x[j] == y[j]
    requires x[i] < y[i]
    ensures Val(x, n) < Val(y, n)
  {
    RestCopied(x, y, i + 1, n);
    ValRange(x, i);
    ValRange(y, i);
    MulMono(x[i] + 1, y[i], Pow(B, i));
    assert (x[i] + 1) * Pow(B, i) == x[i] * Pow(B, i) + Pow(B, i);
  }

  /** mpn_cmp orders vectors by their values. */
  method MpnCmp(x: array<Word>, y: array<Word>, size: nat) returns (r: int)
    requires size <= x.Length && size <= y.Length
    ensures r == if Val(x[..], size) > Val(y[..], size) then 1
                 else if Val(x[..], size) < Val(y[..], size) then -1 else 0
  {
    var i := size;
    while i > 0
      invariant 0 <= i <= size && forall j :: i <= j < size ==> x[j] == y[j]
    {
      i := i - 1;
      if x[i] != y[i] {
        if x[i] > y[i] {
          TopDecides(y[..], x[..], i, size);
          return 1;
        } else {
          TopDecides(x[..], y[..], i, size);
          return -1;
        }
      }
    }
    ValSame(x[..], y[..], size);
    r := 0;
  }

  lemma {:induction false} ZeroValue(s: seq<Word>, n: nat)
    requires n <= |s|
    ensures Val(s, n) == 0 <==> forall i :: 0 <= i < n ==> s[i] == 0
    decreases n
  {
    if n > 0 {
      ZeroValue(s, n - 1);
      ValRange(s, n - 1);
      PowPositive(B, n - 1);
      if s[n - 1] > 0 { MulPositive(s[n - 1], Pow(B, n - 1)); }
    }
  }

  /** mpn_zero_p. */
  method MpnZeroP(p: array<Word>, n: nat) returns (r: int)
    requires 1 <= n <= p.Length
    ensures r == if Val(p[..], n) == 0 then 1 else 0
  {
    ZeroValue(p[..], n);
    var i := n;
    while true
      invariant 1 <= i <= n && forall j :: i <= j < n ==> p[j] == 0
      decreases i
    {
      i := i - 1;
      if p[i] != 0 { return 0; }
      if i == 0 { break; }
    }
    r := 1;
  }

  /** The digits of a negation: zeros, then one negated limb, then complements. */
  predicate Negated(r: seq<Word>, u: seq<Word>, z: nat, n: nat) {
    && z < n <= |r| && n <= |u| && u[z] != 0 && r[z] == B - u[z]
    && (forall j :: 0 <= j < z ==> u[j] == 0 && r[j] == 0)
    && (forall j :: z < j < n ==> r[j] == B - 1 - u[j])
  }

  lemma {:induction false} NegatedValue(r: seq<Word>, u: seq<Word>, z: nat, n: nat)
    requires Negated(r, u, z, n)
    ensures Val(r, n) == Pow(B, n) - Val(u, n)
    decreases n
  {
    var p := Pow(B, n - 1);
    PowNext(n - 1);
    if n == z + 1 {
      ZeroValue(u, z);
      ZeroValue(r, z);
      assert (B - u[z]) * p == B * p - u[z] * p;
    } else {
      NegatedValue(r, u, z, n - 1);
      assert (B - 1 - u[n - 1]) * p == B * p - p - u[n - 1] * p;
    }
  }

  /** mpn_neg: B^n minus the value, and 0 exactly for a zero operand. */
  method MpnNeg(r: array<Word>, u: array<Word>, n: nat) returns (c: int)
    requires 1 <= n <= r.Length && n <= u.Length
    modifies r
    ensures c == if old(Val(u[..], n)) == 0 then 0 else 1
    ensures Val(r[..], n) == c * Pow(B, n) - old(Val(u[..], n))
    ensures forall j :: n <= j < r.Length ==> r[j] == old(r[j])
  {
    ghost var us := u[..];
    ZeroValue(us, n);
    var i := 0;
    while u[i] == 0
      invariant 0 <= i < n && forall j :: 0 <= j < i ==> us[j] == 0 && r[j] == 0
      invariant forall j :: i <= j < u.Length ==> u[j] == us[j]
      invariant forall j :: i <= j < r.Length ==> r[j] == old(r[j])
      decreases n - i
    {
      r[i] := 0;
      i := i + 1;
      if i == n {
        ZeroValue(r[..], n);
        return 0;
      }
    }
    ghost var z := i;
    r[i] := B - u[i];
    i := i + 1;
    while i < n
      invariant z < i <= n && forall j :: i <= j < u.Length ==> u[j] == us[j]
      invariant Negated(r[..], us, z, i)
      invariant forall j :: i <= j < r.Length ==> r[j] == old(r[j])
    {
      r[i] := B - 1 - u[i];
      i := i + 1;
    }
    NegatedValue(r[..], us, z, n);
    c := 1;
  }
}
