/** The per-character file pipeline of zyltest-ntl.cpp.  A file is a sequence of
    characters; opening files, timing and console output are not modelled. */
module PaillierFile {
  import opened Arith
  import opened Primes
  import opened Paillier

  /** A C++ char on the platforms the program targets: eight bits, signed. */
  type SChar = c: int | -128 <= c < 128

  type Text = seq<SChar>

  const ZERO: SChar := 48
  const BREAK: SChar := 10

  // ----- decimal text

  /** Characters are signed, so bytes from 128 up count as negative. */
  function DigitValue(c: SChar): int {
    c - ZERO
  }

  /** The number read from a line; an empty line reads its terminating zero. */
  function TextValue(s: Text): int {
    if s == [] then 0 - ZERO
    else if |s| == 1 then DigitValue(s[0])
    else TextValue(s[..|s| - 1]) * 10 + DigitValue(s[|s| - 1])
  }

  function Sum(s: seq<int>): int {
    if s == [] then 0 else Sum(s[..|s| - 1]) + s[|s| - 1]
  }

  /** What each character contributes: its distance to the character 0, which is 48,
      times a power of ten. */
  function PlaceValues(s: Text): (t: seq<int>)
    ensures |t| == |s| && forall i :: 0 <= i < |s| ==> t[i] == (s[i] - 48) * Pow(10, |s| - 1 - i)
  {
    seq(|s|, i requires 0 <= i < |s| => (s[i] - 48) * Pow(10, |s| - 1 - i))
  }

  lemma SumLast(s: seq<int>)
    ensures Sum([]) == 0 && (s != [] ==> Sum(s) == Sum(s[..|s| - 1]) + s[|s| - 1])
  {
  }

  lemma {:induction false} SumTimes(s: seq<int>, t: seq<int>, k: int)
    requires |s| == |t| && forall i :: 0 <= i < |s| ==> t[i] == k * s[i]
    ensures Sum(t) == k * Sum(s)
    decreases |s|
  {
    if s != [] {
      var n := |s| - 1;
      SumTimes(s[..n], t[..n], k);
      assert k * (Sum(s[..n]) + s[n]) == k * Sum(s[..n]) + k * s[n];
    }
  }

  /** The value of a line is the sum of the place values. */
  lemma {:induction false} TextValueIsSum(s: Text)
    requires s != []
    ensures TextValue(s) == Sum(PlaceValues(s))
    decreases |s|
  {
    hide Sum;
    var n := |s| - 1;
    var t, v, w := s[..n], PlaceValues(s), PlaceValues(s[..n]);
    SumLast(v);
    PowZero(10);
    assert v[n] == DigitValue(s[n]);
    forall i | 0 <= i < n
      ensures v[..n][i] == 10 * w[i]
    {
      PowStep(10, n - i);
      var d: int := s[i];
      MulRotate(10, d - 48, Pow(10, n - 1 - i));
    }
    SumTimes(w, v[..n], 10);
    if n > 0 { TextValueIsSum(t); }
  }

  /** stringToNumber1; an empty string has its terminating zero for first character. */
  method StringToNumber1(str: Text) returns (number: int)
    ensures number == TextValue(str)
    ensures str != [] ==> number == Sum(PlaceValues(str))
    ensures str == [] ==> number == -48
  {
    number := if str == [] then 0 - ZERO else DigitValue(str[0]);
    var i := 1;
    while i < |str|
      invariant 1 <= i && (i <= |str| || str == [])
      invariant str == [] ==> number == TextValue(str)
      invariant str != [] ==> number == TextValue(str[..i])
    {
      number := number * 10;
      number := number + DigitValue(str[i]);
      assert str[..i + 1][..i] == str[..i];
      i := i + 1;
    }
    assert str != [] ==> str[..i] == str;
    if str != [] { TextValueIsSum(str); }
  }

  function Digit(d: nat): (c: SChar)
    requires d < 10
    ensures DigitValue(c) == d && c != BREAK
  {
    ZERO + d
  }

  /** The characters 48 to 57, and no 48 in front of others. */
  predicate Digits(s: Text) {
    s != [] && (forall i :: 0 <= i < |s| ==> 48 <= s[i] <= 57) && (s[0] == 48 ==> |s| == 1)
  }

  /** What the output operator writes for a non-negative number. */
  function Decimal(n: nat): (s: Text)
    ensures s != [] && BREAK !in s
    ensures TextValue(s) == n
    ensures Digits(s)
    ensures 0 < n ==> s[0] != ZERO
  {
    if n < 10 then [Digit(n)]
    else
      var t := Decimal(n / 10);
      assert (t + [Digit(n % 10)])[..|t|] == t;
      t + [Digit(n % 10)]
  }

  /** It is the only text of digits with that value and without a leading zero. */
  lemma {:induction false} DecimalUnique(s: Text)
    requires Digits(s)
    ensures 0 <= TextValue(s) && s == Decimal(TextValue(s))
    ensures s[0] != 48 ==> 1 <= TextValue(s)
    decreases |s|
  {
    var n := |s| - 1;
    if n > 0 {
      var t, d := s[..n], DigitValue(s[n]);
      DecimalUnique(t);
      DivModUnique(TextValue(s), 10, TextValue(t), d);
    }
    assert s == s[..n] + [s[n]];
  }

  // ----- lines

  function FirstBreak(s: Text): (i: nat)
    ensures i <= |s| && BREAK !in s[..i]
    ensures i < |s| ==> s[i] == BREAK
  {
    if s == [] || s[0] == BREAK then 0
    else
      var i := FirstBreak(s[1..]);
      assert s[..i + 1] == [s[0]] + s[1..][..i];
      i + 1
  }

  /** The lines that getline delivers: a final break opens no further line. */
  function Lines(s: Text): seq<Text> {
    if s == [] then []
    else
      var i := FirstBreak(s);
      [s[..i]] + (if i == |s| then [] else Lines(s[i + 1..]))
  }

  function WriteLines(ls: seq<Text>): Text {
    if ls == [] then [] else ls[0] + [BREAK] + WriteLines(ls[1..])
  }

  lemma {:induction false} FirstBreakOf(l: Text, rest: Text)
    requires BREAK !in l
    ensures FirstBreak(l + [BREAK] + rest) == |l|
    decreases |l|
  {
    if l != [] {
      assert l[0] in l;
      assert (l + [BREAK] + rest)[1..] == l[1..] + [BREAK] + rest;
      FirstBreakOf(l[1..], rest);
    }
  }

  lemma FirstLine(l: Text, rest: Text)
    requires BREAK !in l
    ensures Lines(l + [BREAK] + rest) == [l] + Lines(rest)
  {
    hide FirstBreak;
    var s := l + [BREAK] + rest;
    FirstBreakOf(l, rest);
    LinesStep(s);
    assert s[..|l|] == l;
    assert s[|l| + 1..] == rest;
    LinesOfEmpty();
  }

  lemma {:induction false} LinesOfWritten(ls: seq<Text>)
    requires forall i :: 0 <= i < |ls| ==> BREAK !in ls[i]
    ensures Lines(WriteLines(ls)) == ls
    decreases |ls|
  {
    hide FirstBreak;
    if ls != [] {
      LinesOfWritten(ls[1..]);
      hide Lines;
      FirstLine(ls[0], WriteLines(ls[1..]));
      assert ls == [ls[0]] + ls[1..];
    } else {
      LinesOfEmpty();
    }
  }

  // ----- the two file operations

  function CipherLines(text: seq<SChar>, n: nat, g: nat, r: nat): (ls: seq<Text>)
    requires 2 <= n * n && Coprime(g, n * n)
    ensures |ls| == |text|
    ensures forall i :: 0 <= i < |ls| ==> ls[i] == Decimal(Encrypt(text[i], n, g, r))
  {
    if text == [] then []
    else [Decimal(Encrypt(text[0], n, g, r))] + CipherLines(text[1..], n, g, r)
  }

  function NumberLines(cs: seq<nat>): (ls: seq<Text>)
    ensures |ls| == |cs| && forall i :: 0 <= i < |cs| ==> ls[i] == Decimal(cs[i])
  {
    seq(|cs|, i requires 0 <= i < |cs| => Decimal(cs[i]))
  }

  /** The loop that writes the numbers. */
  method WriteNumbers(cs: seq<nat>) returns (target: Text, ghost starts: seq<nat>, ghost ends: seq<nat>)
    ensures target == WriteLines(NumberLines(cs))
    ensures OneAfterAnother(starts, ends, |cs|, |target|)
    ensures forall i :: 0 <= i < |cs| ==> CipherLine(target, starts[i], ends[i], cs[i])
  {
    hide Decimal, WriteLines, CipherLine, NumberLines;
    NothingWritten();
    target, starts, ends := [], [], [];
    ghost var lines := NumberLines(cs);
    for i := 0 to |cs|
      invariant target == WriteLines(lines[..i])
      invariant OneAfterAnother(starts, ends, i, |target|)
      invariant forall j :: 0 <= j < i ==> CipherLine(target, starts[j], ends[j], cs[j])
    {
      WriteLinesAppend(lines[..i], lines[i]);
      assert lines[..i] + [lines[i]] == lines[..i + 1];
      ghost var before := target;
      target := target + Decimal(cs[i]) + [BREAK];
      forall j | 0 <= j < i
        ensures CipherLine(target, starts[j], ends[j], cs[j])
      {
        CipherLineKept(before, target, starts[j], ends[j], cs[j]);
      }
      starts, ends := starts + [|before|], ends + [|target| - 1];
      NewCipherLine(before, cs[i], target);
    }
    assert lines[..|cs|] == lines;
  }

  /** encryptFile.  Line i of the target, from starts[i] up to the character 10 at
      ends[i], is the number for byte i in decimal digits. */
  method EncryptFile(source: seq<SChar>, n: nat, g: nat, r: nat)
    returns (target: Text, ghost starts: seq<nat>, ghost ends: seq<nat>)
    requires 2 <= n * n && Coprime(g, n * n)
    ensures target == WriteLines(CipherLines(source, n, g, r))
    ensures OneAfterAnother(starts, ends, |source|, |target|)
    ensures forall i :: 0 <= i < |source| ==>
      && starts[i] < ends[i] < |target| && target[ends[i]] == 10
      && Digits(target[starts[i]..ends[i]])
      && Sum(PlaceValues(target[starts[i]..ends[i]])) == Encrypt(source[i], n, g, r)
  {
    hide Encrypt, Decimal, CipherLines, WriteLines, Sum, PlaceValues, CipherLine;
    var asciiSequence: seq<int> := [];
    for i := 0 to |source|
      invariant asciiSequence == source[..i]
    {
      asciiSequence := asciiSequence + [source[i]];
    }
    var cryAsciiSequence: seq<nat> := [];
    for i := 0 to |source|
      invariant |cryAsciiSequence| == i
      invariant forall j :: 0 <= j < i ==> cryAsciiSequence[j] == Encrypt(source[j], n, g, r)
    {
      cryAsciiSequence := cryAsciiSequence + [Encrypt(asciiSequence[i], n, g, r)];
    }
    target, starts, ends := WriteNumbers(cryAsciiSequence);
    assert NumberLines(cryAsciiSequence) == CipherLines(source, n, g, r);
    forall i | 0 <= i < |source|
      ensures && starts[i] < ends[i] < |target| && target[ends[i]] == 10
        && Digits(target[starts[i]..ends[i]])
        && Sum(PlaceValues(target[starts[i]..ends[i]])) == Encrypt(source[i], n, g, r)
    {
      CipherLineMeans(target, starts[i], ends[i], cryAsciiSequence[i]);
    }
  }

  /** The digits of c, without a leading zero, and the character 10. */
  ghost predicate CipherLine(target: Text, from: nat, to: nat, c: nat) {
    && from < to < |target| && target[to] == 10
    && Digits(target[from..to]) && Sum(PlaceValues(target[from..to])) == c
  }

  lemma CipherLineMeans(target: Text, from: nat, to: nat, c: nat)
    requires CipherLine(target, from, to, c)
    ensures from < to < |target| && target[to] == 10
    ensures Digits(target[from..to]) && Sum(PlaceValues(target[from..to])) == c
  {
  }

  lemma CipherLineKept(before: Text, after: Text, from: nat, to: nat, c: nat)
    requires CipherLine(before, from, to, c) && |before| <= |after| && before == after[..|before|]
    ensures CipherLine(after, from, to, c)
  {
    assert after[from..to] == before[from..to];
  }

  lemma NewCipherLine(before: Text, c: nat, after: Text)
    requires after == before + Decimal(c) + [BREAK]
    ensures CipherLine(after, |before|, |after| - 1, c)
  {
    hide Sum, PlaceValues;
    assert after[|before|..|after| - 1] == Decimal(c);
    TextValueIsSum(Decimal(c));
  }

  /** Stretches of one character more than from starts[i] to ends[i] that lie one after
      the other and reach from 0 to length. */
  ghost predicate OneAfterAnother(starts: seq<nat>, ends: seq<nat>, count: nat, length: nat) {
    && |starts| == |ends| == count
    && (count == 0 ==> length == 0)
    && (count > 0 ==> starts[0] == 0 && ends[count - 1] + 1 == length)
    && forall i, j :: 0 <= i && j == i + 1 < count ==> starts[j] == ends[i] + 1
  }

  lemma NothingWritten()
    ensures WriteLines([]) == []
  {
  }

  lemma {:induction false} WriteLinesAppend(ls: seq<Text>, l: Text)
    ensures WriteLines(ls + [l]) == WriteLines(ls) + l + [BREAK]
    decreases |ls|
  {
    if ls == [] {
      assert [l][1..] == [];
      assert WriteLines([l]) == l + [BREAK] + [];
    } else {
      assert (ls + [l])[1..] == ls[1..] + [l];
      WriteLinesAppend(ls[1..], l);
      assert WriteLines(ls) + l + [BREAK] == ls[0] + [BREAK] + (WriteLines(ls[1..]) + l + [BREAK]);
    }
  }

  /** The conversion of a decrypted number to int and then to char keeps the low
      eight bits. */
  function ToChar(m: nat): SChar {
    var low := m % 256;
    if low < 128 then low else low - 256
  }

  /** The char with the same low eight bits, and only that one. */
  lemma ToCharLowBits(m: nat, c: SChar)
    ensures ToChar(m) == c <==> (m - c) % 256 == 0
  {
    var q, low := m / 256, m % 256;
    var d: int := ToChar(m) - c;
    assert m - c == 256 * (if low < 128 then q else q + 1) + d;
  }

  function PlainText(lines: seq<Text>, n: nat, lambda: nat, mu: nat): (t: seq<SChar>)
    requires 2 <= n <= n * n
    ensures |t| == |lines|
    ensures forall i :: 0 <= i < |t| ==> t[i] == ToChar(Decrypt(TextValue(lines[i]), n, lambda, mu))
  {
    if lines == [] then []
    else [ToChar(Decrypt(TextValue(lines[0]), n, lambda, mu))] + PlainText(lines[1..], n, lambda, mu)
  }

  lemma LinesOfEmpty()
    ensures Lines([]) == []
  {
  }

  /** The line that starts at from and ends at to. */
  ghost predicate LineAt(source: Text, from: nat, to: nat, line: Text) {
    && from < |source| && from <= to <= |source|
    && line == source[from..to] && 10 !in line && (to < |source| ==> source[to] == 10)
  }

  /** The lines read so far, where they stand, and what is left from position at on. */
  ghost predicate Reading(source: Text, lines: seq<Text>, starts: seq<nat>, ends: seq<nat>, at: nat, rest: Text) {
    && Lines(source) == lines + Lines(rest)
    && Left(source, at, rest) && OneAfterAnother(starts, ends, |lines|, at)
    && LinesAt(source, lines, starts, ends)
  }

  predicate Left(source: Text, at: nat, rest: Text) {
    at <= |source| + 1 && rest == if at <= |source| then source[at..] else []
  }

  ghost predicate LinesAt(source: Text, lines: seq<Text>, starts: seq<nat>, ends: seq<nat>) {
    && |starts| == |ends| == |lines|
    && forall i :: 0 <= i < |lines| ==> LineAt(source, starts[i], ends[i], lines[i])
  }

  lemma NothingRead(source: Text)
    ensures Reading(source, [], [], [], 0, source)
  {
    hide Lines;
    assert [] + Lines(source) == Lines(source);
  }

  lemma TakeLine(lines: seq<Text>, rest: Text, i: nat, after: Text)
    requires rest != [] && i == FirstBreak(rest) && after == if i == |rest| then [] else rest[i + 1..]
    ensures lines + Lines(rest) == lines + [rest[..i]] + Lines(after)
  {
    hide Lines, FirstBreak;
    LinesStep(rest);
    LinesOfEmpty();
  }

  lemma NextLine(source: Text, at: nat, rest: Text, i: nat)
    requires Left(source, at, rest) && rest != [] && i == FirstBreak(rest)
    ensures LineAt(source, at, at + i, rest[..i])
    ensures Left(source, at + i + 1, if i == |rest| then [] else rest[i + 1..])
  {
    hide FirstBreak;
    assert source[at..][..i] == source[at..at + i];
    if i < |rest| { assert rest[i + 1..] == source[at + i + 1..]; }
  }

  lemma LinesAtMore(source: Text, lines: seq<Text>, starts: seq<nat>, ends: seq<nat>, line: Text, at: nat, to: nat)
    requires LinesAt(source, lines, starts, ends) && LineAt(source, at, to, line)
    ensures LinesAt(source, lines + [line], starts + [at], ends + [to])
  {
    hide LineAt;
  }

  lemma ReadOn(
      source: Text, lines: seq<Text>, starts: seq<nat>, ends: seq<nat>, at: nat, rest: Text, i: nat,
      line: Text, after: Text)
    requires Reading(source, lines, starts, ends, at, rest) && rest != [] && i == FirstBreak(rest)
    requires line == rest[..i] && after == if i == |rest| then [] else rest[i + 1..]
    ensures Reading(source, lines + [line], starts + [at], ends + [at + i], at + i + 1, after)
  {
    hide Lines, FirstBreak, LineAt, LinesAt, Left, OneAfterAnother;
    TakeLine(lines, rest, i, after);
    NextLine(source, at, rest, i);
    NextStretch(starts, ends, |lines|, at, at + i);
    LinesAtMore(source, lines, starts, ends, line, at, at + i);
  }

  lemma NextStretch(starts: seq<nat>, ends: seq<nat>, count: nat, at: nat, to: nat)
    requires OneAfterAnother(starts, ends, count, at)
    ensures OneAfterAnother(starts + [at], ends + [to], count + 1, to + 1)
  {
  }

  /** After the last line. */
  lemma AllRead(source: Text, lines: seq<Text>, starts: seq<nat>, ends: seq<nat>, at: nat)
    requires Reading(source, lines, starts, ends, at, [])
    ensures lines == Lines(source) && |source| <= at <= |source| + 1 && OneAfterAnother(starts, ends, |lines|, at)
    ensures |starts| == |ends| == |lines|
    ensures forall i :: 0 <= i < |lines| ==>
      && starts[i] <= ends[i] <= |source| && starts[i] < |source|
      && 10 !in source[starts[i]..ends[i]] && (ends[i] < |source| ==> source[ends[i]] == 10)
      && lines[i] == source[starts[i]..ends[i]]
  {
    hide Lines;
    LinesOfEmpty();
    assert at <= |source| ==> |source[at..]| == |source| - at;
    forall i | 0 <= i < |lines|
      ensures LineAt(source, starts[i], ends[i], lines[i])
    {
    }
  }

  lemma LinesStep(s: Text)
    requires s != []
    ensures var i := FirstBreak(s);
      Lines(s) == [s[..i]] + (if i == |s| then [] else Lines(s[i + 1..]))
  {
    hide FirstBreak;
  }

  /** decryptFile.  Line i is what stands from starts[i] up to the next character 10 or
      the end of the file, at ends[i]; no line is opened behind the last character. */
  method DecryptFile(source: Text, n: nat, lambda: nat, mu: nat)
    returns (target: seq<SChar>, ghost starts: seq<nat>, ghost ends: seq<nat>)
    requires 2 <= n <= n * n
    ensures target == PlainText(Lines(source), n, lambda, mu)
    ensures exists end :: |source| <= end <= |source| + 1 && OneAfterAnother(starts, ends, |target|, end)
    ensures |target| <= |starts| && |target| <= |ends|
    ensures forall i :: 0 <= i < |target| ==>
      && starts[i] <= ends[i] <= |source| && starts[i] < |source|
      && 10 !in source[starts[i]..ends[i]] && (ends[i] < |source| ==> source[ends[i]] == 10)
      && target[i] == ToChar(Decrypt(TextValue(source[starts[i]..ends[i]]), n, lambda, mu))
  {
    hide Decrypt, TextValue, Lines, FirstBreak, OneAfterAnother, Reading, ToChar;
    var decryAsciiSequence: seq<nat> := [];
    var rest := source;
    ghost var done: seq<Text>, at := [], 0;
    starts, ends := [], [];
    NothingRead(source);
    while rest != []
      invariant Reading(source, done, starts, ends, at, rest)
      invariant |done| == |decryAsciiSequence|
      invariant forall i :: 0 <= i < |done| ==>
        decryAsciiSequence[i] == Decrypt(TextValue(done[i]), n, lambda, mu)
      decreases |rest|
    {
      var i := FirstBreak(rest);
      var line := rest[..i];
      var after := if i == |rest| then [] else rest[i + 1..];
      ReadOn(source, done, starts, ends, at, rest, i, line, after);
      starts, ends, at := starts + [at], ends + [at + i], at + i + 1;
      done := done + [line];
      var c := StringToNumber1(line);
      decryAsciiSequence := decryAsciiSequence + [Decrypt(c, n, lambda, mu)];
      rest := after;
    }
    AllRead(source, done, starts, ends, at);
    target := [];
    for i := 0 to |decryAsciiSequence|
      invariant |target| == i
      invariant forall j :: 0 <= j < i ==> target[j] == ToChar(decryAsciiSequence[j])
    {
      target := target + [ToChar(decryAsciiSequence[i])];
    }
  }

  // ----- which files survive

  /** g = n + 1 is a unit modulo n squared. */
  lemma GeneratorCoprime(n: nat)
    requires 2 <= n <= n * n
    ensures Coprime(n + 1, n * n)
  {
    assert (n + 1) * (1 - n) + (n * n) * 1 == 1 by { assert (n + 1) * (1 - n) == 1 - n * n; }
    CoprimeFromBezout(n + 1, n * n, 1 - n, 1);
  }

  /** A negative message b behaves as the message n + b. */
  lemma NegativeMessage(n: int, b: int)
    requires 2 <= n <= n * n && -n <= b < 0
    requires Coprime(n + 1, n * n)
    ensures PowerMod(n + 1, b, n * n) == Pow(n + 1, n + b) % (n * n)
  {
    var nn, g, k := n * n, n + 1, -b;
    var h := InvMod(g, nn).value;
    PowMulBase(g, h, k);
    SmallMod(1, nn);
    PowCong(g * h, 1, k, nn);
    PowOne(k);
    PowOnePlus(1, n, n);
    assert (n * 1) * n == 1 * nn;
    ModAddMul(1, 1, nn);
    PowAdd(g, n - k, k);
    var x, y, z := Pow(g, n - k), Pow(g, k), Pow(h, k);
    CongMul(x * y, 1, z, z, nn);
    MulAssoc(x, y, z);
    CongMul(x, x, y * z, 1, nn);
  }

  /** A single byte survives exactly when it is not negative. */
  lemma ByteRoundTrip(p: nat, q: nat, k: Keys, b: SChar, r: nat)
    requires ValidKeys(p, q, k) && Coprime(r, k.n) && 128 <= k.n <= k.n * k.n && Coprime(k.g, k.n * k.n)
    ensures ToChar(Decrypt(Encrypt(b, k.n, k.g, r), k.n, k.lambda, k.mu)) == b <==> 0 <= b
  {
    var n := k.n;
    if 0 <= b {
      RoundTrip(p, q, k, b, r);
      SmallMod(b, n);
    } else {
      NegativeMessage(n, b);
      EncryptResidue(n + b, n, k.g, r);
      DecryptResidue(p, q, k, Encrypt(b, n, k.g, r), n + b, r);
      SmallMod(n + b, n);
      ModulusOdd(p, q, k);
    }
  }

  /** A usable modulus is odd, so it never vanishes in the low eight bits. */
  lemma ModulusOdd(p: nat, q: nat, k: Keys)
    requires ValidKeys(p, q, k)
    ensures k.n % 2 == 1
  {
    EvenFactorFails(p, q, k);
    assert q * p == p * q;
    EvenFactorFails(q, p, k);
    assert IsPrime(2);
    if Divides(2, k.n) { EuclidsLemma(2, p, q); }
  }

  /** If p were 2, then q - 1 and hence lambda would be even, and lambda would
      not be a unit modulo 2q. */
  lemma EvenFactorFails(p: nat, q: nat, k: Keys)
    requires ValidKeys(p, q, k)
    ensures !Divides(2, p)
  {
    if Divides(2, p) {
      assert p == 2;
      assert !Divides(2, q) || q == 2;
      DividesTrans(2, q - 1, k.lambda);
      DividesProduct(2, k.lambda, k.mu);
      NTwo(p, q, k);
      ModOfMultiple(k.lambda * k.mu, 2, q);
    }
  }

  /** The file pipeline gives back exactly the files without bytes from 128 up:
      those bytes are negative as chars. */
  lemma FileRoundTrip(p: nat, q: nat, k: Keys, text: seq<SChar>, r: nat)
    requires ValidKeys(p, q, k) && Coprime(r, k.n) && 128 <= k.n
    ensures 2 <= k.n <= k.n * k.n && Coprime(k.g, k.n * k.n)
    ensures PlainText(Lines(WriteLines(CipherLines(text, k.n, k.g, r))), k.n, k.lambda, k.mu) == text
       <==> forall i :: 0 <= i < |text| ==> 0 <= text[i]
  {
    NTwo(p, q, k);
    GeneratorCoprime(k.n);
    var ls := CipherLines(text, k.n, k.g, r);
    LinesOfWritten(ls);
    var t := PlainText(ls, k.n, k.lambda, k.mu);
    forall i | 0 <= i < |text|
      ensures t[i] == text[i] <==> 0 <= text[i]
    {
      ByteRoundTrip(p, q, k, text[i], r);
    }
  }
}
