/** A prime that the sieve of nextprime.c does not return, with a proof by Lucas's
    criterion that it is one. */
module LostPrime {
  import opened Arith
  import opened Primes
  import opened Fermat
  import opened NextPrime

  /** The start of a segment near the end of a word: 2^64 - LOST is a stop of the
      wheel below 2^32. */
  const LOST: nat := 18446744071339105283

  // ----- powers of 2 modulo LOST

  /** One step of binary powering. */
  predicate Step(x: nat, b: nat, y: nat) {
    y == x * x * (1 + b) % LOST
  }

  lemma StepDoubles(e: nat, x: nat, b: nat, y: nat)
    requires b <= 1 && Pow(2, e) % LOST == x && Step(x, b, y)
    ensures Pow(2, 2 * e + b) % LOST == y
  {
    PowAdd(2, e, e);
    PowAdd(2, e + e, b);
    assert Pow(2, b) == 1 + b by { assert Pow(2, 1) == 2 * Pow(2, 0); }
    var z := Pow(2, e);
    ModMod(z, LOST);
    CongMul(x, z, x, z, LOST);
    CongMul(x * x, z * z, 1 + b, 1 + b, LOST);
  }

  /** Four steps, by the bits b1 to b4. */
  lemma Nibble(e: nat, x0: nat, b1: nat, x1: nat, b2: nat, x2: nat, b3: nat, x3: nat, b4: nat, x4: nat)
    requires Pow(2, e) % LOST == x0 && b1 <= 1 && b2 <= 1 && b3 <= 1 && b4 <= 1
    requires Step(x0, b1, x1) && Step(x1, b2, x2) && Step(x2, b3, x3) && Step(x3, b4, x4)
    ensures Pow(2, 16 * e + 8 * b1 + 4 * b2 + 2 * b3 + b4) % LOST == x4
  {
    hide Pow, Step;
    StepDoubles(e, x0, b1, x1);
    StepDoubles(2 * e + b1, x1, b2, x2);
    StepDoubles(4 * e + 2 * b1 + b2, x2, b3, x3);
    StepDoubles(8 * e + 4 * b1 + 2 * b2 + b3, x3, b4, x4);
  }

  lemma Over2Part1()
    ensures Pow(2, 524287) % LOST == 7949910599219502516
  {
    hide Pow;
    SmallPowers();
    Nibble(7, 128, 1, 32768, 1, 2147483648, 1, 9223372036854775808, 1, 12032879944486126086);
    Nibble(127, 12032879944486126086, 1, 16635559404691160614, 1, 10641753790312539028, 1, 5433034133184656553, 1,
           731712371164612711);
    Nibble(2047, 731712371164612711, 1, 17363922916375893172, 1, 16171843066162658692, 1, 2709326342676996328, 1,
           11901683141477635748);
    Nibble(32767, 11901683141477635748, 1, 6594432222165075806, 1, 8859937989727928836, 1, 3264028396462448468, 1,
           7949910599219502516);
  }

  lemma Over2Part2()
    ensures Pow(2, 34359738363) % LOST == 17432361964992201159
  {
    hide Pow;
    Over2Part1();
    Nibble(524287, 7949910599219502516, 1, 11534006743557938903, 1, 16350584284007258025, 1, 15931602474321767824,
           1, 18439472398828735630);
    Nibble(8388607, 18439472398828735630, 1, 11343828480584129114, 1, 8115453877902749027, 1, 4978666091410746590,
           1, 14589595072439975694);
    Nibble(134217727, 14589595072439975694, 1, 16861688885229874566, 1, 17470403622710324121, 1,
           9639776158597627905, 1, 7506729389223356455);
    Nibble(2147483647, 7506729389223356455, 1, 15407520276606042025, 0, 1462026687204209028, 1,
           1493125853372417015, 1, 17432361964992201159);
  }

  lemma Over2Part3()
    ensures Pow(2, 2251799813395886) % LOST == 7911328628713057098
  {
    hide Pow;
    Over2Part2();
    Nibble(34359738363, 17432361964992201159, 1, 14647371153611600097, 0, 7312143306007441155, 0,
           4492012940161082927, 1, 13339922583826708581);
    Nibble(549755813817, 13339922583826708581, 0, 14988722020353605871, 1, 15809900304012648507, 0,
           12044699612870401256, 1, 6912513521890812822);
    Nibble(8796093021077, 6912513521890812822, 1, 15331530601284232200, 0, 12188545394981259346, 1,
           2713556146520395781, 0, 8806672630952265967);
    Nibble(140737488337242, 8806672630952265967, 1, 10018750649554465846, 1, 13822621189669491680, 1,
           11948308023996261635, 0, 7911328628713057098);
  }

  lemma PowerOver2()
    ensures Pow(2, 9223372035669552641) % LOST == 18446744071339105282
  {
    hide Pow;
    Over2Part3();
    Nibble(2251799813395886, 7911328628713057098, 1, 16520157030469854792, 1, 6533696928003854745, 1,
           15523411386855575103, 0, 7456754358679510093);
    Nibble(36028797014334190, 7456754358679510093, 0, 16319278518656035091, 0, 3309391419850455888, 0,
           18074139422328820123, 0, 1255383965787420917);
    Nibble(576460752229347040, 1255383965787420917, 0, 3875227881397166733, 0, 2382440599337624801, 0,
           2417315718857856680, 1, 18446744071339105282);
  }

  lemma Over1103Part1()
    ensures Pow(2, 243368) % LOST == 3341408389864577793
  {
    hide Pow;
    SmallPowers();
    Nibble(3, 8, 1, 128, 0, 16384, 1, 536870912, 1, 576460752303423488);
    Nibble(59, 576460752303423488, 0, 18398188195952011368, 1, 18025580228368710412, 1, 5797247909167875636, 0,
           14594950338287536842);
    Nibble(950, 14594950338287536842, 1, 18428891446325254329, 0, 617698035541328654, 1, 1965010732205220965, 0,
           2333583654880843518);
    Nibble(15210, 2333583654880843518, 1, 10282313080452459941, 0, 1986931173120715567, 0, 7732375142381763507, 0,
           3341408389864577793);
  }

  lemma Over1103Part2()
    ensures Pow(2, 15949398043) % LOST == 17958251424303900480
  {
    hide Pow;
    Over1103Part1();
    Nibble(243368, 3341408389864577793, 1, 11266346431093649547, 0, 2256477379598249324, 0, 764037300595004912, 0,
           11569482070655497685);
    Nibble(3893896, 11569482070655497685, 0, 6843585118744936544, 0, 4223846628875885825, 0, 18366054878255647007,
           0, 9827159861881697650);
    Nibble(62302336, 9827159861881697650, 0, 10336787760077096705, 0, 13027899175163178098, 0,
           2955023722125255332, 1, 16966786248123058742);
    Nibble(996837377, 16966786248123058742, 1, 16331514692861715266, 0, 1248481481246130292, 1,
           16916534569817790392, 1, 17958251424303900480);
  }

  lemma Over1103Part3()
    ensures Pow(2, 1045259750189205) % LOST == 2859118007065189481
  {
    hide Pow;
    Over1103Part2();
    Nibble(15949398043, 17958251424303900480, 1, 3928344675176974736, 0, 6352738874416722333, 1,
           1563145711021958801, 0, 5279752880426760560);
    Nibble(255190368698, 5279752880426760560, 1, 17948777840047595655, 0, 15906211425107211693, 0,
           2900406717637552019, 0, 14296093385887379668);
    Nibble(4083045899176, 14296093385887379668, 1, 17921783108510236661, 0, 17566680347053024632, 0,
           7950022083969473190, 1, 14892855233587844539);
    Nibble(65328734386825, 14892855233587844539, 0, 197697068782289829, 1, 6812181961086926582, 0,
           9693100373577905468, 1, 2859118007065189481);
  }

  lemma PowerOver1103()
    ensures Pow(2, 16724156003027294) % LOST == 2762688031853744350
  {
    hide Pow;
    Over1103Part3();
    Nibble(1045259750189205, 2859118007065189481, 1, 13155047534416953380, 1, 1544039002264746915, 1,
           5108032605161445139, 0, 2762688031853744350);
  }

  lemma Over8147Part1()
    ensures Pow(2, 32948) % LOST == 18118884708527071869
  {
    hide Pow;
    SmallPowers();
    Nibble(0, 1, 1, 2, 0, 4, 0, 16, 0, 256);
    Nibble(8, 256, 0, 65536, 0, 4294967296, 0, 2370446333, 0, 5619015817633146889);
    Nibble(128, 5619015817633146889, 1, 11202005404747326607, 0, 11347054037143891092, 1, 15672791239714124298, 1,
           8721332733318608410);
    Nibble(2059, 8721332733318608410, 0, 17491818519351475825, 1, 12838881557494078366, 0, 9304006941435516844, 0,
           18118884708527071869);
  }

  lemma Over8147Part2()
    ensures Pow(2, 2159345285) % LOST == 13789465657620550537
  {
    hide Pow;
    Over8147Part1();
    Nibble(32948, 18118884708527071869, 1, 14548013398806159763, 1, 16760927073522487605, 1, 2348559730945197685,
           1, 13265084072222506833);
    Nibble(527183, 13265084072222506833, 1, 13207822832989395942, 1, 1831804350400813784, 1, 13962662277995984398,
           0, 1025140266667095155);
    Nibble(8434942, 1025140266667095155, 1, 14433759565314461702, 0, 15995233275087335696, 0, 2551744089560342925,
           0, 13524313311737255542);
    Nibble(134959080, 13524313311737255542, 0, 14733459084974080346, 1, 8707297055144478024, 0,
           17807913937414219324, 1, 13789465657620550537);
  }

  lemma Over8147Part3()
    ensures Pow(2, 141514852640075) % LOST == 1234504137010808762
  {
    hide Pow;
    Over8147Part2();
    Nibble(2159345285, 13789465657620550537, 1, 6650363337862972820, 0, 8743810856089520559, 1,
           285312561377598635, 0, 12816023773031387402);
    Nibble(34549524570, 12816023773031387402, 0, 12098438890077683909, 1, 9733788150809846838, 0,
           11093192181412823007, 1, 4064477612756331465);
    Nibble(552792393125, 4064477612756331465, 0, 16027446729616344172, 1, 15742777732066817824, 0,
           10344763913122311383, 0, 15701904811188353756);
    Nibble(8844678290004, 15701904811188353756, 1, 534544402087035863, 0, 4137158646866328754, 1,
           14282980840238728243, 1, 1234504137010808762);
  }

  lemma PowerOver8147()
    ensures Pow(2, 2264237642241206) % LOST == 1133535980644897196
  {
    hide Pow;
    Over8147Part3();
    Nibble(141514852640075, 1234504137010808762, 0, 464755001569702679, 1, 6541038047126489395, 1,
           8164371817991304077, 0, 1133535980644897196);
  }

  lemma Over10463Part1()
    ensures Pow(2, 410490) % LOST == 5659415370790954382
  {
    hide Pow;
    SmallPowers();
    Nibble(6, 64, 0, 4096, 1, 33554432, 0, 1125899906842624, 0, 15321879063817166824);
    Nibble(100, 15321879063817166824, 0, 17296152672131820145, 0, 14238304741293838103, 1, 3228310147193350260, 1,
           14491010172072764004);
    Nibble(1603, 14491010172072764004, 0, 7522315631028211585, 1, 4994141228107491114, 1, 498999114775875841, 1,
           6742973628681667787);
    Nibble(25655, 6742973628681667787, 1, 14545623012369960661, 0, 15726819562713332848, 1, 17707800405042015263,
           0, 5659415370790954382);
  }

  lemma Over10463Part2()
    ensures Pow(2, 26901937940) % LOST == 4385093355466852581
  {
    hide Pow;
    Over10463Part1();
    Nibble(410490, 5659415370790954382, 1, 5394484902797491250, 1, 11924262626137679483, 1, 1056306699124090044,
           1, 17643654668226391879);
    Nibble(6567855, 17643654668226391879, 1, 9200382032373239230, 1, 72840659757469053, 1, 18221951170424793323,
           1, 1969744944693442075);
    Nibble(105085695, 1969744944693442075, 0, 16645302312239389713, 0, 5817133423128834088, 0,
           8987183852150258896, 1, 14400949534757231665);
    Nibble(1681371121, 14400949534757231665, 0, 1678073794377686423, 1, 8860132023735585921, 0,
           8380879941064302014, 0, 4385093355466852581);
  }

  lemma PowerOver10463()
    ensures Pow(2, 1763045404887614) % LOST == 8471170263519591784
  {
    hide Pow;
    Over10463Part2();
    Nibble(26901937940, 4385093355466852581, 1, 17679167698236617819, 1, 16266971258209065650, 0,
           9275265823911051678, 0, 13148428818158174450);
    Nibble(430431007052, 13148428818158174450, 1, 13554002377663683615, 0, 6407844658624344532, 1,
           1293087094893626058, 0, 1235027100398905954);
    Nibble(6886896112842, 1235027100398905954, 0, 15865597517802430743, 0, 3816918509293719306, 1,
           5272730928276840857, 1, 1170534936164975711);
    Nibble(110190337805475, 1170534936164975711, 1, 1080263919372591386, 1, 11455847916608207034, 1,
           4045123966432048503, 0, 8471170263519591784);
  }

  lemma Over12041Part1()
    ensures Pow(2, 356695) % LOST == 1552943598957690814
  {
    hide Pow;
    SmallPowers();
    Nibble(5, 32, 0, 1024, 1, 2097152, 1, 8796093022208, 1, 19884745072574464);
    Nibble(87, 19884745072574464, 0, 3924360941290059707, 0, 7801230410903039680, 0, 12215791639637840396, 1,
           11908195122331228248);
    Nibble(1393, 11908195122331228248, 0, 5309260206464389453, 1, 16358796820087659881, 0, 5714522606665324486, 1,
           11891759293324120464);
    Nibble(22293, 11891759293324120464, 0, 3083104795617006864, 1, 10778347851139587889, 1, 7915414346211267229,
           1, 1552943598957690814);
  }

  lemma Over12041Part2()
    ensures Pow(2, 23376378762) % LOST == 12475529926525813017
  {
    hide Pow;
    Over12041Part1();
    Nibble(356695, 1552943598957690814, 0, 4975528726573141422, 0, 5351402301224378393, 1, 10167647964017132142,
           1, 8490191596616920347);
    Nibble(5707123, 8490191596616920347, 1, 14954105818394349734, 0, 10832308600113615387, 1, 4780145815718770074,
           1, 6760254560295871279);
    Nibble(91313979, 6760254560295871279, 1, 13472386865170946904, 0, 7956035228249617426, 0, 8529720658891589995,
           0, 2170692853030963916);
    Nibble(1461023672, 2170692853030963916, 1, 3431750143267327574, 0, 1752119825718339390, 1,
           9831191020026434704, 0, 12475529926525813017);
  }

  lemma PowerOver12041()
    ensures Pow(2, 1531994358553202) % LOST == 7998141620929574387
  {
    hide Pow;
    Over12041Part2();
    Nibble(23376378762, 12475529926525813017, 0, 7842741432107283636, 0, 8364628042611978903, 0,
           1929945329530891943, 1, 6839784665403418042);
    Nibble(374022060193, 6839784665403418042, 1, 11680410576852383871, 0, 425239791798247028, 1,
           13748533540238874325, 0, 9677344257136678818);
    Nibble(5984352963098, 9677344257136678818, 0, 16956368979679293652, 1, 10749268027259254104, 1,
           11490519997796859054, 1, 14633911188562100566);
    Nibble(95749647409575, 14633911188562100566, 0, 9406034203660424227, 0, 10801496185688984435, 1,
           1636320864194460674, 0, 7998141620929574387);
  }

  lemma SmallPowers()
    ensures Pow(2, 0) % LOST == 1 && Pow(2, 3) % LOST == 8 && Pow(2, 5) % LOST == 32
    ensures Pow(2, 6) % LOST == 64 && Pow(2, 7) % LOST == 128
  {
    assert Pow(2, 1) == 2;
    assert Pow(2, 2) == 4;
    assert Pow(2, 3) == 8;
    assert Pow(2, 4) == 16;
    assert Pow(2, 5) == 32;
    assert Pow(2, 6) == 64;
    assert Pow(2, 7) == 128;
  }

  // ----- the prime factors of LOST - 1

  /** No factor from d to d + 9. */
  predicate Free(p: nat, d: nat)
    requires 1 <= d
  {
    && p % d != 0 && p % (d + 1) != 0 && p % (d + 2) != 0 && p % (d + 3) != 0 && p % (d + 4) != 0
    && p % (d + 5) != 0 && p % (d + 6) != 0 && p % (d + 7) != 0 && p % (d + 8) != 0 && p % (d + 9) != 0
  }

  lemma FreeMeans(p: nat, d: nat, q: nat)
    requires 1 <= d && Free(p, d) && d <= q < d + 10
    ensures !Divides(q, p)
  {
    var i := q - d;
    assert i == 0 || i == 1 || i == 2 || i == 3 || i == 4 || i == 5 || i == 6 || i == 7 || i == 8 || i == 9;
  }

  lemma SmallPrime(p: nat)
    requires 112 <= p < 112 * 112 && Free(p, 2) && Free(p, 12) && Free(p, 22) && Free(p, 32) && Free(p, 42)
    requires Free(p, 52) && Free(p, 62) && Free(p, 72) && Free(p, 82) && Free(p, 92) && Free(p, 102)
    ensures IsPrime(p)
  {
    hide Free, Divides;
    if !IsPrime(p) {
      var q := CompositeHasSmallFactor(p);
      RootBelow(q, 112, p);
      FreeMeans(p, q / 10 * 10 + (if q % 10 < 2 then -8 else 2), q);
    }
  }

  lemma Prime1103()
    ensures IsPrime(1103)
  {
    hide IsPrime;
    SmallPrime(1103);
  }

  lemma Prime8147()
    ensures IsPrime(8147)
  {
    hide IsPrime;
    SmallPrime(8147);
  }

  lemma Prime10463()
    ensures IsPrime(10463)
  {
    hide IsPrime;
    SmallPrime(10463);
  }

  lemma Prime12041()
    ensures IsPrime(12041)
  {
    hide IsPrime;
    SmallPrime(12041);
  }

  lemma FactorsPrime()
    ensures IsPrime(2) && IsPrime(1103) && IsPrime(8147) && IsPrime(10463) && IsPrime(12041)
  {
    hide IsPrime;
    TwoIsPrime();
    Prime1103();
    Prime8147();
    Prime10463();
    Prime12041();
  }

  /** q divides a * b only if it divides b or is the prime a. */
  lemma FactorOrRest(q: int, a: nat, b: nat)
    requires IsPrime(q) && 2 <= q && IsPrime(a) && Divides(q, a * b)
    ensures q == a || Divides(q, b)
  {
    EuclidsLemma(q, a, b);
    if Divides(q, a) { PrimeDividesPrime(q, a); }
  }

  lemma PrimeFactorsOfLostMinus1(q: int)
    requires IsPrime(q) && 2 <= q && Divides(q, LOST - 1)
    ensures q == 2 || q == 1103 || q == 8147 || q == 10463 || q == 12041
  {
    hide IsPrime, Divides;
    FactorsPrime();
    FactorOrRest(q, 2, 9223372035669552641);
    if Divides(q, 9223372035669552641) { FactorOrRest(q, 1103, 8362078001513647); }
    if Divides(q, 8362078001513647) { FactorOrRest(q, 8147, 1026399656501); }
    if Divides(q, 1026399656501) { FactorOrRest(q, 8147, 125984983); }
    if Divides(q, 125984983) { FactorOrRest(q, 10463, 12041); }
    if Divides(q, 12041) { PrimeDividesPrime(q, 12041); }
  }

  /** LOST is prime: 2 has order LOST - 1. */
  lemma LostIsPrime()
    ensures IsPrime(LOST)
  {
    hide Pow, Divides, IsPrime;
    PowerOver2();
    PowAdd(2, LOST / 2, LOST / 2);
    var z := Pow(2, LOST / 2);
    CongMul(z, LOST - 1, z, LOST - 1, LOST);
    forall q | IsPrime(q) && 2 <= q && Divides(q, LOST - 1)
      ensures Pow(2, (LOST - 1) / q) % LOST != 1
    {
      PrimeFactorsOfLostMinus1(q);
      PowerOver1103();
      PowerOver8147();
      PowerOver10463();
      PowerOver12041();
    }
    LucasFromTwo(LOST);
  }

  lemma LucasFromTwo(n: nat)
    requires 2 <= n && Pow(2, n - 1) % n == 1
    requires forall q :: IsPrime(q) && 2 <= q && Divides(q, n - 1) ==> Pow(2, (n - 1) / q) % n != 1
    ensures IsPrime(n)
  {
    hide Pow, Divides;
    LucasPrimality(2, n);
  }

  /** The sieve does not return it, because the wrapped sum marks its entry. */
  lemma LostNotListed()
    ensures IsPrime(LOST) && Fits(LOST) && !Listed(LOST)
  {
    hide Listed, RootFor, IsPrime;
    LostIsPrime();
    SegmentIs(LOST, LOST);
    var r := RootExists(EndOf(LOST));
    RootIs(r, EndOf(LOST));
    ListedMeaning(LOST, r);
  }

  /** No call ever returns it. */
  lemma NeverReturned(k: nat)
    ensures ListedBefore(k) != LOST
  {
    hide Listed, HasNext;
    LostNotListed();
    if k > 0 && HasNext(ListedBefore(k - 1)) {
      assert Listed(NextListed(ListedBefore(k - 1)));
    }
  }

  /** A run that gets past it has returned a number that was not the prime due. */
  lemma PastLostIsWrong(k: nat)
    requires LOST < ListedBefore(k + 1)
    ensures exists j: nat :: j <= k && ListedBefore(j + 1) != NthPrime(j)
  {
    hide Listed, IsPrime, ListedBefore, NthPrime;
    LostNotListed();
    CallsReturnPrimes(k);
  }
}
