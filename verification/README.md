# Exact integer algorithms of a Paillier program and of GMP 6.2.1

The repository holds one author's file encryption with the Paillier scheme and, beside
it, a copy of GMP 6.2.1. This project models the parts of both that make exact claims
about integers, in Dafny, and proves those claims.

* `Paillier`, `PaillierFile`: keys, encryption, decryption, homomorphic addition, and
  the pipeline that writes one decimal ciphertext line per byte.
* `MillerRabin`, `Factorize`: the demonstration factoriser with its Lucas proofs of
  primality and its Pollard rho restarts, proved to end on every number. `Fermat` holds
  Fermat's little theorem and Lucas's converse.
* `NextPrime`: the resumable segmented sieve with sentinel, wheel and wrapped words, and
  exactly which numbers it returns; `LostPrime` proves one prime that it does not.
* `SieveMath`, `SieveMasks`, `SieveFill`, `PrimeSieve`: the bit-packed block sieve, bit
  by bit, including the pre-sieved constants and the rotating masks. That its endless
  scan loops stop needs a prime between the square root and the end of a block;
  `PrimeGaps` proves there is one, from `Binomials`.
* `JacobiSymbol`, `JacobiAutomaton`: the Jacobi symbol with all its laws up to quadratic
  reciprocity, and the 26-state machine that tracks it along a division run.
* `LimbDivision`, `Reciprocals`, `BinaryInverse`: division by precomputed reciprocals,
  two limbs by one and three by two, and inverses modulo powers of two.
* `Digits`: the rounded logarithm behind digit estimates.
* `Gmpxx`, `GmpxxOps`: in-place evaluation of expression templates under aliasing, and
  operator bodies that write more than once.
* `TmpAlloc`: the mark and release allocator.
* `PerfectSquares`, `FactorialTables`, `TrialDivTables`: three table generators.
* `LimbVectors`, `ExtractDouble`: carry loops over limb vectors, and the decoding of
  binary64 numbers (section 3.4 of IEEE 754-2019).
* `Arith`, `Primes`, `Products`, `Limbs`: shared arithmetic.

Limbs have 64 bits without nails, and their wrap-around is written out. Big numbers are
mathematical integers, and the mpz and NTL calls on them are taken at their mathematical
meaning. Loops and objects that the code updates in place are methods and classes here.
Where the code does not do what one would expect, the condition is stated: which
blinders lose messages, which bytes do not survive the file pipeline, for which divisors
a generated reciprocal is unusable, at which numbers the primality proof aborts, and which
primes the segmented sieve loses near the end of a word.

`dafny verify dfyconfig.toml` verifies the whole project.

## Model

| member | source | states |
|---|---|---|
| Paillier.InvMod | esync/H-test/zyltest-ntl.cpp:68 | the inverse modulo m exists exactly for arguments coprime to m, and is one |
| Paillier.EncryptResidue | esync/H-test/zyltest-ntl.cpp:89-97 | the ciphertext of a non-negative message is g^m r^n modulo n^2, below n^2 |
| Paillier.KeyGeneration | esync/H-test/zyltest-ntl.cpp:55-69 | for distinct primes p, q key generation succeeds exactly when (p-1)(q-1) and pq are coprime; then lambda is a common multiple of p-1 and q-1 and mu inverts it modulo n |
| Paillier.DecryptResidue | esync/H-test/zyltest-ntl.cpp:105-111 | every c congruent to (1+n)^m x^n modulo n^2, x a unit, decrypts to m mod n, and the division in L is exact |
| Paillier.RoundTrip | esync/H-test/zyltest-ntl.cpp:89-111 | encryption with a unit blinder followed by decryption gives the message modulo n |
| Paillier.HomomorphicSum | esync/H-test/zyltest-ntl.cpp:113-120 | for any list of messages with unit blinders, the product of the ciphertexts modulo n^2 decrypts to the sum of the messages modulo n |
| Paillier.ValidHomomorphic | esync/H-test/zyltest-ntl.cpp:113-120 | the two-ciphertext check prints the combined ciphertext and the sum of the two messages modulo n |
| Paillier.SharedFactorForgets | esync/H-test/zyltest-ntl.cpp:69 | if p divides the drawn blinder, decryption no longer depends on the message modulo p |
| Paillier.BlinderCondition | esync/H-test/zyltest-ntl.cpp:69-111 | all messages below n survive a round trip if and only if the drawn blinder is coprime to n |
| PaillierFile.StringToNumber1 | esync/H-test/zyltest-ntl.cpp:22-40 | the number is the sum of (str[i] - 48) 10^(length - 1 - i) over a text of signed chars, digits or not; the empty text reads its zero terminator and gives -48 |
| PaillierFile.DecimalUnique | esync/H-test/zyltest-ntl.cpp:190-193 | what the output operator writes for n is the only non-empty text of characters 48 to 57 without a leading zero whose value is n |
| PaillierFile.ToCharLowBits | esync/H-test/zyltest-ntl.cpp:240-245 | the conversion to char yields the one signed char that is congruent to the number modulo 256 |
| PaillierFile.EncryptFile | esync/H-test/zyltest-ntl.cpp:149-204 | the target is, byte after byte and with nothing between, the digits 48 to 57 without a leading zero whose place values sum to the encryption of the signed char, and the character 10 |
| PaillierFile.DecryptFile | esync/H-test/zyltest-ntl.cpp:207-251 | the target holds one char for every stretch of the source up to a character 10 or the end, the low byte of the decryption of its value; no line is opened behind the last character |
| PaillierFile.ByteRoundTrip | esync/H-test/zyltest-ntl.cpp:177-245 | a byte comes back from encryption and decryption if and only if its char value is not negative |
| PaillierFile.FileRoundTrip | esync/H-test/zyltest-ntl.cpp:177-251 | a whole file comes back through decimal text if and only if all its bytes are below 128 |
| MillerRabin.MpMillerrabin | esync/H-test/gmp-6.2.1/demos/factorize.c:161-181 | 1 exactly when x^q is 1 or some x^(2^i q), i < k, is -1 modulo n, although the loop leaves early |
| MillerRabin.FalseRootFails | esync/H-test/gmp-6.2.1/demos/factorize.c:161-181 | if some x^(2^(i+1) q), i < k, is 1 modulo n while x^(2^i q) is neither 1 nor -1, the answer is 0 |
| MillerRabin.SplitUnique | esync/H-test/gmp-6.2.1/demos/factorize.c:202-204 | n - 1 = 2^k q with q odd fixes k and q |
| MillerRabin.PassesImpliesFermat | esync/H-test/gmp-6.2.1/demos/factorize.c:161-181 | passing to base x implies x^(n-1) = 1 modulo n |
| MillerRabin.PrimePasses | esync/H-test/gmp-6.2.1/demos/factorize.c:161-181 | a prime passes to every base it does not divide, so failing proves compositeness |
| Fermat.LittleFermat | esync/H-test/gmp-6.2.1/demos/factorize.c:161-181 | supporting mathematics: Fermat's little theorem, on which the answer 0 of the test rests |
| Fermat.LucasPrimality | esync/H-test/gmp-6.2.1/demos/factorize.c:222-254 | n is prime when some a has a^(n-1) = 1 but no a^((n-1)/f) = 1 for a prime f dividing n-1 |
| Factorize.Factors.FactorInsert | esync/H-test/gmp-6.2.1/demos/factorize.c:70-107 | one insertion multiplies the denoted number by the prime, raises only that exponent, and keeps the list strictly increasing with positive exponents |
| Factorize.FactorUsingDivision | esync/H-test/gmp-6.2.1/demos/factorize.c:120-159 | trial division conserves (product of the list) times t, lists primes only, and leaves a t that is 1, prime, or without a prime factor below the first omitted prime |
| Factorize.OrderTest | esync/H-test/gmp-6.2.1/demos/factorize.c:228-237 | the inner loop is 1 exactly when a^((n-1)/f) modulo n differs from 1 for every listed f |
| Factorize.LucasFromList | esync/H-test/gmp-6.2.1/demos/factorize.c:228-237 | the order test against a list that denotes n-1 proves n prime |
| Factorize.MpPrimeP | esync/H-test/gmp-6.2.1/demos/factorize.c:183-266 | it always ends: 1 means prime with proving on, and prime or past 25 tests with proving off; 0 means composite; below the square of the first omitted prime it answers, from there on failing the test to base 2, as by a false square root of 1 among the powers of 2, gives 0; it aborts at every stuck number, and only if some number up to n is stuck |
| Factorize.FalseRootSeen | esync/H-test/gmp-6.2.1/demos/factorize.c:203-215 | for n - 1 = 2^k q, q odd: if a^(2^(i+1) q), i < k, is 1 modulo n and a^(2^i q) neither 1 nor -1, then n fails the test to base a |
| Factorize.PassesBaseInPowers | esync/H-test/gmp-6.2.1/demos/factorize.c:203-215 | for n - 1 = 2^k q, q odd, the test to base a is passed exactly if a^q is 1 or some a^(2^i q), i < k, is -1 modulo n |
| Factorize.AcceptedMeans | esync/H-test/gmp-6.2.1/demos/factorize.c:238-245 | with proving off an accepted number is prime or passes the tests to the first 25 bases of the table; with proving on it is prime |
| Factorize.OrderOkIff | esync/H-test/gmp-6.2.1/demos/factorize.c:228-237 | testing the listed factors of n-1 is testing all its prime factors |
| Factorize.TryBases | esync/H-test/gmp-6.2.1/demos/factorize.c:222-257 | the loop over bases ends in a Lucas proof, a Miller-Rabin refutation or 25 passed tests when not proving, and aborts if and only if n is stuck: every table base passes and none is a Lucas witness |
| Factorize.CourseStep | esync/H-test/gmp-6.2.1/demos/factorize.c:292-300 | each step keeps: x and y lie on the sequence from z, and the product shares only those primes with n modulo which the sequence returns to z |
| Factorize.CourseDivided | esync/H-test/gmp-6.2.1/demos/factorize.c:336-359 | so does dividing n by the factor found and reducing the state, although the product is not reset |
| Factorize.StepInPowers | esync/H-test/gmp-6.2.1/demos/factorize.c:292-296 | a step of the sequence squares, reduces and adds a |
| Factorize.Round | esync/H-test/gmp-6.2.1/demos/factorize.c:292-310 | k steps of the sequence with a gcd at every 32nd, left early exactly when the product shares a factor with n; otherwise no number congruent to z was met |
| Factorize.OnCycle | esync/H-test/gmp-6.2.1/demos/factorize.c:288-322 | from its n-th number on the sequence runs on a cycle of at most n numbers modulo n |
| Factorize.Advance | esync/H-test/gmp-6.2.1/demos/factorize.c:288-322 | the endless search always ends, with a product that shares a factor with n |
| Factorize.WillMeet | esync/H-test/gmp-6.2.1/demos/factorize.c:324-334 | whenever the search reports a factor, some later number after y meets z, so the retrace loop always ends, in the first search and in all later ones |
| Factorize.Retrace | esync/H-test/gmp-6.2.1/demos/factorize.c:324-336 | retracing stops at the first number that meets z, with a divisor of n above 1, possibly n itself |
| Factorize.ProperAtOnce | esync/H-test/gmp-6.2.1/demos/factorize.c:336-348 | when a + 2 is the least prime factor of n up to a multiple of n, the first step and the first retrace find a proper divisor, so the restarts with a + 1 cannot find all of n for ever |
| Factorize.FactorUsingPollardRho | esync/H-test/gmp-6.2.1/demos/factorize.c:268-363 | rho with all its restarts ends on every composite number; every iteration and restart conserves (product of the list) times (what is left); what it inserts is prime, or with proving off past 25 tests; it gives up only if some number up to n is stuck |
| Factorize.Factor | esync/H-test/gmp-6.2.1/demos/factorize.c:365-386 | factor always ends with an ordered list that denotes t, of primes when proving and otherwise of primes and numbers past 25 tests, unless some number up to t is stuck; with proving off, or below the square of the first omitted prime, it never aborts |
| Factorize.FactorisationUnique | esync/H-test/gmp-6.2.1/demos/factorize.c:365-386 | two ordered prime lists with the same product are equal, so the list is the factorisation |
| NextPrime.WheelStops | esync/H-test/gmp-6.2.1/nextprime.c:64-66 | between one stop of the mod-210 wheel and the next, in every turn, exactly the stop itself is free of the factors 2, 3, 5 and 7 |
| NextPrime.GmpPrimesieve.Init | esync/H-test/gmp-6.2.1/nextprime.c:159-166 | the initial state promises the listed numbers from the first one on |
| NextPrime.FirstIndexHit | esync/H-test/gmp-6.2.1/nextprime.c:105-138 | computed in words, the first index is that of the first proper multiple of p while s0 + p fits a word; a sum of exactly 2^64 gives index 0, a larger one an index beyond the segment |
| NextPrime.GmpPrimesieve.StrikeOut | esync/H-test/gmp-6.2.1/nextprime.c:105-151 | the loop marks exactly those entries and their continuations, and leaves the sentinel alone |
| NextPrime.GmpPrimesieve.UpdateSqrt | esync/H-test/gmp-6.2.1/nextprime.c:101-103 | the word-sized loop stops at the least root its wrapped test accepts, for every segment whose end fits a word |
| NextPrime.RootIs | esync/H-test/gmp-6.2.1/nextprime.c:101-103 | that is the exact square root below (2^32 - 1)^2, and from there on some number past 2^32 |
| NextPrime.SqrtTestStops | esync/H-test/gmp-6.2.1/nextprime.c:101-103 | the wrapped test (r+1)^2 <= end misses its stop if and only if r is 2^32 - 1 |
| NextPrime.GmpPrimesieve.Resieve | esync/H-test/gmp-6.2.1/nextprime.c:96-155 | a refill marks exactly the entries that 3, 5, 7 or a stop of the wheel up to the computed root hits, also after the wrapped start 3 - 2 SIEVESIZE |
| NextPrime.MarkedMeaning | esync/H-test/gmp-6.2.1/nextprime.c:96-155 | these are the composites with a factor below 2^64 - s0, and entry 0 if 2^64 - s0 is a stop up to the computed root |
| NextPrime.FitsToTheEnd | esync/H-test/gmp-6.2.1/nextprime.c:96-103 | of the segments that occur, those whose square-root update is known to stop are exactly those whose end fits a word |
| NextPrime.GmpPrimesieve.Scan | esync/H-test/gmp-6.2.1/nextprime.c:72-75 | the scan stops at the first clear entry, at the latest at the sentinel |
| NextPrime.GmpPrimesieve.Refill | esync/H-test/gmp-6.2.1/nextprime.c:96-155 | moving to the next segment skips no listed number |
| NextPrime.GmpPrimesieve.GmpNextprime | esync/H-test/gmp-6.2.1/nextprime.c:59-157 | for every segment that fits a word, the k-th call returns the k-th listed number, 2 or one whose entry stays clear; the self-calls end by the distance to that number |
| NextPrime.SegmentExactIff | esync/H-test/gmp-6.2.1/nextprime.c:96-155 | a segment yields exactly its primes if and only if its entry 0 is not falsely marked while prime and every composite, but a falsely marked one, has a factor below 2^64 - s0 |
| NextPrime.ExactBeforeLastBlock | esync/H-test/gmp-6.2.1/nextprime.c:96-155 | segments that start at least 2^32 before the end of a word yield exactly their primes, except for a falsely marked entry 0 |
| NextPrime.CallsReturnPrimes | esync/H-test/gmp-6.2.1/nextprime.c:59-157 | the first k + 1 calls return the first k + 1 primes if and only if the listed numbers up to the last of them are the primes |
| NextPrime.CallsReturnPrimesIff | esync/H-test/gmp-6.2.1/nextprime.c:59-157 | equivalently: up to there no prime is falsely marked and every odd composite has a factor below 2^64 less its segment's start, or is falsely marked |
| NextPrime.KthCallBelowLimit | esync/H-test/gmp-6.2.1/nextprime.c:59-157 | while the k-th prime leaves a segment below (2^32 - 1)^2, the k-th call returns it |
| NextPrime.PrimesInOrder | esync/H-test/gmp-6.2.1/nextprime.c:59-157 | the k-th prime that these statements speak of: from 2 on, increasing, without a gap |
| LostPrime.LostNotListed | esync/H-test/gmp-6.2.1/nextprime.c:96-155 | a concrete segment start is prime, with proof, but never returned |
| LostPrime.NeverReturned | esync/H-test/gmp-6.2.1/nextprime.c:59-157 | no call ever returns it |
| LostPrime.PastLostIsWrong | esync/H-test/gmp-6.2.1/nextprime.c:59-157 | a run that gets past it has returned some number that was not the prime due |
| SieveMath.NToBitMeaning | esync/H-test/gmp-6.2.1/primesieve.c:45-51 | n_to_bit(n) is the last bit whose number is at most n |
| SieveMath.BitOfSpecial | esync/H-test/gmp-6.2.1/primesieve.c:45-51 | every number from 5 on without factors 2 and 3 has its bit, and the numbering inverts |
| SieveMath.SquareIndexMeaning | esync/H-test/gmp-6.2.1/primesieve.c:280-281 | the code's index formula is the bit of the square of id_to_n(i) |
| SieveMath.NextIndexMeaning | esync/H-test/gmp-6.2.1/primesieve.c:296-297 | the second index formula is the bit of id_to_n(i) times the entry after it |
| SieveMath.MultiplesAreLines | esync/H-test/gmp-6.2.1/primesieve.c:278-303 | the multiples of a prime entry from its square on are exactly the bits on two arithmetic progressions with step 2 id_to_n(i) |
| SieveMath.FinishedSieve | esync/H-test/gmp-6.2.1/primesieve.c:283-284 | when the square index is past the last bit, exactly the composites are marked |
| SieveMasks.SeedHolds | esync/H-test/gmp-6.2.1/primesieve.c:59 | the seed limb marks exactly the composites among its 64 entries |
| SieveMasks.Mask1Holds | esync/H-test/gmp-6.2.1/primesieve.c:61-63 | the first mask constant marks the multiples of 5 and 11 |
| SieveMasks.TwoMask1Holds | esync/H-test/gmp-6.2.1/primesieve.c:64-67 | the second mask constant marks the multiples of 7 and 13 |
| SieveFill.SetOff1 | esync/H-test/gmp-6.2.1/primesieve.c:100-119 | the macro's shifts hold the 110-bit pattern advanced by any offset |
| SieveFill.SetOff2 | esync/H-test/gmp-6.2.1/primesieve.c:121-163 | the macro's shifts hold the 182-bit pattern advanced by any offset |
| SieveFill.RotateWindow2 | esync/H-test/gmp-6.2.1/primesieve.c:165-171 | ROTATE1 advances the endless first pattern by one limb |
| SieveFill.RotateWindow3 | esync/H-test/gmp-6.2.1/primesieve.c:173-181 | ROTATE2 advances the endless second pattern by two limbs |
| SieveFill.FillBitpattern | esync/H-test/gmp-6.2.1/primesieve.c:183-242 | the written limbs mark exactly the multiples of 5, 7, 11 and 13, from any offset, and nothing else is written |
| PrimeSieve.StrikeLine | esync/H-test/gmp-6.2.1/primesieve.c:286-303 | a rotating one-bit mask sets exactly the bits of one progression up to the last bit |
| PrimeSieve.SieveFirst | esync/H-test/gmp-6.2.1/primesieve.c:261-308 | the scan of the first block ends, reading only finished bits, with exactly the composites marked |
| PrimeGaps.PrimeBetween | esync/H-test/gmp-6.2.1/primesieve.c:271-307 | there is a prime between s and st once st < 2^(t-1); it makes the endless scans stop |
| PrimeSieve.FirstBlockPrimesieve | esync/H-test/gmp-6.2.1/primesieve.c:244-309 | bits up to n_to_bit(n) tell the composites, the rest of the last limb is set, later limbs are unchanged |
| PrimeSieve.StrikeBlock | esync/H-test/gmp-6.2.1/primesieve.c:338-371 | striking relative to a block's start marks the same multiples as in one long sieve |
| PrimeSieve.BlockResieve | esync/H-test/gmp-6.2.1/primesieve.c:311-376 | from exact bits before the block, the block becomes exact and nothing else changes |
| PrimeSieve.SieveBlocks | esync/H-test/gmp-6.2.1/primesieve.c:407-414 | sieving block by block gives the same bits as one block would |
| PrimeSieve.CountFromPopCount | esync/H-test/gmp-6.2.1/primesieve.c:421 | the clear bits of a finished sieve count the primes from 5 to n |
| PrimeSieve.PrimesFrom5Counts | esync/H-test/gmp-6.2.1/primesieve.c:380-422 | the number counted is the size of the set of primes from 5 to n |
| PrimeSieve.GmpPrimesieve | esync/H-test/gmp-6.2.1/primesieve.c:380-422 | for every n > 4 bit b is 0 exactly when its number is prime, higher bits of the last limb are set, and the number of primes in [5, n] is returned |
| JacobiSymbol.JacobiMod | esync/H-test/gmp-6.2.1/mpn/generic/jacobi.c:45-55 | supporting mathematics for these rules: the symbol depends on the upper argument modulo the lower one |
| JacobiSymbol.JacobiMul | esync/H-test/gmp-6.2.1/mpn/generic/jacobi.c:53-57 | supporting mathematics for taking out the factor -1: the symbol is multiplicative in the upper argument |
| JacobiSymbol.JacobiMulBelow | esync/H-test/gmp-6.2.1/mpz/jacobi.c:125-126 | supporting mathematics for reciprocity with a factor 2^n: the symbol is multiplicative in the lower argument |
| JacobiSymbol.JacobiTwo | esync/H-test/gmp-6.2.1/gmp-impl.h:4022-4026 | the value at 2 by the lower argument modulo 8 |
| JacobiSymbol.Reciprocity | esync/H-test/gmp-6.2.1/mpn/generic/jacobi.c:45-51 | the rule for an odd upper argument: quadratic reciprocity for all odd arguments |
| JacobiSymbol.EulerCriterion | esync/H-test/gmp-6.2.1/doc/gmp.texi:3657-3661 | supporting mathematics: at an odd prime the symbol is congruent to a^((p-1)/2), so it is the Legendre symbol |
| JacobiAutomaton.NeverBothEven | esync/H-test/gmp-6.2.1/gen-jacobitab.c:40-59 | every decoded state has an odd number in it |
| JacobiAutomaton.Encode | esync/H-test/gmp-6.2.1/gen-jacobitab.c:66-85 | the search always finds the state for a, b, d, so the abort is unreachable |
| JacobiAutomaton.TableRight | esync/H-test/gmp-6.2.1/mpn/jacobitab.h:1-13 | each of the 208 table entries is the one the generator's rules prescribe |
| JacobiAutomaton.RightEntryUnique | esync/H-test/gmp-6.2.1/gen-jacobitab.c:92-124 | the generator's rules determine the entry |
| JacobiAutomaton.GenerateTable | esync/H-test/gmp-6.2.1/gen-jacobitab.c:87-128 | the generator's loop produces exactly the shipped table |
| JacobiAutomaton.ReducedBelow | esync/H-test/gmp-6.2.1/gen-jacobitab.c:111-116 | subtracting q times an even upper argument from the lower one changes the symbol exactly as the sign rule says |
| JacobiAutomaton.UpdateTracks | esync/H-test/gmp-6.2.1/gmp-impl.h:4155-4188 | one update keeps: state below 26, right residues modulo 4, right sign |
| JacobiAutomaton.RunTracks | esync/H-test/gmp-6.2.1/gmp-impl.h:4155-4188 | every run of division steps of any length keeps it |
| JacobiAutomaton.FinishIsJacobi | esync/H-test/gmp-6.2.1/gmp-impl.h:4138-4188 | every run that ends in (1, 0) or (0, 1) finishes in a terminal state with the Jacobi symbol of the start, negated when s is 1 |
| LimbDivision.AddSsaaaa | esync/H-test/gmp-6.2.1/longlong.h:2054-2063 | two-limb addition modulo B^2 |
| LimbDivision.SubDdmmss | esync/H-test/gmp-6.2.1/longlong.h:2066-2075 | two-limb subtraction modulo B^2 |
| LimbDivision.UmulPpmm | esync/H-test/gmp-6.2.1/longlong.h:2101-2127 | four half-word products with one possible carry make the exact double-limb product |
| LimbDivision.UdivQrnndC | esync/H-test/gmp-6.2.1/longlong.h:2141-2180 | half-word schoolbook division with at most two corrections a digit is exact for every normalised divisor |
| LimbDivision.InvertLimb | esync/H-test/gmp-6.2.1/gmp-impl.h:3055-3062 | the reciprocal floor((B^2 - 1)/d) - B |
| LimbDivision.CandidateWindow | esync/H-test/gmp-6.2.1/gmp-impl.h:3114-3141 | the candidate remainder lies in a window of width B decided by the low product limb |
| LimbDivision.UdivQrnndPreinv | esync/H-test/gmp-6.2.1/gmp-impl.h:3114-3141 | the unique quotient and remainder for every nh < d, in both branches, the nl = 0 one without final correction |
| LimbDivision.UdivRnndPreinv | esync/H-test/gmp-6.2.1/gmp-impl.h:3143-3166 | the remainder for every nh <= d, also when the quotient overflows |
| LimbDivision.CandidateWindow3 | esync/H-test/gmp-6.2.1/gmp-impl.h:3168-3201 | the three-limb candidate remainder lies in a window of width B^2, also for divisors next to B^2 |
| LimbDivision.UdivQr3by2 | esync/H-test/gmp-6.2.1/gmp-impl.h:3168-3201 | exact quotient and remainder of three limbs by two for every n < dB despite all wrap-around |
| LimbDivision.InvertPi1 | esync/H-test/gmp-6.2.1/gmp-impl.h:3064-3090 | floor((B^3 - 1)/(d1 B + d0)) - B for every normalised d1 |
| Reciprocals.PreinvIsReciprocal | esync/H-test/gmp-6.2.1/bootstrap.c:89-106 | for any width, what the generators compute equals the required reciprocal if and only if the divisor is not a power of two, with the values in the failing case |
| Reciprocals.PreinvServesDivision | esync/H-test/gmp-6.2.1/gen-bases.c:80-87 | at 64 bits the emitted inverses may be used by the division macros if and only if the divisor is not a power of two |
| Reciprocals.CpsQuotient | esync/H-test/gmp-6.2.1/gen-trialdivtab.c:235-249 | the trial division formula subtracts 2^n from the same quotient |
| BinaryInverse.MpzInvert2exp | esync/H-test/gmp-6.2.1/bootstrap.c:108-135 | setting bits one by one gives the inverse of any odd number modulo 2^n |
| BinaryInverse.TableInverts | esync/H-test/gmp-6.2.1/mp_minv_tab.c:38-58 | all 128 table bytes are inverses modulo 256 |
| BinaryInverse.NewtonStep | esync/H-test/gmp-6.2.1/gmp-impl.h:3313-3315 | one step squares the modulus for which the inverse is right |
| BinaryInverse.BinvertLimb | esync/H-test/gmp-6.2.1/gmp-impl.h:3306-3326 | three steps from the table give the inverse modulo B |
| BinaryInverse.BothInverses | esync/H-test/gmp-6.2.1/bootstrap.c:108-135 | both methods compute the same limb |
| BinaryInverse.ExactDivisionTest | esync/H-test/gmp-6.2.1/gen-trialdivtab.c:137-156 | x inv mod B <= floor((B-1)/p) holds exactly for the multiples of p among all limbs |
| BinaryInverse.DtabEntry | esync/H-test/gmp-6.2.1/gen-trialdivtab.c:142-149 | each emitted pair decides divisibility |
| Digits.RootStep | esync/H-test/gmp-6.2.1/gen-bases.c:142-143 | the rounded square roots stay below the exact roots of the base |
| Digits.ProductStep | esync/H-test/gmp-6.2.1/gen-bases.c:145-146 | the rounded products stay below the exact power |
| Digits.RootStepAbove | esync/H-test/gmp-6.2.1/gen-bases.c:142-143 | each rounded root is at most 2 units below the exact one |
| Digits.ProductStepAbove | esync/H-test/gmp-6.2.1/gen-bases.c:145-153 | every accepted bit costs a relative error of at most 5 units |
| Digits.Mp2logb | esync/H-test/gmp-6.2.1/gen-bases.c:122-162 | for every base and precision r + 1 reaches the logarithm, base^(r+1) >= 2^(2^prec), and with the 16 extra bits base^r <= 2 * 2^(2^prec); above base 2 one of the first two bits is rejected |
| Digits.Logb2 | esync/H-test/gmp-6.2.1/gen-bases.c:189-191 | the stored field keeps the bound, and its successor fits a limb above base 2 |
| Digits.DigitsInBaseFromBits | esync/H-test/gmp-6.2.1/gmp-impl.h:2914-2924 | computes the digit count despite limb wrap-around |
| Digits.DigitsInBaseGT2FromBits | esync/H-test/gmp-6.2.1/gmp-impl.h:2925-2931 | computes the same count for bases above 2 |
| Digits.DigitCountIs | esync/H-test/gmp-6.2.1/gmp-impl.h:2914-2931 | the digit count is 1 plus the whole part of (logb2 + 1) nbits / 2^64 |
| Digits.DigitCountFits | esync/H-test/gmp-6.2.1/gmp-impl.h:2914-2931 | the count fits a limb except for one pair of extreme arguments |
| Digits.DigitsSuffice | esync/H-test/gmp-6.2.1/gmp-impl.h:2914-2931 | every number of nbits bits has at most that many digits |
| Digits.DigitsNotWasteful | esync/H-test/gmp-6.2.1/gmp-impl.h:2914-2931 | the count is at most two too large: base^(count - 2) <= 2^(nbits + 1) |
| Gmpxx.Eval | esync/H-test/gmp-6.2.1/gmpxx.h:2326-2726 | for any number type, eval of any tree leaves the target with the tree's old value, however the target occurs in it, and changes nothing else; an operator on two variables or a variable and a number gets them in the order written |
| Gmpxx.SetExpr | esync/H-test/gmp-6.2.1/gmpxx.h:2326-2412 | the same for plain variables and numbers |
| Gmpxx.Temp | esync/H-test/gmp-6.2.1/gmpxx.h:2284-2295 | a temporary is a new object holding the value |
| Gmpxx.EvalRightCompound | esync/H-test/gmp-6.2.1/gmpxx.h:2526-2560 | variable op expression, with a temporary only when the variable is the target |
| Gmpxx.EvalLeftCompound | esync/H-test/gmp-6.2.1/gmpxx.h:2561-2595 | expression op variable, likewise |
| Gmpxx.EvalBothCompound | esync/H-test/gmp-6.2.1/gmpxx.h:2700-2726 | expression op expression, the right one first into a temporary |
| Gmpxx.SidesApart | esync/H-test/gmp-6.2.1/gmpxx.h:2326-2726 | evaluating a binary tree gives the operator the values that its left and its right side leave in new objects, in this order |
| Gmpxx.DifferenceOfDifferences | esync/H-test/gmp-6.2.1/gmpxx.h:2700-2726 | p = (a - b) - (c - d) leaves that difference of the old values, whichever of the four p is |
| Gmpxx.DifferencesInARow | esync/H-test/gmp-6.2.1/gmpxx.h:2462-2595 | p = a - (b - c) and p = (a - b) - c likewise |
| GmpxxOps.PlusUi | esync/H-test/gmp-6.2.1/gmpxx.h:218-240 | rational plus unsigned long, target and operand the same or not, in all branches |
| GmpxxOps.MinusUi | esync/H-test/gmp-6.2.1/gmpxx.h:342-364 | rational minus unsigned long likewise |
| GmpxxOps.PlusSi | esync/H-test/gmp-6.2.1/gmpxx.h:436-443 | a signed operand, also the least one, goes through its unsigned negation |
| GmpxxOps.MinusSi | esync/H-test/gmp-6.2.1/gmpxx.h:367-373 | likewise for subtraction |
| GmpxxOps.PlusZ | esync/H-test/gmp-6.2.1/gmpxx.h:252-262 | rational plus integer object, which may even be a part of the target or the operand |
| GmpxxOps.MinusZ | esync/H-test/gmp-6.2.1/gmpxx.h:381-391 | rational minus integer object likewise |
| GmpxxOps.SiMinus | esync/H-test/gmp-6.2.1/gmpxx.h:374-375 | signed number minus rational, by subtracting and negating |
| GmpxxOps.ZMinus | esync/H-test/gmp-6.2.1/gmpxx.h:392-393 | integer object minus rational likewise |
| GmpxxOps.SumOfRational | esync/H-test/gmp-6.2.1/gmpxx.h:218-262 | what these bodies compute is the sum, and in lowest terms exactly when the operand is |
| GmpxxOps.DivUiByZ | esync/H-test/gmp-6.2.1/gmpxx.h:640-660 | unsigned long divided by an integer object is the quotient rounded towards zero, also when the divisor is the target |
| GmpxxOps.DivSiByZ | esync/H-test/gmp-6.2.1/gmpxx.h:671-681 | signed long divided by an integer object, also when the divisor does not fit a long |
| GmpxxOps.ModUiByZ | esync/H-test/gmp-6.2.1/gmpxx.h:803-820 | the remainder with the sign of the dividend |
| GmpxxOps.ModSiByZ | esync/H-test/gmp-6.2.1/gmpxx.h:825-835 | the same for a signed long |
| GmpxxOps.TruncatedDivision | esync/H-test/gmp-6.2.1/gmpxx.h:640-681 | quotient and remainder are the only pair with a remainder smaller than the divisor and of the dividend's sign |
| TmpAlloc.TmpStack.Grow | esync/H-test/gmp-6.2.1/tal-notreent.c:64-98 | a new chunk fits the request and is recorded with the size asked for; the maximum stays or becomes 3/2 of the new total rounded up to a multiple of 8; totals stay the sum of usable sizes; in a stretch without release the maximum grows by at least 3/2 |
| TmpAlloc.TmpStack.Alloc | esync/H-test/gmp-6.2.1/tal-notreent.c:56-103 | the block starts at the old allocation point, or 24 bytes into a new chunk exactly when the room is too small; it is aligned and disjoint from all live blocks |
| TmpAlloc.TotalsExactIff | esync/H-test/gmp-6.2.1/tal-notreent.c:72-91 | computed in unsigned long, the new total and the chunk size are exact if and only if the request fits under the maximum or three times the new total fits a word |
| TmpAlloc.TmpStack.Mark | esync/H-test/gmp-6.2.1/tal-notreent.c:105-113 | a mark records the state and changes nothing |
| TmpAlloc.TmpStack.Free | esync/H-test/gmp-6.2.1/tal-notreent.c:115-129 | the exact state at any outstanding mark returns, apart from the maximum, and each later request to the memory function is given back once, latest first, with the address and the size it was made with |
| TmpAlloc.BlocksInUse | esync/H-test/gmp-6.2.1/tal-notreent.c:56-103 | in every state the blocks in use start and end at multiples of 8, lie in the used part of their chunk behind 24 bytes of header, and do not overlap |
| TmpAlloc.BlocksAfterBump | esync/H-test/gmp-6.2.1/tal-notreent.c:99-102 | moving the bump pointer keeps all blocks disjoint and in place |
| TmpAlloc.StretchGrows | esync/H-test/gmp-6.2.1/tal-notreent.c:75-84 | the growth factor over a whole stretch is a power of 3/2 |
| PerfectSquares.Mul2expMod | esync/H-test/gmp-6.2.1/gen-psqr.c:173-180 | n 2^p modulo m |
| PerfectSquares.NegMod | esync/H-test/gmp-6.2.1/gen-psqr.c:182-188 | -n modulo m |
| PerfectSquares.SquareMask | esync/H-test/gmp-6.2.1/gen-psqr.c:190-207 | for every odd m bit idx is set exactly when -idx 2^mod_bits is a square modulo m |
| PerfectSquares.SquareModProduct | esync/H-test/gmp-6.2.1/gen-psqr.c:53-57 | for coprime m, n a number is a square modulo mn exactly when it is one modulo both |
| PerfectSquares.FactorTable.Combine | esync/H-test/gmp-6.2.1/gen-psqr.c:396-409 | combining ends, keeps the product, pairwise coprimality and the bound, and detects exactly the same non-squares; it goes through sorted tables whose smallest entry takes in the largest one that fits, until none fits |
| PerfectSquares.CourseUnique | esync/H-test/gmp-6.2.1/gen-psqr.c:396-409 | taking in the largest entry that fits leaves no choice: from the same entries there is one course of tables and one result |
| PerfectSquares.ShippedDivisors | esync/H-test/gmp-6.2.1/mpn/perfsqr.h:17-46 | from 9, 5, 7, 13, 17, 97 and the bound 128 every such course ends with 9, 85, 91, 97, the divisors of the shipped 64-bit table |
| FactorialTables.RemoveTwos | esync/H-test/gmp-6.2.1/gen-fac.c:36-42 | the odd part and the exponent of 2 |
| FactorialTables.Legendre | esync/H-test/gmp-6.2.1/gen-fac.c:84-94 | the running odd factorial times 2^(b - popcount(b)) is b! |
| FactorialTables.OddFactorialTable | esync/H-test/gmp-6.2.1/gen-fac.c:84-105 | the table holds all odd factorials of at most numb bits and stops at the first longer one |
| FactorialTables.ShippedLimit | esync/H-test/gmp-6.2.1/fac_table.h:11-13 | for 64-bit limbs the table ends at 25, with the shipped last value |
| FactorialTables.CentralFromEven | esync/H-test/gmp-6.2.1/gen-fac.c:119-121 | the exact division: binomial(2k, k) is divisible by k + 1 |
| FactorialTables.OddFactorialExtension | esync/H-test/gmp-6.2.1/gen-fac.c:106-132 | y is always binomial(b, b/2); the entries are odd factorials modulo 2^numb, as long as y fits |
| FactorialTables.TwosOfCentral | esync/H-test/gmp-6.2.1/gen-fac.c:252-257 | the power of two in binomial(2k, k) is popcount(k) |
| TrialDivTables.Isprime | esync/H-test/gmp-6.2.1/bootstrap.c:41-76 | exactly the primes, for every argument |
| TrialDivTables.OddPrimesAll | esync/H-test/gmp-6.2.1/gen-trialdivtab.c:117-120 | the list that the passes go through holds all odd primes of the range in increasing order |
| TrialDivTables.Cps | esync/H-test/gmp-6.2.1/gen-trialdivtab.c:225-283 | the reciprocal, the shift count and B^1 .. B^5 modulo b |
| TrialDivTables.Sumspills | esync/H-test/gmp-6.2.1/gen-trialdivtab.c:285-301 | whether the residues sum to B or more |
| TrialDivTables.CutSlices | esync/H-test/gmp-6.2.1/gen-trialdivtab.c:117-160 | the slices cut by the loop are consecutive, each stays usable as it grows and could not take the next prime, and the rest of the list stays usable |
| TrialDivTables.CutIffGreedy | esync/H-test/gmp-6.2.1/gen-trialdivtab.c:117-160 | no other division of the list into slices and a rest has these properties |
| TrialDivTables.DtabPass | esync/H-test/gmp-6.2.1/gen-trialdivtab.c:117-161 | the first pass lists, with exact divisibility constants, the primes of all completed slices and names the smallest prime left out |
| TrialDivTables.PtabPass | esync/H-test/gmp-6.2.1/gen-trialdivtab.c:163-211 | the second pass makes one line for every slice of the same cut |
| TrialDivTables.CompletedLines | esync/H-test/gmp-6.2.1/gen-trialdivtab.c:163-211 | each line's product is that of its primes in the first table, below B/2, with residues that sum to less than B; times the next prime it would fail one or the other; the lines follow each other |
| LimbVectors.AddN | esync/H-test/gmp-6.2.1/gmp.h:1932-1934 | the primitive the macros start from |
| LimbVectors.ValHorner | esync/H-test/gmp-6.2.1/gmp.h:1920-1956 | the value of a vector: limb 0 is the remainder modulo B and the other limbs are the quotient |
| LimbVectors.MpnAdd | esync/H-test/gmp-6.2.1/gmp.h:1920-1956 | value(dst) + carry B^n is the sum for vectors of any lengths, in place or separate |
| LimbVectors.MpnSub | esync/H-test/gmp-6.2.1/gmp.h:1920-1959 | the borrow equation likewise |
| LimbVectors.MpnAdd1 | esync/H-test/gmp-6.2.1/gmp.h:1987-2022 | a single limb added |
| LimbVectors.MpnSub1 | esync/H-test/gmp-6.2.1/gmp.h:1987-2022 | a single limb subtracted |
| LimbVectors.AddSubInverse | esync/H-test/gmp-6.2.1/gmp.h:1920-2070 | adding then subtracting, or the reverse, restores the vector and returns the carry as borrow |
| LimbVectors.MpnCmp | esync/H-test/gmp-6.2.1/gmp.h:2076-2095 | the order of the values |
| LimbVectors.MpnZeroP | esync/H-test/gmp-6.2.1/gmp.h:2174-2186 | 1 exactly for the value 0 |
| LimbVectors.MpnNeg | esync/H-test/gmp-6.2.1/gmp.h:2216-2237 | B^n minus the value, and 0 exactly for a zero operand |
| LimbVectors.NegatedValue | esync/H-test/gmp-6.2.1/gmp.h:2222-2234 | low zeros, one negated limb and complements above are the negation |
| ExtractDouble.Normalise | esync/H-test/gmp-6.2.1/extract-dbl.c:79-95 | the mantissa with top bit set and the unbiased exponent denote (2^52, unless exp is 0, + manh 2^32 + manl) 2^(max(exp, 1) - 1075) |
| ExtractDouble.Denormal | esync/H-test/gmp-6.2.1/extract-dbl.c:84-95 | the normalisation loop ends after at most 52 shifts |
| ExtractDouble.ExtractDouble | esync/H-test/gmp-6.2.1/extract-dbl.c:66-180 | the two limbs and the exponent represent every finite non-negative double exactly, the value being written out in its fields, with a non-zero top limb unless the number is 0 |
| ExtractDouble.UnitsOrdered | esync/H-test/gmp-6.2.1/extract-dbl.c:66-95 | values increase with exponent, high and low fraction bits in this order |
| ExtractDouble.NextNumber | esync/H-test/gmp-6.2.1/extract-dbl.c:66-95 | the successor in this order, also across the words and the exponents, is one unit in the last place larger |

## Left out

- Factorize.MpPrimeP: whether there is a number at which the code aborts is not settled; the contract says what such a number is.
- Factorize.FactorUsingPollardRho: the increment a and the step counts k and l are unbounded integers; to wrap they would take 2^64 restarts or 2^64 steps on one number.
- Factorize.FactorUsingDivision: the prime table demos/primes.h is represented by what it must satisfy, with one spare entry for the read one past its end.
- NextPrime.GmpPrimesieve.GmpNextprime: claims nothing about the call that would need a segment whose end does not fit a word.
- PrimeSieve.GmpPrimesieve: bit and limb indices are unbounded integers; the overflow of mp_size_t near the end of the address space is not modelled.
- PrimeSieve.CountFromPopCount: mpn_popcount is taken at its meaning.
- TmpAlloc.TmpStack.Alloc: sizes are unbounded; TotalsExactIff says when unsigned long computes the same; the memory function may return any aligned stretch apart from the existing chunks.
- Gmpxx.Eval: all variables of an expression have one type, and an operator applies a function of values; only the bodies in GmpxxOps are followed write by write; the precision of mpf temporaries, further mixed types and the random-state classes are left out.
- GmpxxOps.DivSiByZ: the least long divided by -1, which C leaves undefined, is left out.
- PerfectSquares.FactorTable.Combine: the bound on single divisors is assumed of the initial entries, because the multiplicity loop that makes them never updates its running divisor; qsort is an insertion sort; fractions and their ordering are left out.
- FactorialTables.OddFactorialTable: the double factorial, n-th root and inverse tables of the same generator are left out.
- TrialDivTables.PtabPass: the arithmetic that later uses the residues is not part of this model; primes are below 2^31 as in the code's int variables.
- LimbVectors.AddN: mpn_add_n, mpn_sub_n and mpn_com are written as the loops they stand for; sources and destination are whole arrays, so partial overlap, which the code forbids, does not arise.
- ExtractDouble.ExtractDouble: disjoint bit fields are added instead of or-ed; infinities, NaN and the branch for unknown float formats are left out.
- PaillierFile.EncryptFile: files are sequences of bytes and text; opening, timing and console output are left out.
- Paillier.KeyGeneration: the two fixed 1024-bit numbers are symbolic distinct primes, and the random draw is any number below n.
- numberToString and stringToNumber of zyltest-ntl.cpp rest on a floating-point logarithm and an unterminated buffer.
- Inline assembly, nail builds, other limb sizes, thresholds and configuration.
- tal-reent.c, tal-debug.c, memory.c, gen-fib.c, the stream operators, and the transfer and AES test programs.
