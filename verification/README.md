# Verified models of a sharded hash-chain store and of the arithmetic it ships with

The repository is a small store that spreads payloads over three hash-linked
chains, one per server, behind a router. It ships with GMP 6.3.0, whose sieves,
division macros, scratch allocator and table generators hold most of its
complicated logic. This project models those parts in Dafny and proves what they
are for. Limbs have 64 bits and no nails; every wrap-around of an unsigned word is
written out.

`dafny verify dfyconfig.toml` checks everything.

| file | models |
|---|---|
| `Arithmetic.dfy`, `Primes.dfy`, `Progressions.dfy` | shared facts: division with remainder, powers, primality, arithmetic progressions |
| `WitnessPrimes.dfy` | Proth's and Pocklington's criteria and three explicit primes that make the block sieve stop |
| `TrialPrimality.dfy` | `isprime` in `bootstrap.c` |
| `Limbs.dfy`, `SievePattern.dfy`, `BlockSieve.dfy`, `PrimeSieve.dfy` | `primesieve.c` and its table generator `gen-sieve.c` |
| `Wheel.dfy`, `NextPrime.dfy`, `GeneratorLimits.dfy` | `nextprime.c`, with two explicit windows where it goes wrong |
| `WordArithmetic.dfy`, `InvariantDivision.dfy`, `BinaryInverse.dfy` | the generic macros of `longlong.h` and the division macros of `gmp-impl.h` |
| `TrialDivisionTables.dfy`, `FactorialTables.dfy` | `gen-trialdivtab.c`, `gen-fac.c` |
| `TempStack.dfy` | `tal-notreent.c` |
| `HashChain.dfy`, `ShardRouter.dfy` | `server.c`, `router.c` |

## Main results

- **Prime sieve.** `PrimeSieve.GmpPrimeSieve` leaves a zero bit exactly at the
  primes up to n, sets every later bit of the last limb, touches nothing else and
  returns the number of primes in [4, n], for every n with 4 < n < 2^64. The block
  sieve's loop has no exit condition of its own; that it always meets a prime whose
  square lies past the block is proved from three explicit Proth primes (3329,
  786433, 4395630593), so no assumption about the distribution of primes is left,
  and the bit of every square inspected stays inside a signed word.
  `PrimeSieve.SieveFromScratch` runs it on the tables its own generators produce.
- **Division by reciprocals.** The 2-by-1 and 3-by-2 divisions return exact
  quotients and remainders for every normalized divisor, and the reciprocals they
  need are computed exactly. Each "one correction is enough" is a proved inequality.
- **Prime generator.** For every window that fits a word,
  `NextPrime.PrimeGenerator.Next` returns the first number after the last one that the
  window keeps, and what a window starting at s0 keeps is stated without the code: n
  has no proper divisor p with s0 + p below 2^64, and n is not a first entry struck by
  the divisor 2^64 - s0. `NextPrime.FirstPrimes` lifts this to whole runs: the k-th
  call returns the k-th prime if and only if no number up to there is misjudged, and
  below (2^32 - 1)^2 none is. Near 2^64 the promise fails in two ways, each with an
  explicit window: `GeneratorLimits.GeneratorDropsAPrime` (the prime
  18446744072034231299 is skipped because s0 + p wraps to 0) and
  `GeneratorLimits.GeneratorReturnsAComposite` (18446744073709549579 is returned,
  because s0 + p wraps for each of its factors). The code is modelled as it is.
- **Scratch allocator.** Over every nested run, live blocks stay aligned and
  disjoint, the accounting is exact, a release restores everything its mark saw,
  and when any nested run is repeated, at no moment of the second time is more than
  one new chunk held. The growth by half buys what it is for:
  `TempStack.GrowthLeavesHalf`.
- **Hash chain.** The documentation (README.md:349-351) says a store links the
  block and leaves a chain whose validation ensures its integrity. The code links
  each new block to the hash of the *first* block but validates against the hash of
  the *previous* one. `HashChain.VerdictAfterStores` gives the exact verdict;
  `HashChain.PlainChainsRejected` shows that for every hash three plain stores are
  rejected unless two inputs collide, and `ShardRouter.RefusedExactly` when a RETRIEVE
  is refused for it. The code is modelled as it is.
- **Router.** On the bytes of the messages: a session ends at its first empty message
  or EXIT, RETRIEVE lists, everything else is stored in order, and store number k is
  block k / 3 of server k mod 3, whole up to 255 characters.
- **Trial-division tables.** Both passes group the primes alike, each group stops
  exactly at the prime that no longer fits, which `TrialDivisionTables.GenerateTables`
  states as inequalities between numbers, and that grouping is unique.

## Model

| member | source | states |
|---|---|---|
| `TrialPrimality.TestPrime` | gmp-6.3.0/bootstrap.c:41-76 | for every 64-bit t the walk stops and answers true exactly when t is prime |
| `Arithmetic.ShiftRightIsDivision` | gmp-6.3.0/bootstrap.c:46-47 | shifting right by t bits divides by 2^t |
| `TrialPrimality.SmallPrimeBits` | gmp-6.3.0/bootstrap.c:46-47 | bit t of the constant is set exactly when t is prime, for t below 32 |
| `TrialPrimality.DivisionStep` | gmp-6.3.0/bootstrap.c:60-65 | a quotient below the divisor proves primality, a zero remainder the opposite, and otherwise the divisor stays below t |
| `TrialPrimality.AdvanceTwo` | gmp-6.3.0/bootstrap.c:66-66 | the step of 2 skips no divisor of a number prime to 6 |
| `TrialPrimality.AdvanceFour` | gmp-6.3.0/bootstrap.c:73-73 | nor does the step of 4 |
| `Limbs.ShlIsMultiplication` | gmp-6.3.0/primesieve.c:62-143 | the bit-level left shift is multiplication by a power of two modulo 2^64 |
| `Limbs.ShrIsDivision` | gmp-6.3.0/primesieve.c:62-143 | the bit-level right shift is division by a power of two |
| `Limbs.RotateOneHot` | gmp-6.3.0/primesieve.c:239-239 | rotating a one-bit mask moves its bit modulo 64, with both shift counts in range |
| `SievePattern.SetOff1` | gmp-6.3.0/primesieve.c:62-81 | for every offset the two limbs hold the cyclic pattern from that offset on |
| `SievePattern.SetOff2` | gmp-6.3.0/primesieve.c:83-125 | the same for a pattern of three limbs, in every branch of the macro |
| `SievePattern.Rotate1` | gmp-6.3.0/primesieve.c:127-133 | one rotation advances the two-limb pattern by 64 bits |
| `SievePattern.Rotate2` | gmp-6.3.0/primesieve.c:135-143 | one rotation advances the three-limb pattern by 128 bits |
| `SievePattern.SetMask` | gmp-6.3.0/gen-sieve.c:95-102 | bit i of the mask is set exactly when a or b divides the i-th candidate |
| `SievePattern.GenSieveMasks` | gmp-6.3.0/gen-sieve.c:104-135 | the five limbs are the two masks cut at 64 bits |
| `SievePattern.PatternIsPeriodic` | gmp-6.3.0/gen-sieve.c:165-172 | repeating one period of 110 or 182 bits gives the divisibility pattern everywhere |
| `SievePattern.FillBitPattern` | gmp-6.3.0/primesieve.c:145-169 | for every offset and number of limbs, a bit is set exactly for a multiple of 5, 7, 11 or 13; returns the index of the first sieving prime, 17 |
| `BlockSieve.SquareBitCorrect` | gmp-6.3.0/primesieve.c:221-223 | the index formula is the bit of the sieving number squared |
| `BlockSieve.CrossBitCorrect` | gmp-6.3.0/primesieve.c:242-243 | the second formula is the bit of its product with the next candidate |
| `BlockSieve.ProgressionsCoverMultiples` | gmp-6.3.0/primesieve.c:217-253 | the two progressions hit exactly the multiples of the sieving number from its square on |
| `BlockSieve.RoundUpToBlock` | gmp-6.3.0/primesieve.c:231-232 | the rounding reaches the first term not before the block |
| `BlockSieve.Mark` | gmp-6.3.0/primesieve.c:228-240 | marks exactly the terms of a progression inside the block while the rotating mask follows the index |
| `BlockSieve.CompositeHasFactor` | gmp-6.3.0/primesieve.c:211-258 | every composite of the block has a factor among those sieved when the loop stops |
| `BlockSieve.IndicesFit` | gmp-6.3.0/primesieve.c:217-247 | step and both first indices of a sieving number stay far inside a signed word |
| `BlockSieve.SquareBitMonotone` | gmp-6.3.0/primesieve.c:221-226 | later sieving numbers have later squares, so none inspected lies past the one that ends the loop |
| `BlockSieve.BlockResieve` | gmp-6.3.0/primesieve.c:196-259 | the block ends up with a bit set exactly for composites, earlier and later limbs are unchanged, the loop stops inside the sieved part, and every index fits mp_size_t |
| `PrimeSieve.WitnessExists` | gmp-6.3.0/primesieve.c:295-303 | every block of every sieve has an already sieved prime with its square past the block, at a bit below 2^63 |
| `PrimeSieve.FToBitIsLast` | gmp-6.3.0/primesieve.c:49-51 | n_fto_bit gives the last candidate not above n |
| `PrimeSieve.GenerateTable` | gmp-6.3.0/gen-sieve.c:39-93 | the table marks exactly the composites; its prime count and largest prime are right |
| `PrimeSieve.CountInLimbs` | gmp-6.3.0/primesieve.c:308-308 | zero bits count primes |
| `PrimeSieve.MaskTail` | gmp-6.3.0/primesieve.c:305-306 | every bit past the last candidate is set, no other changes |
| `PrimeSieve.BlocksTile` | gmp-6.3.0/primesieve.c:297-302 | the first block and whole blocks of 2048 limbs cover the array exactly |
| `PrimeSieve.GmpPrimeSieve` | gmp-6.3.0/primesieve.c:263-309 | zero bits are exactly the primes up to n, the rest of the last limb is set, nothing else changes, and the result counts the primes in [4, n] |
| `PrimeSieve.SieveFromScratch` | gmp-6.3.0/primesieve.c:263-309 | the same with the tables of gen-sieve.c, with nothing assumed about them |
| `Wheel.WheelStep` | gmp-6.3.0/nextprime.c:64-66 | the 48 gaps lead through exactly the numbers prime to 210 |
| `NextPrime.StrikeMeetsHits` | gmp-6.3.0/nextprime.c:142-151 | for every window that fits a word and every p the root loop allows: the start and step meet exactly the proper multiples of p while s0 + p fits, entry 0 if s0 + p is 2^64, and nothing past that |
| `NextPrime.Strike` | gmp-6.3.0/nextprime.c:142-151 | marks exactly those entries and leaves the sentinel |
| `NextPrime.LastRootStops` | gmp-6.3.0/nextprime.c:102-103 | a square that is -7 modulo 2^64 ends the root loop for every window that fits |
| `NextPrime.RaiseRoot` | gmp-6.3.0/nextprime.c:101-103 | the loop stops, at the first value whose successor's wrapped square lies past the window's end |
| `NextPrime.StopIsNotBelowRoot` | gmp-6.3.0/nextprime.c:102-103 | it never stops below the true root |
| `NextPrime.RootLoopStops` | gmp-6.3.0/nextprime.c:102-103 | it stops at the true root if and only if the window ends below (2^32 - 1)^2 |
| `NextPrime.RootLoopOvershoots` | gmp-6.3.0/nextprime.c:102-103 | from there on it runs past 2^32 |
| `NextPrime.StruckExactly` | gmp-6.3.0/nextprime.c:105-154 | once every sieving divisor up to the root is done, exactly the numbers that are not kept are marked |
| `NextPrime.PrimeKept` | gmp-6.3.0/nextprime.c:105-154 | a prime is kept unless it is the first entry and 2^64 - s0 is a sieving number the root loop has passed |
| `NextPrime.CompositeKept` | gmp-6.3.0/nextprime.c:105-154 | a composite number is kept if and only if s0 plus its least prime factor reaches 2^64, and it is not such a first entry |
| `NextPrime.CompositesStruckBelow` | gmp-6.3.0/nextprime.c:105-154 | no window that starts below 2^64 - 2^32 keeps a composite number |
| `NextPrime.NothingMisjudgedBelowRoof` | gmp-6.3.0/nextprime.c:105-154 | windows that end below (2^32 - 1)^2 keep exactly the primes |
| `NextPrime.SieveWindow` | gmp-6.3.0/nextprime.c:96-154 | a resieve of any window that fits leaves a zero exactly at the kept numbers |
| `NextPrime.PrimeGenerator.constructor` | gmp-6.3.0/nextprime.c:159-166 | the initial state is valid and nothing has been returned |
| `NextPrime.PrimeGenerator.Resieve` | gmp-6.3.0/nextprime.c:89-155 | the wrapped start leads to the first window, every other one to the next |
| `NextPrime.PrimeGenerator.Next` | gmp-6.3.0/nextprime.c:59-157 | returns the first generated number after the one returned last, resieving as often as needed |
| `NextPrime.GeneratesPrimes` | gmp-6.3.0/nextprime.c:59-157 | the generated numbers start like the primes if and only if nothing up to there is misjudged |
| `NextPrime.FirstPrimes` | gmp-6.3.0/nextprime.c:59-166 | from the initial state the k-th call returns the k-th generated number for every run whose windows fit a word; the k-th prime if and only if nothing is misjudged, and always below (2^32 - 1)^2 |
| `GeneratorLimits.GeneratorDropsAPrime` | gmp-6.3.0/nextprime.c:142-151 | a window that fits a word and starts with a prime the generator skips |
| `GeneratorLimits.GeneratorReturnsAComposite` | gmp-6.3.0/nextprime.c:142-151 | a composite number the generator returns, in the last window that fits |
| `WordArithmetic.AddSsaaaa` | gmp-6.3.0/longlong.h:2059-2069 | double-word sum modulo B^2 |
| `WordArithmetic.SubDdmmss` | gmp-6.3.0/longlong.h:2071-2081 | double-word difference modulo B^2 |
| `WordArithmetic.UmulPpmm` | gmp-6.3.0/longlong.h:2106-2131 | the two words are the exact product; the one possible carry is caught |
| `WordArithmetic.TrialDigit` | gmp-6.3.0/longlong.h:2157-2167 | the trial digit is at most two too large, and nothing overflows |
| `WordArithmetic.DivideDigit` | gmp-6.3.0/longlong.h:2157-2168 | one half-limb digit is exact after at most two corrections, also when the correction carries |
| `WordArithmetic.UdivQrnndC` | gmp-6.3.0/longlong.h:2146-2185 | exact quotient and remainder for every normalized d and n1 < d |
| `InvariantDivision.InverseGap` | gmp-6.3.0/gmp-impl.h:3121-3128 | the reciprocal is characterised by how far (B + v) d falls short of B^2, and fits a limb |
| `InvariantDivision.InvertLimb` | gmp-6.3.0/gmp-impl.h:3121-3128 | computes floor((B^2 - 1) / d) - B |
| `InvariantDivision.Candidate` | gmp-6.3.0/gmp-impl.h:3158-3209 | the bounds on the candidate remainder that make one correction enough |
| `InvariantDivision.UdivQrnndPreinv` | gmp-6.3.0/gmp-impl.h:3180-3207 | exact quotient and remainder whenever nh < d, in both branches |
| `InvariantDivision.UdivRnndPreinv` | gmp-6.3.0/gmp-impl.h:3209-3232 | exact remainder also when nh = d, in both branches |
| `InvariantDivision.DivideBothWays` | gmp-6.3.0/longlong.h:2146-2185 | the half-limb divider and the reciprocal divider return the same words |
| `InvariantDivision.InvertTop` | gmp-6.3.0/gmp-impl.h:3130-3143 | after the first correction v is the largest with (B + v) d1 + d0 below B^2 |
| `InvariantDivision.InvertPi1` | gmp-6.3.0/gmp-impl.h:3130-3156 | computes floor((B^3 - 1) / d) - B for every normalized two-limb d |
| `InvariantDivision.CandidateBounds32` | gmp-6.3.0/gmp-impl.h:3234-3257 | the bounds on the three-by-two candidate remainder |
| `InvariantDivision.UdivQr3by2` | gmp-6.3.0/gmp-impl.h:3234-3268 | exact quotient and remainder for every n < d B, despite every intermediate wrap-around |
| `BinaryInverse.TableInverts` | gmp-6.3.0/mp_minv_tab.c:38-58 | all 128 table entries are inverses modulo 256 |
| `BinaryInverse.NewtonDoubles` | gmp-6.3.0/gmp-impl.h:3379-3381 | a step turns an inverse modulo m into one modulo m^2 |
| `BinaryInverse.BinvertLimb` | gmp-6.3.0/gmp-impl.h:3372-3394 | the inverse modulo 2^64 of every odd limb |
| `BinaryInverse.DivisibilityTest` | gmp-6.3.0/gen-trialdivtab.c:132-144 | n inv mod B is at most floor((B - 1) / p) if and only if p divides n |
| `TrialDivisionTables.SumSpills` | gmp-6.3.0/gen-trialdivtab.c:285-301 | true exactly when the residues add up to B or more |
| `TrialDivisionTables.StopsInNumbers` | gmp-6.3.0/gen-trialdivtab.c:122-128 | a prime stops a group exactly when twice the product with it reaches B or the residues of B^1 .. B^5 modulo that product add up to B |
| `TrialDivisionTables.ModCps` | gmp-6.3.0/gen-trialdivtab.c:225-283 | the residues are B^1 .. B^5 modulo b, the count normalizes b, and for odd b above 1 the quotient is the invert_limb reciprocal of the shifted b |
| `TrialDivisionTables.ResidueIsPower` | gmp-6.3.0/gen-trialdivtab.c:251-265 | the chained residues are B^i mod b |
| `TrialDivisionTables.ReciprocalOfShifted` | gmp-6.3.0/gen-trialdivtab.c:245-249 | for every odd b above 1 the quotient is the invert_limb reciprocal of b shifted to the top of a limb |
| `TrialDivisionTables.PrimesInExactly` | gmp-6.3.0/gen-trialdivtab.c:117-121 | the list both tables are compared with holds the primes of its range, all of them, in order |
| `TrialDivisionTables.TestGroup` | gmp-6.3.0/gen-trialdivtab.c:122-128 | the decision both passes take for a prime, as the two inequalities in numbers |
| `TrialDivisionTables.PrintInterval` | gmp-6.3.0/gen-trialdivtab.c:132-145 | one entry with inverse and limit for each prime of the interval |
| `TrialDivisionTables.FirstPass` | gmp-6.3.0/gen-trialdivtab.c:108-155 | the entries are exactly the odd primes below SMALLEST_OMITTED_PRIME, in order |
| `TrialDivisionTables.SecondPass` | gmp-6.3.0/gen-trialdivtab.c:164-211 | the windows of the rows follow one another and cover those primes; each product and its constants are right |
| `TrialDivisionTables.EntryStep` | gmp-6.3.0/gen-trialdivtab.c:117-154 | one number of the first pass |
| `TrialDivisionTables.RowStep` | gmp-6.3.0/gen-trialdivtab.c:169-211 | one number of the second pass |
| `TrialDivisionTables.GroupIsOpen` | gmp-6.3.0/gen-trialdivtab.c:122-131 | no prime of the group still open has stopped it |
| `TrialDivisionTables.GroupInNumbers` | gmp-6.3.0/gen-trialdivtab.c:117-131 | up to its stop, and up to end_p for the last one, every product of a group keeps twice itself and its five residues together below B |
| `TrialDivisionTables.RowInNumbers` | gmp-6.3.0/gen-trialdivtab.c:169-205 | with the first prime after a row one of those two bounds breaks |
| `TrialDivisionTables.GenerateTables` | gmp-6.3.0/gen-trialdivtab.c:59-217 | the two passes agree; twice each row's product and its five residues together stay below B, with the next group's first prime one of them reaches it, and the primes from the omitted one to end_p are one group that is still open |
| `TrialDivisionTables.GroupingIsUnique` | gmp-6.3.0/gen-trialdivtab.c:117-211 | those conditions determine the groups |
| `TrialDivisionTables.EntryDecides` | gmp-6.3.0/gen-trialdivtab.c:132-144 | a table entry decides divisibility of every limb |
| `TrialDivisionTables.SixLimbs` | gmp-6.3.0/gen-trialdivtab.c:123-128 | for a row's product and any six limbs the residue-weighted sum is below B^2 and congruent to the number |
| `FactorialTables.OddPartDivides` | gmp-6.3.0/gen-fac.c:87-87 | the inner loop takes out a power of two |
| `FactorialTables.OddFactorials` | gmp-6.3.0/gen-fac.c:84-99 | entry i is the odd part of i!, up to the first that reaches 2^numb |
| `FactorialTables.CatalanIsWhole` | gmp-6.3.0/gen-fac.c:119-120 | m + 1 divides C(2m, m), so the division before the multiplication is exact |
| `FactorialTables.CentralStep` | gmp-6.3.0/gen-fac.c:119-123 | one step takes C(b - 1, .) to C(b, .) |
| `FactorialTables.ExtendedTable` | gmp-6.3.0/gen-fac.c:111-130 | entries are odd parts modulo 2^numb, up to the first index b whose C(b, b/2) reaches 2^numb |
| `FactorialTables.GenConsts` | gmp-6.3.0/gen-fac.c:79-134 | the first table is exact and its odd factorials stay below 2^numb, the next one reaches it; the second continues it modulo 2^numb without a gap as long as C(i, i/2) stays below 2^numb, and the next one reaches it |
| `TempStack.AllocKeepsInv` | gmp-6.3.0/tal-notreent.c:56-103 | allocation keeps chunks aligned and apart, and the total equal to the sum of payloads and at most the maximum |
| `TempStack.FreeKeepsInv` | gmp-6.3.0/tal-notreent.c:115-129 | so does release |
| `TempStack.LiveBlocksDisjoint` | gmp-6.3.0/tal-notreent.c:98-102 | live blocks never overlap |
| `TempStack.StepKeeps` | gmp-6.3.0/tal-notreent.c:56-129 | every legal operation keeps all of it, and every pending mark can still be honoured |
| `TempStack.StartIsSafe` | gmp-6.3.0/tal-notreent.c:44-48 | the static chunk alone satisfies all of it |
| `TempStack.RunsAreSafe` | gmp-6.3.0/tal-notreent.c:56-129 | so does every legal run |
| `TempStack.FreeRestores` | gmp-6.3.0/tal-notreent.c:115-129 | a release puts back exactly the chunks, points and blocks recorded at its mark |
| `TempStack.ReleaseUndoesEverything` | gmp-6.3.0/tal-notreent.c:105-129 | mark, any nested operations, release: everything but the maximum is as before |
| `TempStack.UsedFits` | gmp-6.3.0/tal-notreent.c:64-97 | the bytes handed out from the upper chunks fit into their payloads |
| `TempStack.TwinsGrow` | gmp-6.3.0/tal-notreent.c:66-96 | the second time, the first chunk asked for is as large as everything the first run ever held |
| `TempStack.TwinsRoom` | gmp-6.3.0/tal-notreent.c:64-64 | from then on it has room for whatever the first run fitted into several chunks |
| `TempStack.RunTwice` | gmp-6.3.0/tal-notreent.c:64-129 | when any properly nested run is repeated, at no moment is more than one new chunk held; without releases in between at most one is obtained |
| `TempStack.TotalInNumbers` | gmp-6.3.0/tal-notreent.c:74-88 | a total that passes the maximum becomes the least multiple of 8 not below three halves of what is asked for; otherwise it becomes the maximum |
| `TempStack.RoomSuffices` | gmp-6.3.0/tal-notreent.c:64-64 | allocations that together fit the room of the current chunk obtain no chunk |
| `TempStack.GrowthLeavesHalf` | gmp-6.3.0/tal-notreent.c:74-79 | after an allocation that raises the maximum, allocations of together at most half of everything asked for so far obtain no chunk, and the total exceeds three halves of it by less than 8 |
| `TempStack.TmpStack.constructor` | gmp-6.3.0/tal-notreent.c:44-48 | the static chunk has no room and nothing is allocated |
| `TempStack.TmpStack.AddChunk` | gmp-6.3.0/tal-notreent.c:66-96 | the new header, its end and both totals, in numbers: the increase plus 24 bytes, and the growth by half to a multiple of 8 |
| `TempStack.TmpStack.Allocate` | gmp-6.3.0/tal-notreent.c:56-103 | the linked headers follow the allocation step, the returned address is its block, and when a chunk is obtained its size and both totals are stated in numbers |
| `TempStack.TmpStack.SetMark` | gmp-6.3.0/tal-notreent.c:108-113 | records the current header and its allocation point |
| `TempStack.TmpStack.PopTo` | gmp-6.3.0/tal-notreent.c:119-127 | pops headers down to the marked one and subtracts their payloads |
| `TempStack.TmpStack.Release` | gmp-6.3.0/tal-notreent.c:116-129 | the linked headers follow the release step |
| `HashChain.NoTruncation` | server/server.c:19-22 | with at most 255 characters of data and a digest the hash input always fits its buffer |
| `HashChain.Block.ComputeHash` | server/server.c:17-38 | returns the digest of data and previous hash and overwrites previous_hash |
| `HashChain.Chain.Validate` | server/server.c:124-152 | the verdict, where the walk stops, and which links it has rewritten |
| `HashChain.VerdictIgnoresLinks` | server/server.c:130-143 | the verdict never depends on a stored previous_hash |
| `HashChain.RelinkingKeepsVerdict` | server/server.c:124-152 | validation changes no data or hash, so repeating it gives the same verdict |
| `HashChain.LastHashDeterminesData` | server/server.c:124-152 | accepted chains of equal length and equal last hash carry the same data, or two inputs collide |
| `HashChain.LengthsMatter` | server/server.c:21-25 | for unequal lengths that fails without any collision |
| `HashChain.Chain.MakeBlock` | server/server.c:48-63 | the new block keeps up to 255 characters and is linked to the head's hash |
| `HashChain.Chain.Append` | server/server.c:65-74 | the block becomes the last of the list |
| `HashChain.Chain.Store` | server/server.c:41-85 | one block more, which keeps up to 255 characters of its payload; data and hashes of the others unchanged, the verdict, and every link after the validation, accepted or not |
| `HashChain.Chain.Retrieve` | server/server.c:88-120 | all blocks in order if the chain is accepted, a refusal otherwise |
| `HashChain.StoredBlock` | server/server.c:48-63 | after any run of stores every block holds its own payload, hashed with the first hash |
| `HashChain.StoredData` | server/server.c:48-63 | after any run of stores every block holds its payload whole up to 255 characters, otherwise its first 255, and names the first hash |
| `HashChain.VerdictAfterStores` | server/server.c:41-85 | the chain is accepted if and only if from the third block on hashing with the first and with the previous hash agree |
| `HashChain.ShortChainsAccepted` | server/server.c:76-84 | one or two blocks are always accepted |
| `HashChain.LongChainsNeedCollisions` | server/server.c:55-58 | three or more are accepted only with a hash collision or a first payload that ends in its own digest |
| `HashChain.PlainChainsRejected` | server/server.c:76-84 | for every hash, three or more stores whose first payload is shorter than a digest are rejected, or two inputs collide |
| `HashChain.SomeChainIsRejected` | server/server.c:76-84 | a run of three stores that is rejected, with a hash written out |
| `ShardRouter.CStringIsPrefix` | router/router.c:92-99 | a message counts up to its first NUL |
| `ShardRouter.SessionInBytes` | router/router.c:84-97 | on the bytes: a session is answered up to the first message that is empty or reads EXIT, and stores, in order, what the other messages before that read, except for RETRIEVE |
| `ShardRouter.RepliesInBytes` | router/router.c:92-121 | on the bytes: RETRIEVE gets listings, every other message before the end DATA_STORED, and nothing from the end on is answered |
| `ShardRouter.DealtExactly` | router/router.c:114-121 | store number k is entry k / 3 of shard k mod 3, and shards hold nothing else |
| `ShardRouter.ShardsBalanced` | router/router.c:114-121 | shard sizes differ by at most one and add up to all stores |
| `ShardRouter.RefusedExactly` | server/server.c:88-97 | one or two blocks are always listed; from the third on RETRIEVE is refused if and only if some block hashes differently with the first and the previous hash |
| `ShardRouter.Server.Handle` | server/server.c:177-201 | RETRIEVE lists all blocks with their links or is refused, by the verdict, and stores nothing; anything else is stored |
| `ShardRouter.Router.SendCommand` | router/router.c:52-72 | only the addressed server changes |
| `ShardRouter.Router.RetrieveFromAll` | router/router.c:98-112 | asks every server once and passes its answer on; no data, hash or turn changes |
| `ShardRouter.Router.Distribute` | router/router.c:113-122 | the next server in turn takes the payload |
| `ShardRouter.Router.Answer` | router/router.c:92-121 | one message: its reply and what it stores |
| `ShardRouter.Router.HandleClient` | router/router.c:74-127 | a session is answered up to its first message that is empty or reads EXIT; the texts of the messages before that, other than RETRIEVE, are stored in order, and exactly the RETRIEVEs get the listings of the state they arrive in |
| `ShardRouter.Router.Serve` | router/router.c:173-186 | the same for any sequence of sessions, each starting from what the ones before it have stored |
| `ShardRouter.Router.EveryStoreIsKept` | router/router.c:113-122 | store number k is block k / 3 of server k mod 3: whole if it has at most 255 characters, otherwise its first 255 |
| `ShardRouter.Router.NothingElseIsKept` | router/router.c:113-122 | server i holds as many blocks as there are stores with number i modulo 3 |

## Left out

- `NextPrime.Strike`: the pointer into the window is an integer index, so that it may point past the array between two steps is not modelled.
- `NextPrime.PrimeGenerator.Next`: calls that would need a window past 2^64 are excluded; there `s0` itself wraps.
- `TempStack.TmpStack.Allocate`: the total is an unbounded integer, so overflow of `now * 3 / 2` in an unsigned long is not modelled; the address the underlying allocator returns is a parameter, assumed aligned and apart from the live chunks.
- `HashChain.Chain.Store`: the failure of `malloc` is not modelled.
- `ShardRouter.Router.SendCommand`: an empty message is excluded; the server would take it for a closed connection.
- `ShardRouter.Router.HandleClient`: messages that are not empty but start with a NUL are excluded; the router would forward them as empty messages, which end the server's session in code that is not part of this model.
- `ShardRouter.Router.Serve`: excludes the same messages.
- `HashChain.Chain.Retrieve`: returns the listed blocks, not the formatted text, and not its cut-off at the response buffer.
- The literal tables of `sieve_table.h`, `trialdivtab.h` and `fac_table.h`: the generators are modelled instead.
- SHA-256 itself, key exchange, AES-GCM, certificates and sockets: the hash is an arbitrary function, channels deliver every message.
- The branches of `fill_bitpattern` and `gen_sieve_masks` for other limb sizes, and nails.
- The assembly forms of the word macros and the other tables of `gen-fac.c` (plain factorials, double factorials, roots, inverses, popcounts, odd central binomials): they would only add members like the ones above.
- `mpz_invert_ui_2exp` and the mini-gmp integers: unbounded integers and the limb inverse stand for them.
