# Verified models of the miner's hard core

This project models the parts of the miner whose correctness is not obvious from reading them: the arbitrary-precision
arithmetic and digit generation of the number formatter, its fixed-width shortcuts, the argument scanner that permutes
its input, the format-string parser, two codecs, and the queue that carries results from worker threads to the network.
`dafny verify dfyconfig.toml` checks all of it.

| files | what they model |
|---|---|
| `Powers`, `Words`, `Wrappers` | powers and division facts, machine words, optional values |
| `Bigits`, `Convolution`, `Accumulator`, `Subtraction`, `Bigint` | `bigint`: numbers as 32-bit digits with an exponent, updated in place |
| `Decimal`, `FreeFormat`, `Dragon4`, `Fallback` | `fallback_format`: exact decimal digits from a binary significand and exponent |
| `Grisu` | fixed-precision digits with a tracked error |
| `WideMultiply`, `TrailingZeros` | products of 64-bit words in halves; divisibility by powers of five and ten |
| `Permute`, `GetoptSpec`, `Getopt`, `GetoptIntent` | `getopt_long` in permute mode, over whole runs, and command lines written down from what is meant |
| `FormatSpec`, `FormatParser`, `FormatPieces` | `parse_format_string` with its two strategies, and format strings written down piece by piece |
| `FloatWriter` | `write_float` and `write_exponent` |
| `Unicode`, `Utf8ToUtf16` | the UTF-8 decoder and the conversion to UTF-16 |
| `Base32` | `base32_encode` |
| `JobResults`, `JobQueue`, `JobHandler` | result submission: the checks, the protocol under every interleaving, and the object whose methods are runs of it |

Objects that the source updates in place are classes whose methods are proved against functions of their old state;
what the source promises is then proved of those functions, over all inputs or all runs. A format string, for example,
has one meaning (`FormatSpec.Parse`), and both scanning strategies are proved to tell the handler exactly that. An
argument vector has one parse (`GetoptSpec.Table.Remaining`), and a run of `getopt_long` is proved to return its events
and to leave the vector arranged as it says. Those functions are in turn held against what is written without them:
every argument vector is a list of options, arguments and plain words put into words, every format string is a list of
text, fields and at most one defect, and parsing either gives back exactly that list (`GetoptIntent.ParseIsMeant`,
`FormatPieces.ParseTellsPieces`).

## What the proofs turned up

Four places in `src/3rdparty/fmt/format-inl.h` do not do what their names or comments suggest. The models do what the
code does, and the exact conditions are proved.

- `subtract_aligned` (line 1267): the final borrow loop never advances to the next digit. The difference is right if
  and only if the borrow does not meet a zero digit (`Bigint.SubtractAligned`, `BorrowLoopStays`). Inside
  `divmod_assign` it never does, because the dividend is below 2^32 times the divisor (`QuotientIsSmall`).
- `compare` (lines 1348-1362): equal numbers that are stored at different exponents compare as unequal, and a zero
  stored so high that its one digit reaches above the other number compares as larger. For all canonical numbers the
  result is the sign of the difference if and only if neither happens (`ComparisonIsSign`, with
  `EqualAmountsToldApart` and `HighZeroIsLarger`). `divmod_assign` inherits both: a dividend equal to the divisor but
  stored at a higher exponent is left alone, and a zero that reaches above the divisor has the divisor subtracted from
  it (`ZeroAboveIsLarger` says exactly when). `SetupIsSafe` shows that the digits of `fallback_format` never meet the
  first, and no remainder is ever a zero of the second kind (`Dragon4.NextDigit`).
- Shortest mode (line 2364): the same comparison may fail to see that the remainder equals the lower gap, and then the
  output has more digits than needed. `ShortestMissesTie` is a double for which this happens. Only the lower end of the
  rounding interval can be missed, and `ShortestIsBest` says exactly when it is: when ties can go unseen, which no
  negative exponent lets them, and that end is the only number of some length in the interval. Nothing in this
  repository runs the mode: `format_float` sends every negative precision to Dragonbox (lines 2440-2450).
- The set-up for exponents e >= 0 (line 2333): the denominator is shifted once even where the significand is shifted
  twice, so that a value whose predecessor is closer is set up as twice itself (`RatioIsValue`,
  `CloserPredecessorDoubles`). From five units of 10^exp10 on, the first digit is then no digit at all
  (`LargeStartsBelowTen`, `CloserPredecessorIsNoDigit`).

## Model

| member | source | states |
|---|---|---|
| `BigintModel.Bigint.AssignWord` | src/3rdparty/fmt/format-inl.h:1315-1323 | a 64-bit word becomes one or two bigits with that value, canonical, at exponent 0 |
| `BigintModel.Bigint.Assign` | src/3rdparty/fmt/format-inl.h:1307-1313 | a copy has the same bigits and the same exponent |
| `BigintModel.Bigint.RemoveLeadingZeros` | src/3rdparty/fmt/format-inl.h:1253-1257 | top zeros go, the value and the lower bigits stay, one bigit is always left |
| `BigintModel.Bigint.MultiplyBigit` | src/3rdparty/fmt/format-inl.h:1271-1280 | the value is multiplied exactly by any positive 32-bit number, for any length, and stays canonical |
| `BigintModel.Bigint.MultiplyAddWide` | src/3rdparty/fmt/format-inl.h:1288-1291 | one column of the 64-bit multiplication: low and high part make up bigit * value + carry, and no 64-bit sum overflows |
| `BigintModel.WideCarryFits` | src/3rdparty/fmt/format-inl.h:1289-1290 | the sum of product, high half and carry never exceeds 2^64 - 1, and reaches it |
| `BigintModel.Bigint.MultiplyDouble` | src/3rdparty/fmt/format-inl.h:1282-1297 | the value is multiplied exactly by any positive 64-bit number, for any length, and stays canonical |
| `BigintModel.Bigint.ShiftLeft` | src/3rdparty/fmt/format-inl.h:1327-1340 | multiplies by 2^shift; whole bigits go into the exponent and at most one bigit is added |
| `AccumulatorModel.Accumulator.Add` | src/3rdparty/fmt/format-inl.h:1218-1221 | two 64-bit words with a carry add modulo 2^128 |
| `AccumulatorModel.Accumulator.ShiftRight32` | src/3rdparty/fmt/format-inl.h:1222-1227 | the pair of words is divided by 2^32 |
| `AccumulatorModel.AddLowColumn` | src/3rdparty/fmt/format-inl.h:1418-1421 | the low half of the columns: the accumulator grows by exactly the sum of n[i] * n[j] over i + j = k |
| `AccumulatorModel.AddHighColumn` | src/3rdparty/fmt/format-inl.h:1428-1429 | the same for the columns past the number of bigits, where the indices start at the other end |
| `Convolution.ColumnsAreProduct` | src/3rdparty/fmt/format-inl.h:1415-1432 | all columns, each at its weight, add up to the product of the two numbers |
| `BigintModel.Bigint.Square` | src/3rdparty/fmt/format-inl.h:1408-1436 | column-wise squaring in place gives value * value and doubles the exponent |
| `BigintModel.Bigint.SquareAndMultiply` | src/3rdparty/fmt/format-inl.h:1400-1404 | one round takes 5^(power / 2b) to 5^(power / b) |
| `BigintModel.Bigint.AssignPow10` | src/3rdparty/fmt/format-inl.h:1389-1406 | leaves exactly 10^power for every power below 2^30 |
| `BigintModel.Bigint.MoveUp` | src/3rdparty/fmt/format-inl.h:1443-1447 | moving the bigits up in place, top one first, loses none although source and target overlap |
| `BigintModel.Bigint.Align` | src/3rdparty/fmt/format-inl.h:1440-1449 | lowers the exponent to the other one without changing the value |
| `BigintModel.Bigint.SubtractBigits` | src/3rdparty/fmt/format-inl.h:1247-1251 | the wrapped 64-bit difference gives the bigit and the borrow of an exact subtraction |
| `BigintModel.Bigint.SubtractLow` | src/3rdparty/fmt/format-inl.h:1263-1266 | the loop over the other operand subtracts its shifted value up to one borrow |
| `BigintModel.Bigint.SettleBorrow` | src/3rdparty/fmt/format-inl.h:1267 | the borrow loop, which does not advance, decrements one bigit, twice if it is zero |
| `BigintModel.Bigint.SubtractAligned` | src/3rdparty/fmt/format-inl.h:1260-1269 | leaves the exact difference if and only if the final borrow does not meet a zero bigit; otherwise it is too large by a stated amount |
| `BigintModel.BorrowLoopStays` | src/3rdparty/fmt/format-inl.h:1267 | 2^64 - 1 computed by it is too large by (2^32 - 1) * 2^32 |
| `BigintModel.Compare` | src/3rdparty/fmt/format-inl.h:1348-1362 | the result for every two canonical numbers: the sign of the difference, except that equal amounts are told apart by their exponents and a zero reaching above the other number counts as larger |
| `BigintModel.ComparisonIsSign` | src/3rdparty/fmt/format-inl.h:1348-1362 | for all canonical numbers the result is the true sign if and only if equal amounts have equal exponents and no zero reaches above the other number |
| `BigintModel.ComparisonIsOrder` | src/3rdparty/fmt/format-inl.h:1455-1462 | the exact condition under which asking for a result >= 0, as division does, is right |
| `BigintModel.HighZeroIsLarger` | src/3rdparty/fmt/format-inl.h:1349-1351 | a zero at exponent 3 compares as larger than one |
| `BigintModel.EqualAmountsToldApart` | src/3rdparty/fmt/format-inl.h:1360 | 2^32 in two representations compares as unequal |
| `BigintModel.LowBigitSeparates` | src/3rdparty/fmt/format-inl.h:1453-1455 | a number with a nonzero lowest bigit never ties with one stored at a higher exponent, so division by it is exact |
| `BigintModel.AddCompareColumns` | src/3rdparty/fmt/format-inl.h:1374-1385 | reading from the top bigit down and stopping early still gives the sign of the whole sum |
| `BigintModel.AddCompare` | src/3rdparty/fmt/format-inl.h:1365-1386 | the result for every three canonical numbers; with no zero on the left stored above rhs it is the sign of lhs1 + lhs2 - rhs, for a zero rhs if and only if that is not stored too high |
| `BigintModel.QuotientIsSmall` | src/3rdparty/fmt/format-inl.h:1260-1269 | a dividend below 2^32 times the divisor has at most one bigit more, and that one is not zero: the borrow loop is then right |
| `BigintModel.Bigint.DivmodAssign` | src/3rdparty/fmt/format-inl.h:1453-1464 | returns the floor quotient and leaves the canonical remainder, except for two cases: an equal dividend stored at a higher exponent is left alone, and a zero stored at or above the divisor's number of bigits, which would be subtracted from, is what the contract excludes; the remainder is never such a zero |
| `BigintModel.ZeroAboveIsLarger` | src/3rdparty/fmt/format-inl.h:1349-1351 | a stored zero passes the comparison in front of the division if and only if it reaches above the divisor |
| `Decimal.RoundHalfEvenIsNearest` | src/3rdparty/fmt/format-inl.h:2400-2406 | the rounding that the fixed mode is proved against: no integer is closer, and of two equally close ones the even one is taken |
| `Decimal.CarryLeft` | src/3rdparty/fmt/format-inl.h:2407-2410 | carrying tens to the left keeps the number that the digits spell |
| `Decimal.Increment` | src/3rdparty/fmt/format-inl.h:2402-2416 | adding one in the last place of any digit string, with a result of all nines shown one place higher |
| `Dragon4.NextDigit` | src/3rdparty/fmt/format-inl.h:2396 | the floor of the quotient with the remainder left over, for up to ten times the denominator, where it is 10; an unseen tie gives zero with the denominator left over |
| `Dragon4.SafeDigit` | src/3rdparty/fmt/format-inl.h:2361 | a digit of the decimal expansion, at most 9, where ties are ruled out |
| `Dragon4.LeadingDigits` | src/3rdparty/fmt/format-inl.h:2395-2399 | the digits so far and the remainder always make up the number; they are all digits if and only if no tie went unseen before the last of them |
| `Dragon4.LastRounds` | src/3rdparty/fmt/format-inl.h:2401-2402 | rounding by what is left behind the last digit is half-even rounding of the whole number, also behind an unseen tie |
| `Dragon4.LastDigit` | src/3rdparty/fmt/format-inl.h:2400-2419 | the last digit with rounding and carry through nines; the exponent rises when the first digit overflows |
| `Dragon4.FixedDigits` | src/3rdparty/fmt/format-inl.h:2386-2419 | for any numerator below ten times the denominator, wherever stored if it is not zero, and any positive number of digits: what is stored spells, with the exponent, the quotient rounded half-even to that many places, and it is made of digits if and only if no tie goes unseen before the last place |
| `FreeFormat.FreeDigitsAreDigits` | src/3rdparty/fmt/format-inl.h:2362-2384 | every digit of the shortest mode is at most 9, even after the final increment |
| `FreeFormat.FreeDigitsInside` | src/3rdparty/fmt/format-inl.h:2362-2384 | the number printed lies within the lower and upper gaps |
| `FreeFormat.OnlyLowerEndMissed` | src/3rdparty/fmt/format-inl.h:2362-2384 | however the operands are stored, a shorter number within the gaps can only be the lower end, for an even significand |
| `FreeFormat.LowerEndNotSpelled` | src/3rdparty/fmt/format-inl.h:2364 | where ties go unseen, the digits never spell the lower end |
| `FreeFormat.FreeDigitsShortest` | src/3rdparty/fmt/format-inl.h:2362-2384 | no shorter number lies within the gaps if and only if ties are seen or the lower end is not the only number of some length there |
| `FreeFormat.OnlyLowerEndCloser` | src/3rdparty/fmt/format-inl.h:2362-2384 | however the operands are stored, a closer number of the same length can only be the lower end |
| `FreeFormat.FreeDigitsNearest` | src/3rdparty/fmt/format-inl.h:2362-2384 | no number of the same length within the gaps is closer if and only if ties are seen or the lower end is not the nearest of its length; with equal gaps it never is |
| `FreeFormat.UnseenTieIsNotShortest` | src/3rdparty/fmt/format-inl.h:2364 | every unseen tie at a first digit that the upper gap does not reach is passed by, although that digit lies on the lower end |
| `Dragon4.ShortestDigit` | src/3rdparty/fmt/format-inl.h:2363-2383 | one round of the loop is one round of the specification; the lower gap grows |
| `Dragon4.ShortestDigits` | src/3rdparty/fmt/format-inl.h:2356-2385 | the loop ends and leaves exactly the specified digits, also when both gaps are one shared bigint |
| `Dragon4.CharsSpell` | src/3rdparty/fmt/format-inl.h:2367 | the characters stored spell the number that the digits make |
| `Fallback.RatioIsValue` | src/3rdparty/fmt/format-inl.h:2320-2354 | numerator / denominator is f * 2^e / 10^exp10 if and only if e < 0 or the predecessor is not closer |
| `Fallback.GapsReachHalfway` | src/3rdparty/fmt/format-inl.h:2322-2354 | the gaps are half a step up and half, or a quarter of, a step down |
| `Fallback.PowerOfTenIsShort` | src/3rdparty/fmt/format-inl.h:2322-2333 | a 53-bit significand times 2^t is a power of ten only for t below 32 |
| `Fallback.SetupIsSafe` | src/3rdparty/fmt/format-inl.h:2322-2354 | with the operands as they are set up, no division meets the one case in which it is not exact |
| `Fallback.SetUp` | src/3rdparty/fmt/format-inl.h:2308-2354 | the four bigints get the values and the bigit exponents that the specification names, in all three branches |
| `Fallback.FixedRoundsTheValue` | src/3rdparty/fmt/format-inl.h:2386-2419 | the rounded ratio is f * 2^e rounded half-even at the place of the last digit, where the set-up stands for the value |
| `Fallback.InsideIsHalfway` | src/3rdparty/fmt/format-inl.h:2308-2354 | the gaps make up the rounding interval of the floating-point format: half-way, or a quarter down if the predecessor is closer, with both ends for an even significand |
| `Fallback.FallbackFormat` | src/3rdparty/fmt/format-inl.h:2305-2420 | shortest mode, zero digits and any number of digits, from significand and exponent to buffer and decimal exponent; the fixed digits are f * 2^e rounded half-even |
| `Fallback.ShortestIsBest` | src/3rdparty/fmt/format-inl.h:2356-2385 | shortest output lies in the rounding interval; it is shortest if and only if ties are seen or the lower end is not alone there, and nearest of its length if and only if ties are seen or the lower end is not the nearest, which it never is unless the predecessor is closer |
| `Fallback.ShortestMissesTie` | src/3rdparty/fmt/format-inl.h:2364 | a double on which the shortest mode goes on after 3584 although 3584 * 10^22 lies in its interval |
| `Fallback.MissedTieIsAlone` | src/3rdparty/fmt/format-inl.h:2364 | that double meets the condition under which the shortest mode fails |
| `Fallback.CloserPredecessorDoubles` | src/3rdparty/fmt/format-inl.h:2333 | 2^52 marked as having a closer predecessor is printed as 2^53 |
| `Fallback.LargeStartsBelowTen` | src/3rdparty/fmt/format-inl.h:2322-2333 | for e >= 0 the first quotient is below ten if and only if the value is below ten units, or five if the predecessor is closer |
| `Fallback.CloserPredecessorIsNoDigit` | src/3rdparty/fmt/format-inl.h:2333 | 2^56 marked as having a closer predecessor has a first quotient of 14, which is stored as no digit |
| `Grisu.RoundDirection` | src/3rdparty/fmt/format-inl.h:1473-1487 | down if and only if everything within the error rounds down, up if and only if everything rounds up and not also down; every value in between is a 64-bit word |
| `Grisu.NearestToEach` | src/3rdparty/fmt/format-inl.h:1496-1500 | nearest to both ends of an interval is nearest to every real number in it, against every other number of units |
| `Grisu.FixedHandler.OnStart` | src/3rdparty/fmt/format-inl.h:1588-1603 | decides about zero or negative precision; the buffer gets a digit only when the rounding is certain |
| `Grisu.FixedHandler.OnDigit` | src/3rdparty/fmt/format-inl.h:1605-1633 | done is reported only for digits that are nearest to everything within the error; failure exactly if the error has reached the remainder or, at the last digit asked for, is half a unit or leaves no number of units nearest to everything within it; the carry keeps the number |
| `Grisu.DivmodIntegral` | src/3rdparty/fmt/format-inl.h:1520-1562 | a digit of the integral part: at most 9, with a remainder below its unit that together with the digits makes up the value |
| `Grisu.IntegralDigits` | src/3rdparty/fmt/format-inl.h:1518-1567 | the digits before the point and the remainder make up the value, and done is sound |
| `Grisu.FractionalDigits` | src/3rdparty/fmt/format-inl.h:1569-1577 | neither the fraction nor the error overflows 64 bits, the loop ends, and done is sound |
| `Grisu.GenDigits` | src/3rdparty/fmt/format-inl.h:1501-1578 | done means the digits are a nearest decimal, at their place, to every number within the error, with as many digits as asked for, or that everything within the error is below half a unit of the last place asked for; failure means that no decimal of that place is, or that the error has caught up with the remainder |
| `Grisu.CountDigits` | src/3rdparty/fmt/format-inl.h:1512 | the number of decimal digits: 10^(c-1) <= n < 10^c |
| `WideMultiply.Multiply` | src/3rdparty/fmt/format-inl.h:1177-1183 | four half products give floor((x * y + 2^63) / 2^64) and no intermediate overflows |
| `WideMultiply.MultiplyBranchesAgree` | src/3rdparty/fmt/format-inl.h:1170-1185 | the portable branch equals the branch with a 128-bit product |
| `WideMultiply.Umul128` | src/3rdparty/fmt/format-inl.h:1648-1663 | the two words are the full 128-bit product |
| `WideMultiply.Uint128.Add` | src/3rdparty/fmt/format.h:781-784 | addition of a word to a pair of words modulo 2^128: the carry is noticed |
| `WideMultiply.Umul128Upper64` | src/3rdparty/fmt/format-inl.h:1668-1678 | floor(x * y / 2^64) |
| `WideMultiply.Umul192Upper64` | src/3rdparty/fmt/format-inl.h:1682-1687 | floor(x * y / 2^128) for a 128-bit y: no carry is lost |
| `WideMultiply.Umul192Middle64` | src/3rdparty/fmt/format-inl.h:1697-1702 | floor(x * y / 2^64) modulo 2^64 for a 128-bit y |
| `WideMultiply.Umul96Upper32` | src/3rdparty/fmt/format-inl.h:1691-1693 | floor(x * y / 2^64) for a 32-bit x, which fits 32 bits |
| `TrailingZeros.InverseTest` | src/3rdparty/fmt/format-inl.h:1762-1771 | for any odd divisor entry: the wrapped product by the inverse is at most the bound if and only if the divisor divides, and then it is the quotient |
| `TrailingZeros.Table32` | src/3rdparty/fmt/format-inl.h:321-327 | every entry of the 32-bit table is the inverse of its power of five with the right bound |
| `TrailingZeros.Table64` | src/3rdparty/fmt/format-inl.h:330-354 | the same for the 64-bit table |
| `TrailingZeros.DivisibleByPowerOf5In32` | src/3rdparty/fmt/format-inl.h:1762-1766 | true if and only if 5^exp divides x, for every 32-bit x |
| `TrailingZeros.DivisibleByPowerOf5In64` | src/3rdparty/fmt/format-inl.h:1767-1771 | true if and only if 5^exp divides x, for every 64-bit x |
| `TrailingZeros.FiveAboveBits` | src/3rdparty/fmt/format-inl.h:2018-2026 | dividing by five leaves the trailing zero bits in place |
| `TrailingZeros.StripBits` | src/3rdparty/fmt/format-inl.h:2026 | when the factors of five are out, shifting the same number of bits removes exactly that many decimal zeros |
| `TrailingZeros.RemoveTrailingZeros32` | src/3rdparty/fmt/format-inl.h:2003-2028 | old n = new n * 10^s with s at most 7 and, below 7, nothing left to remove, for every nonzero 32-bit n |
| `TrailingZeros.StripLargeQuotient` | src/3rdparty/fmt/format-inl.h:2049-2064 | the path for multiples of 10^8 |
| `TrailingZeros.StripRemainder` | src/3rdparty/fmt/format-inl.h:2066-2112 | the chain of tests on the low eight digits, which ends at seven without an eighth test |
| `TrailingZeros.RemoveTrailingZeros64` | src/3rdparty/fmt/format-inl.h:2031-2113 | old n = new n * 10^s with s at most 16 and, below 16, nothing left to remove, for 0 < n < 10^8 * 2^32 |
| `Permute.Gcd` | src/3rdparty/getopt/getopt.h:101-114 | Euclid: the result divides both numbers and is a combination of them |
| `Permute.RankOfNext` | src/3rdparty/getopt/getopt.h:134-137 | each step of a cycle raises the rank by one, so the cycle meets every slot of its column once |
| `Permute.SameRank` | src/3rdparty/getopt/getopt.h:130-144 | two slots of a column with the same rank are the same slot |
| `Permute.CycleStep` | src/3rdparty/getopt/getopt.h:133-143 | after each swap the slots passed hold their final elements and all others are as they were |
| `Permute.RotateCycle` | src/3rdparty/getopt/getopt.h:131-143 | one gcd cycle puts the final element in every slot of its column and touches no other |
| `Permute.PermuteArgs` | src/3rdparty/getopt/getopt.h:117-145 | the block of non-options and the block of options change places, each in its order, and nothing else moves |
| `GetoptSpec.SearchIsMatch` | src/3rdparty/getopt/getopt.h:220-240 | the table loop from any index on decides as the description of a match says |
| `GetoptSpec.LookupIsMatch` | src/3rdparty/getopt/getopt.h:207-248 | a long name selects its first exact match, else the first entry it abbreviates, unless it abbreviates another that means something else |
| `GetoptSpec.ParseIsPermutation` | src/3rdparty/getopt/getopt.h:335-465 | option words, skipped words and the rest hold every word as often as the vector does |
| `GetoptSpec.ParseKeepsOrder` | src/3rdparty/getopt/getopt.h:335-465 | option words and skipped words are each in their original order, and what follows "--" is untouched |
| `GetoptSpec.SkippedAreNonOptions` | src/3rdparty/getopt/getopt.h:353-354 | every skipped word is empty, does not start with a dash, or is a dash that is no option, and words are left over only behind "--" |
| `GetoptSpec.TakenAreOptions` | src/3rdparty/getopt/getopt.h:335-465 | the words put first are option words, each followed by the argument it asks for, and "--" at the end if at all |
| `GetoptModel.Getopt.MoveNonOptions` | src/3rdparty/getopt/getopt.h:342-343 | the skipped words go behind the option words scanned since |
| `GetoptModel.Getopt.Finish` | src/3rdparty/getopt/getopt.h:338-350 | at the end of the vector the skipped words come last and optind points at them |
| `GetoptModel.Getopt.SkipNonOption` | src/3rdparty/getopt/getopt.h:366-375 | a skipped word joins the earlier ones; the parse of what remains stays the parse of the whole |
| `GetoptModel.Getopt.EndAtDashes` | src/3rdparty/getopt/getopt.h:383-393 | "--" counts as an option word and ends the run |
| `GetoptModel.Getopt.EnterWord` | src/3rdparty/getopt/getopt.h:379-383 | entering an option word closes the block of skipped words |
| `GetoptModel.Getopt.FindLong` | src/3rdparty/getopt/getopt.h:220-240 | the loop over the option table |
| `GetoptModel.Getopt.ParseLongOptions` | src/3rdparty/getopt/getopt.h:194-304 | result code, argument and words consumed of a long option, including every error |
| `GetoptModel.Getopt.TakeOption` | src/3rdparty/getopt/getopt.h:398-465 | the next option of a word, short or long: its code, its argument, what is left of the word and how many words are done with |
| `GetoptModel.Getopt.Next` | src/3rdparty/getopt/getopt.h:307-466 | one call: either one more event of the parse, with the state still on track, or -1 with the vector and optind as the parse says |
| `GetoptModel.Getopt.Run` | src/3rdparty/getopt/getopt.h:469-476 | calls until -1 end and return exactly the events of the parse of the original vector |
| `GetoptModel.FinishedPermutes` | src/3rdparty/getopt/getopt.h:338-351 | after a run the vector is a permutation of the original |
| `GetoptIntent.ShortStep` | src/3rdparty/getopt/getopt.h:422-460 | a short option at the end of a word gives its own code and exactly its argument: the rest of the word, the next word, none, or the complaint that it is missing |
| `GetoptIntent.LongStepIs` | src/3rdparty/getopt/getopt.h:194-304 | a long option by its name or an unambiguous abbreviation gives its own code and exactly what is behind "=", or the next word, or a complaint |
| `GetoptIntent.UnknownStep` | src/3rdparty/getopt/getopt.h:242-248 | a name that abbreviates nothing, or things that mean something else, is refused |
| `GetoptIntent.WordUnderstood` | src/3rdparty/getopt/getopt.h:398-465 | a cluster of flags, with whatever option ends it, gives the event of every flag and that of the option |
| `GetoptIntent.ParseIsMeant` | src/3rdparty/getopt/getopt.h:335-465 | round trip: a vector written down from options, flags, arguments, plain words and "--" is parsed to exactly their events, option words, skipped words and rest |
| `GetoptIntent.RunIsMeant` | src/3rdparty/getopt/getopt.h:307-476 | ... and a run of calls returns those events and leaves the vector arranged in that way |
| `GetoptIntent.EveryVectorIsWritten` | src/3rdparty/getopt/getopt.h:335-465 | every argument vector is written down in that way, so the round trip covers all of them |
| `FormatSpec.ErrorIsLast` | src/3rdparty/fmt/format.h:2784-2831 | nothing reaches the handler after the first error, and what had reached it stays |
| `FormatSpec.EscapedTextIsText` | src/3rdparty/fmt/format.h:2793-2801 | from any point of a parse on, doubled braces are read back as the text |
| `FormatSpec.EscapeRoundTrip` | src/3rdparty/fmt/format.h:2784-2831 | a text with its braces doubled is parsed as exactly that text, without fields or errors |
| `FormatPieces.ArgIsRead` | src/3rdparty/fmt/format.h:2515-2546 | an argument reference is read as it is written: nothing, the decimal text of an index up to INT_MAX, or a name |
| `FormatPieces.PieceIsRead` | src/3rdparty/fmt/format.h:2756-2805 | a run of text, a doubled brace, a field and a field with specs each reach the handler as that, behind what was pending |
| `FormatPieces.DefectIsRead` | src/3rdparty/fmt/format.h:2756-2805 | each way a string can go wrong gives its own error; the text directly in front of a lone closing brace is lost |
| `FormatPieces.ParseTellsPieces` | src/3rdparty/fmt/format.h:2784-2831 | round trip from any point of a parse: a string written from pieces, with or without a defect behind them, tells the handler exactly those, in order |
| `FormatPieces.EveryFormatIsWritten` | src/3rdparty/fmt/format.h:2784-2831 | every string is written from pieces in that way, up to its first defect if it has one |
| `FormatPieces.CleanIsWritten` | src/3rdparty/fmt/format.h:2784-2831 | a string is parsed without an error if and only if it is written from text, doubled braces and fields that the handler takes |
| `FormatParser.ParseNonnegativeInt` | src/3rdparty/fmt/format.h:2163-2182 | 32-bit arithmetic with an early stop accepts a number if and only if it is at most INT_MAX, and gives its value |
| `FormatParser.ParseArgId` | src/3rdparty/fmt/format.h:2515-2546 | the loops over digits and name characters find the argument reference of the grammar, or its error |
| `FormatParser.ParseReplacementField` | src/3rdparty/fmt/format.h:2756-2781 | the in-place parser is the specified one: what the handler is told and where parsing goes on, for every field, specification and error |
| `FormatParser.Find` | src/3rdparty/fmt/format.h:2726-2740 | the first occurrence in a range, or none |
| `FormatParser.WriteText` | src/3rdparty/fmt/format.h:2806-2821 | text between fields with its doubled closing braces undone |
| `FormatParser.ParseShort` | src/3rdparty/fmt/format.h:2788-2805 | the character-by-character strategy tells the handler exactly what the specification says |
| `FormatParser.ParseLong` | src/3rdparty/fmt/format.h:2822-2830 | the find-based strategy tells the handler exactly the same, for strings of every length |
| `FormatParser.ParseFormatString` | src/3rdparty/fmt/format.h:2783-2831 | the choice between the two by length is not observable |
| `FloatWriter.WriteExponent` | src/3rdparty/fmt/format.h:1223-1241 | sign and two to four digits of the exponent |
| `FloatWriter.ExponentReadsBack` | src/3rdparty/fmt/format.h:1223-1241 | the exponent written is read back as itself, for every exponent in (-10000, 10000) |
| `FloatWriter.WriteDigits` | src/3rdparty/fmt/format.h:1682-1687 | the digits of the scientific layout |
| `FloatWriter.WriteInteger` | src/3rdparty/fmt/format.h:1693-1709 | the layout without a fraction, with its forced point and zeros |
| `FloatWriter.WriteMixed` | src/3rdparty/fmt/format.h:1710-1721 | the layout with the point among the digits |
| `FloatWriter.WriteFraction` | src/3rdparty/fmt/format.h:1722-1735 | the layout with zeros in front, cut to the precision only when there are no digits |
| `FloatWriter.WriteFloat` | src/3rdparty/fmt/format.h:1664-1737 | the loops and branches of all four layouts write the specified text |
| `FloatWriter.TextKeepsValue` | src/3rdparty/fmt/format.h:1664-1737 | read as a decimal number the text is worth digits * 10^exp; the only unreadable text is that of no digits with exponent zero |
| `FloatWriter.ExponentIsAskedFor` | src/3rdparty/fmt/format.h:1669-1680 | the text holds an exponent mark, once and in the case asked for, always in exponent format, never in fixed format, and in general format if and only if the leading digit stands below 10^-4 or at the precision (16 if there is none) or above; one digit is in front of the point then |
| `FloatWriter.ValueAsksForExponent` | src/3rdparty/fmt/format.h:1672-1679 | ... that is, if and only if the value is below 10^-4 or not below 10^precision |
| `FloatWriter.ExponentIsShort` | src/3rdparty/fmt/format.h:1223-1241 | the exponent has a sign and two digits, and more only without a leading zero |
| `FloatWriter.DigitsAreFilledUp` | src/3rdparty/fmt/format.h:1681-1735 | how many digits the text read back shows in every layout, with and without a forced point: those given, filled up to the precision or to the point; and when there is a point |
| `FloatWriter.NoDigitsAreZeros` | src/3rdparty/fmt/format.h:1722-1735 | a small number without digits is shown as zeros, cut to the precision |
| `Unicode.CodePointInjective` | src/3rdparty/fmt/format-inl.h:2592-2628 | no two well-formed characters have the same code point |
| `Unicode.CharIsEncoded` | src/3rdparty/fmt/format-inl.h:2592-2628 | the grammar admits exactly the encodings of scalar values by the table of RFC 3629 |
| `Unicode.EncodedIsWellFormed` | src/3rdparty/fmt/format-inl.h:2592-2628 | every encoded sequence of scalar values is well formed and has those code points |
| `Unicode.WellFormedIsEncoded` | src/3rdparty/fmt/format-inl.h:2592-2628 | every well-formed string is the encoding of its code points |
| `Unicode.DecodeEncode` | src/3rdparty/fmt/format-inl.h:2674-2680 | UTF-16 decoding inverts the encoding for every sequence of scalar values |
| `Utf8ToUtf16.FourBytesDecide` | src/3rdparty/fmt/format-inl.h:2592-2628 | the branchless decoder reports an error if and only if no well-formed character starts there, and otherwise its code point and length; zeros past the end never complete one |
| `Utf8ToUtf16.Transcode` | src/3rdparty/fmt/format-inl.h:2669-2682 | one character becomes its one or two code units, or the conversion fails |
| `Utf8ToUtf16.ConvertTail` | src/3rdparty/fmt/format-inl.h:2688-2695 | the zero-padded copy of the last bytes converts as the bytes themselves do |
| `Utf8ToUtf16.Convert` | src/3rdparty/fmt/format-inl.h:2668-2697 | succeeds if and only if the input is well-formed UTF-8, with the code units of its code points and a null |
| `Utf8ToUtf16.ConversionKeepsCodePoints` | src/3rdparty/fmt/format-inl.h:2668-2697 | the output decodes to the code points of the input |
| `Base32.BitsConcat` | src/3rdparty/base32/base32.h:44-59 | the bit stream can be cut anywhere |
| `Base32.Refill` | src/3rdparty/base32/base32.h:45-55 | five bits are made available from the next byte or by zero padding; what wraps out of the word does not matter |
| `Base32.SymbolCount` | src/3rdparty/base32/base32.h:44-59 | as few symbols as hold all the bits |
| `Base32.TakeBits` | src/3rdparty/base32/base32.h:56-57 | the five topmost of the bits left are the symbol and the others stay, whatever lies above them |
| `Base32.Encode` | src/3rdparty/base32/base32.h:35-65 | the buffer holds as many symbols of the bit stream as fit, a terminator if there is room, and nothing else changes; too long input is refused |
| `Base32.DecodeEncode` | src/3rdparty/base32/base32.h:35-65 | decoding the encoding gives the bytes back |
| `JobResults.CheckHash` | src/net/JobResults.cpp:81-90 | each nonce becomes one result or one error |
| `JobResults.GetResults` | src/net/JobResults.cpp:93-172 | where the family is checked, the new results are, in order, exactly one for each nonce whose hash is below the target, with its job, hash and nonce (the full one for KawPow), and all other nonces are errors; elsewhere all nonces are errors |
| `JobResults.SharesAreHits` | src/net/JobResults.cpp:93-172 | the shares of a bundle are one for each nonce whose hash is below the target, in order, and no others |
| `JobResults.AllSharesAreEarned` | src/net/JobResults.cpp:239-245 | a result is among the shares of a list of bundles if and only if one of their nonces earns it |
| `JobHandler.JobResultsPrivate.Submit` | src/net/JobResults.cpp:192-198 | a call is the protocol steps of submitting and sending, and the object is in the state they lead to |
| `JobHandler.JobResultsPrivate.SubmitBundle` | src/net/JobResults.cpp:202-208 | the same for a bundle |
| `JobHandler.JobResultsPrivate.Drain` | src/net/JobResults.cpp:218-236 | a call is a swap, one step for each result and the end of the drain: both lists are taken out, the results are shown in order and the bundles are handed on |
| `JobHandler.JobResultsPrivate.DoWork` | src/net/JobResults.cpp:239-245 | the worker takes one protocol step for each bundle and finds exactly its shares |
| `JobHandler.JobResultsPrivate.FinishBaton` | src/net/JobResults.cpp:238-254 | work, completion and showing are protocol steps; the shares of all bundles are shown in order and every nonce is a result or an error |
| `JobHandler.HandlerKeepsInv` | src/net/JobResults.cpp:176-281 | whatever has been called on the object, the invariant of the protocol holds of it |
| `JobHandler.HandlerDelivers` | src/net/JobResults.cpp:176-281 | at rest the listener has seen every result and every share of every bundle submitted, each as often: a result has been seen if and only if it was submitted or a nonce of a submitted bundle has earned it |
| `JobQueue.StepKeepsInv` | src/net/JobResults.cpp:192-256 | every step of every thread keeps the order, the wake-up, the shares and the count of nonces |
| `JobQueue.RunsKeepInv` | src/net/JobResults.cpp:192-256 | the invariant holds in every state of every interleaving |
| `JobQueue.QuiescentIsComplete` | src/net/JobResults.cpp:192-256 | when nothing but new submissions is possible, all results have been shown once and in order, all shares found, and every nonce accounted for |
| `JobQueue.EarnedIsFound` | src/net/JobResults.cpp:192-256 | at rest a result has been found if and only if a nonce of a submitted bundle has earned it by its hash |
| `JobQueue.StepLightens` | src/net/JobResults.cpp:218-254 | every step but a submission leaves less to do |
| `JobQueue.QuietRunsEnd` | src/net/JobResults.cpp:218-254 | without submissions no run goes on for ever |
| `JobQueue.RunDelivers` | src/net/JobResults.cpp:192-256 | at any time a prefix of the submissions has been shown, and at rest all of them |

## Left out

- Fallback.FallbackFormat: takes significand, exponent and the closer-predecessor flag as they come out of taking a double apart, and a decimal exponent that is an estimate from above; computing that estimate is not modelled.
- BigintModel.Bigint.ShiftLeft: exponents and lengths are unbounded; the width of `int` and the capacity of 32 digits that a destructor asserts are not modelled.
- BigintModel.Bigint.Square: the 32-bit index arithmetic is covered by a bound of 2^30 digits; the move of the old buffer is an assignment.
- Grisu.GenDigits: the error passed in is fixed at one unit in the last place, as the only caller does, and the powers of ten come from a function, not from a table.
- Grisu.CountDigits: states what counting digits means; the table lookup or builtin behind it is not modelled.
- TrailingZeros.RemoveTrailingZeros64: counting trailing zero bits is a loop here, a builtin in the source; the chain of seven written-out tests is a loop over the same tests.
- WideMultiply.Uint128.Add: on values, not in place; the branches that use compiler intrinsics are taken to do what their names say.
- Utf8ToUtf16.FourBytesDecide: bit fields that do not overlap are added instead of or-ed, and masks and shifts are remainders and quotients.
- Base32.Encode: the accumulator is an unsigned 32-bit pattern; what a signed left shift may do beyond that is not modelled, and a negative length cannot be expressed.
- FloatWriter.WriteFloat: the pairs table is replaced by the digits it holds; the wrapper that adds sign, width and the locale's point is not modelled.
- GetoptModel.Getopt.Run: `getopt_long` in permute mode only: no leading `+` or `-` in the option string, no `W;`, no `POSIXLY_CORRECT`, no `getopt_long_only`, and no long option whose value is -1. Stores through `flag`, the index result, `optopt`, `optreset` and the warnings are not modelled; the -1 at line 419 is proved unreachable here.
- FormatParser.ParseFormatString: a handler is an arbitrary decision function over everything it was told before; an error ends the parse, as the exceptions of the real handlers do. Format specifications are the handler's business.
- JobResults.GetResults: hash functions are parameters, all algorithm families are compiled in, and logging is left out.
- JobQueue.RunsKeepInv: the mutex makes a submission and its wake-up request atomic apart from the two steps modelled; several wake-up requests may merge into one; `stop` is not modelled.
- JobHandler.JobResultsPrivate.Drain: the steps of one method follow each other without those of other threads in between; the protocol has all interleavings. That the event loop takes up a wake-up is a method here.
- Dragonbox (`to_decimal`, `shorter_interval_case`) and the tables of powers of ten: finite arguments over tables, not over algorithms.
- Digit grouping, limited output buffers, locales, dates, the `snprintf` fallback and the type dispatch of the formatter.
- Hash computation, mining backends, network protocol, user interface and the OpenCL, ADL and ethash headers.
