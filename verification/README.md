# Exact number conversion and two streaming algorithms

This project models two components and proves what they promise.

**Number conversion** (`external/double-conversion`). A double is its bit
pattern; its value, its two rounding boundaries and decimal numbers are exact
reals with integer exponents (`Ieee`, `DecimalMeaning`, `Powers`).

- `Bignums` is the class of fixed capacity with 28-bit bigits in an array and an
  implicit exponent. Every operation is proved against the natural number that
  the bigits denote.
- `BignumDtoa` and the modules below it (`StartValues`, `ShortestDigits`,
  `DigitGeneration`, `OddPowers`, `Logarithms`) print: shortest digits, a number of
  places, or a number of digits. `FixedDtoa` (with `UInt128s`, `FillDigits`) is
  the fast way to print places, and `FastDtoa` (with `GrisuDigits`, `Weeding`,
  `PowerTable`) the fast way to the other two. Where a fast way succeeds it gives
  the digits and the point that the exact one gives, but for zeros at the end of
  places. `DoubleToString` chooses between the two.
- `Strtod` reads digit strings of any length: an approximation with an error
  bound (`Approximation`, `ErrorBounds`, `Rounding`, `CachedPowers`,
  `Underflow`), or one operation of the hardware for short inputs
  (`DoubleOperations`), then one exact comparison (`Comparison`). `Radix` reads integers
  whose radix is a power of two.
- `RoundTrip` connects the two directions.

The statements that the others serve: `RoundsTo(x, u)` says that the double with
the bits `u` is nearest to the real `x`, ties to even (and
`RoundsToIsNearest`, `RoundsToIsUnique` say that this is what it means);
`IsShortest` says that digits read back as `v`, that no fewer digits do, and that
no others of as many digits, wherever their point is, are nearer, or as near
when the digits are odd (`ClosestDigits`); `IsFixed` and `IsPrecise` say that
digits are `v` rounded half up to places or to significant digits.

**Streaming** (`external/cpp-httplib`). `Multipart` is the parser's buffer and
its body state, fed in pieces of any size. `ChunkedCoding` and `Chunked` write and
read the chunked transfer coding (section 7.1 of RFC 9112) over streams that give
and take any number of bytes at a time. `Receivers` is what both readers
hand their pieces to; it may refuse one, and is then given no other.

## Hypotheses and deviations

- The table of cached powers is part of the model. `PowerTable.TableIsGood` proves
  that each of its 87 entries is normalized and within half a unit of its power
  of ten (`GoodCache`), which is what the methods that take a table require.
- `DoubleStrtod` multiplies or divides once with the hardware. `Arithmetic` is a
  function that rounds an exact result to a double; that it rounds to nearest
  (`IsCorrect`, which IEEE 754-2008 demands of multiplication and division) is
  the hypothesis. `Unreliable` is the build that does not use it.
- `EstimatePower` and the index of `GetCachedPowerForBinaryExponentRange` round
  up a product of doubles with a constant for log10(2). Here the product is a
  real that may be off by any `error` up to 10^-10, far more than the rounding of
  such products (below 10^-12). That the estimate is right or one too small for
  every double, and that the entry lies in the target range, is proved
  (`Logarithms`), not assumed.
- `DivideModuloIntBignum` asserts that the rest is as long as the divisor
  (`external/double-conversion/bignum.cc:531`). That does not follow from a small
  quotient: 2^56 divided by 2^56 - 1 leaves a rest of one bigit against two.
  `Bignums.LengthAssertion` says when it holds: for every dividend exactly when
  the divisor is at most (B - 1) * B^(length - 1), with B = 2^28, and
  `BignumDtoa.DenominatorKeepsLength` that every denominator of the conversions
  is. The quotient and the remainder are exact all the same, so the model does
  not require what the assertions at
  `external/double-conversion/bignum.cc:523-531` say.
- `BiggestPowerTen` is documented to find the biggest power of ten for every
  number below the bound (`external/double-conversion/fast-dtoa.cc:225-234`); for
  small numbers it does not. `GrisuDigits.ChosenIsTooBig` is an input and
  `GrisuDigits.ChosenIsBiggest` the exact condition, which its callers meet.
- Two shortest results at the same distance: the documentation takes the one away
  from zero (`external/double-conversion/double-to-string.h:396-397`,
  `external/double-conversion/bignum-dtoa.h:61`), the code the even one
  (`external/double-conversion/bignum-dtoa.cc:248-258`). The model follows the
  code, so that the shortest digits are a function of the double
  (`ClosestDigits.ShortestIsUnique`). `ClosestDigits.TieInput` is an input where
  the two rules differ, 2 + 2^-17, and `ClosestDigits.DocumentedTie` says exactly
  when they do.
- Words are integers with range types where the code has `uint32_t` and
  `uint64_t`, so that every place where they could overflow is proved not to;
  where the code relies on wrap-around (the borrows of `SubtractBignum`, the left
  shifts of `UInt128`) the modulus is written out.
- Methods are split where a proof needs it; a method that the sources do not name
  is a piece of the one its comment or its caller models. Ghost parameters carry
  the numbers that the proofs talk about.
- Capacity checks that abort are preconditions, as are the asserts on arguments.

## Model

| member | source | states |
|---|---|---|
| Bignums.Bignum.AssignUInt16 | external/double-conversion/bignum.cc:55-63 | the value is that of the 16-bit argument, in at most one bigit |
| Bignums.Bignum.AssignUInt64 | external/double-conversion/bignum.cc:65-73 | the value is that of any 64-bit argument, in at most three bigits |
| Bignums.Bignum.AssignBignum | external/double-conversion/bignum.cc:75-82 | value, exponent and bigits become those of the other number |
| Bignums.ReadUInt64 | external/double-conversion/bignum.cc:84-95 | reading up to nineteen digits of a string gives the number they denote, without overflow |
| Bignums.Bignum.AssignDecimalString | external/double-conversion/bignum.cc:97-115 | any string of up to 1000 digits becomes exactly the number it denotes, within the capacity |
| Bignums.Bignum.Clamp | external/double-conversion/bignum.cc:715-723 | leading zero bigits go, the value stays |
| Bignums.Bignum.Align | external/double-conversion/bignum.cc:726-748 | the exponent comes down to the other one's without changing the value; aligned bigits move in place |
| Bignums.Bignum.AddUInt64 | external/double-conversion/bignum.cc:156-163 | the value grows by the operand |
| Bignums.Bignum.AddBignum | external/double-conversion/bignum.cc:166-209 | the value becomes the sum, for operands of any exponents and lengths |
| Bignums.Bignum.SubtractBignum | external/double-conversion/bignum.cc:212-236 | the value becomes the difference when it is not negative; wrapped 32-bit borrows included |
| Bignums.Bignum.SubtractTimes | external/double-conversion/bignum.cc:767-794 | the value becomes this - factor * other, by the early return for small factors as by the loop, and stays clamped |
| Bignums.Bignum.BigitsShiftLeft | external/double-conversion/bignum.cc:751-764 | the bigits become the value times 2^shift for a shift below one bigit |
| Bignums.Bignum.ShiftLeft | external/double-conversion/bignum.cc:239-247 | the value is multiplied by 2^shift; whole bigits only raise the exponent |
| Bignums.Bignum.MultiplyByUInt32 | external/double-conversion/bignum.cc:250-276 | the value is multiplied by any 32-bit factor |
| Bignums.Bignum.MultiplyByUInt64 | external/double-conversion/bignum.cc:279-308 | the value is multiplied by any 64-bit factor |
| Bignums.ThreeTermCarry | external/double-conversion/bignum.cc:290-301 | the sum that forms the next carry never exceeds 2^64 - 1, and with the emitted bigit it is the exact column total |
| Bignums.Bignum.MultiplyByPowerOfTen | external/double-conversion/bignum.cc:311-352 | the value is multiplied by 10^n for any n that fits: powers of five by 64- and 32-bit factors and one shift |
| Bignums.Bignum.Square | external/double-conversion/bignum.cc:355-424 | the value becomes its square, computed in place over its own bigits with a 64-bit accumulator that is zero at the end |
| Columns.TotalIsSquare | external/double-conversion/bignum.cc:355-424 | the Comba column sums, weighted by powers of the base, add up to the square |
| Bignums.Bignum.AssignPowerUInt16 | external/double-conversion/bignum.cc:427-498 | the value becomes exactly base^n; the capacity test at the start covers every later square, multiplication and shift |
| Bignums.Bignum.DivideModuloIntBignum | external/double-conversion/bignum.cc:502-565 | returns the quotient and leaves the remainder for every quotient below 2^16, also where the length assertion inside would not hold |
| Bignums.EstimateFits | external/double-conversion/bignum.cc:548-551 | the quotient estimated from the top bigits is never too large |
| Bignums.LengthAssertion | external/double-conversion/bignum.cc:517-531 | the length asserted after the loop is there for every dividend if and only if the divisor is at most (B - 1) * B^(length - 1) |
| BignumDtoa.DenominatorKeepsLength | external/double-conversion/bignum.cc:517-531 | for the denominators of the conversions the asserted length is there for every dividend |
| Bignums.Bignum.BigitOrZero | external/double-conversion/bignum.cc:633-641 | the bigit of this weight of the value, zero outside the stored ones |
| Bignums.Bignum.Compare | external/double-conversion/bignum.cc:644-667 | the sign of the difference of two values, by length or by bigits |
| Bignums.Bignum.PlusCompare | external/double-conversion/bignum.cc:670-712 | the sign of a + b - c without forming the sum, through every length shortcut and the swap of operands |
| DiyFps.DiyFp.Subtract | external/double-conversion/diy-fp.h:49-56 | the significand becomes the difference, which is not negative |
| DiyFps.DiyFp.Multiply | external/double-conversion/diy-fp.h:68-87 | the significand becomes the 128-bit product divided by 2^64, rounded to nearest, halves upwards |
| DiyFps.DiyFp.Normalize | external/double-conversion/diy-fp.h:96-114 | the value is unchanged and the most significant bit set |
| Ieee.Double.NextValue | external/double-conversion/ieee.h:91-102 | the next bit pattern is the next value, and the upper boundary is the middle of the two |
| Ieee.Double.LowerBoundary | external/double-conversion/ieee.h:191-205 | the lower boundary in units of the double itself, closer when the significand is a power of two |
| Ieee.ValueMonotone | external/double-conversion/ieee.h:91-123 | values and boundaries grow strictly with the bit pattern |
| Ieee.NearestExists | external/double-conversion/ieee.h:182-185 | every number that is not negative rounds to a double or to infinity |
| Ieee.RoundsToIsUnique | external/double-conversion/ieee.h:182-185 | a number rounds to one double only |
| Ieee.RoundsToIsNearest | external/double-conversion/ieee.h:182-185 | being between the boundaries, ties to the even side, is being nearest among all doubles (IEEE 754-2008 section 4.3.1) |
| DoubleBits.DiyFpToUint64 | external/double-conversion/ieee.h:256-281 | every significand and exponent get the bits of their value: bits beyond 53 are cut off, a carry goes into the exponent, too large is infinity and too small a unit zero |
| DoubleBits.RoundsDown | external/double-conversion/ieee.h:256-281 | a number less than half a unit above a significand rounds to its bits, infinity beyond the largest double |
| DoubleBits.RoundsUp | external/double-conversion/ieee.h:256-281 | a number more than half a unit above a significand rounds to the bits of the next one |
| FastDtoa.AsNormalizedDiyFp | external/double-conversion/ieee.h:69-83 | the value of the double, denormals included, with the top bit of 64 set |
| FastDtoa.NormalizedBoundaries | external/double-conversion/ieee.h:191-205 | both boundaries exactly, with a common exponent |
| Strtod.UpperBoundary | external/double-conversion/ieee.h:182-185 | a significand of one more bit that is exactly halfway to the next double |
| StartValues.PositiveExponent | external/double-conversion/bignum-dtoa.cc:417-447 | numerator, denominator and deltas are v and its boundaries in a common unit |
| StartValues.NegativeExponentPositivePower | external/double-conversion/bignum-dtoa.cc:450-481 | the same for a fraction of at least one |
| StartValues.NegativeExponentNegativePower | external/double-conversion/bignum-dtoa.cc:484-516 | the same for small numbers, scaled up by a power of ten |
| BignumDtoa.InitialScaledStartValues | external/double-conversion/bignum-dtoa.cc:568-598 | in each case the four bignums are one interval in one unit, its lower side halved for a power of two |
| BignumDtoa.StartRepresents | external/double-conversion/bignum-dtoa.cc:518-598 | the start values stand exactly for the double and its two rounding boundaries |
| BignumDtoa.NormalizedExponent | external/double-conversion/bignum-dtoa.cc:37-44 | the exponent for a significand of 53 bits, and how many bits were missing |
| Logarithms.CeilingOfLogarithm | external/double-conversion/bignum-dtoa.cc:370-413 | for every n that a double can need and every product within 10^-9 of n * 0.30102999566398114, its ceiling k has 10^(k-1) <= 2^n <= 10^k |
| BignumDtoa.EstimatePower | external/double-conversion/bignum-dtoa.cc:385-413 | the ceiling of the product brackets 2^(exponent+52) between two powers of ten, whatever the error of the hardware up to 10^-10 |
| BignumDtoa.EstimateIsGood | external/double-conversion/bignum-dtoa.cc:370-384 | for every positive finite double, denormals included, the estimate is right or one too small, for the upper boundary too |
| BignumDtoa.FixupMultiply10 | external/double-conversion/bignum-dtoa.cc:612-639 | an estimate that is one too small is corrected, so that the first digit is not zero; ties with the upper boundary by the parity of v |
| OddPowers.OddIsNoPowerOfTen | external/double-conversion/bignum-dtoa.cc:612-639 | no double with an odd significand is the power of ten with which the comparison without deltas could be tied |
| DigitGeneration.EmitDigit | external/double-conversion/bignum-dtoa.cc:195-202 | one digit is the quotient, and the state stays that of the digits so far |
| DigitGeneration.RoundDigit | external/double-conversion/bignum-dtoa.cc:208-272 | of the last two candidates the nearer one inside the boundaries is taken, and the even one when both are inside and equally near |
| DigitGeneration.GenerateShortestDigits | external/double-conversion/bignum-dtoa.cc:185-274 | terminates with as few digits as any number inside the boundaries has, the nearest of those with the same last place, the even one of two equally near |
| ShortestDigits.Interval.ShortestFound | external/double-conversion/bignum-dtoa.cc:185-274 | where the loop may stop, no shorter digits are inside the interval and the chosen ones are nearest |
| ShortestDigits.Interval.RoundUpDigit | external/double-conversion/bignum-dtoa.cc:239-271 | when the digits can be rounded up inside the interval the last one is below nine, so that a nine is never incremented |
| DigitGeneration.GenerateCountedDigits | external/double-conversion/bignum-dtoa.cc:283-318 | the digits are the fraction rounded half up to that many places; a carry out of all nines moves the point |
| DigitBuffer.PropagateCarry | external/double-conversion/bignum-dtoa.cc:305-316 | a last digit of ten becomes a carry of the same value, and a carry out leaves 10...0 |
| BignumDtoa.BignumToFixed | external/double-conversion/bignum-dtoa.cc:326-367 | as many digits as needed after the point, one or none when the number is near or below the last place |
| DecimalMeaning.GridPoint | external/double-conversion/bignum-dtoa.cc:185-274 | an integer multiple of the unit is inside the scaled interval exactly when the decimal it stands for rounds to v |
| DecimalMeaning.ShortestMeaning | external/double-conversion/bignum-dtoa.cc:185-274 | what the integer interval promises is, for the decimal numbers, being shortest and nearest |
| BignumDtoa.BignumDtoa | external/double-conversion/bignum-dtoa.cc:89-169 | for every positive finite double: in shortest mode at most 17 digits that read back as v, none fewer do, none of as many is nearer, and the even ones of two equally near; in the other modes v rounded half up to the places or digits asked for, with no more of them than that |
| ClosestDigits.NoTenFarAbove | external/double-conversion/bignum-dtoa.cc:185-274 | a power of ten up to the boundary above v is at most a nineteenth above v, denormals included |
| ClosestDigits.ShortestOnGridIsShortest | external/double-conversion/bignum-dtoa.cc:89-169 | digits that are nearest with their last place are the closest of their length among all decimals |
| ClosestDigits.SamePoint | external/double-conversion/bignum-dtoa.cc:89-169 | all shortest digits of a double have the same length and the same point |
| ClosestDigits.ShortestIsUnique | external/double-conversion/bignum-dtoa.cc:185-274 | a double has one shortest result: the digits and the point are a function of it |
| ClosestDigits.DocumentedTie | external/double-conversion/double-to-string.h:393-397 | the digits are those documented for a tie, away from zero, unless and only unless they are even, v is in the middle between them and the next number, and that reads back as v |
| ClosestDigits.TieInput | external/double-conversion/bignum-dtoa.cc:248-258 | for 2 + 2^-17 no 16 digits read back, 20000076293945312 and 20000076293945313 are equally near, and the first is the result |
| Comparison.CompareBufferWithDiyFp | external/double-conversion/strtod.cc:388-414 | the exact sign of the difference between digits * 10^exponent and significand * 2^e |
| PowerTable.TableIsGood | external/double-conversion/cached-powers.cc:46-134 | each of the 87 entries is normalized and within half a unit of its power of ten |
| PowerTable.NoDoubleJustBelow | external/double-conversion/fast-dtoa.cc:196-220 | no double is within a 2^-62nd below a power of ten, so that the digits of v and of its scaled approximation begin at the same place |
| PowerTable.NoTenJustBelowTwo | external/double-conversion/bignum.cc:523-531 | no power of ten is within a 2^-28th below a power of two |
| CachedPowers.BinaryExponentOf | external/double-conversion/cached-powers.cc:139-156 | the entry for the next decimal exponent in steps of eight has a binary exponent in a range of 28 |
| CachedPowers.GetCachedPowerForBinaryExponentRange | external/double-conversion/cached-powers.cc:139-156 | the index that is computed exists and its entry has a binary exponent in the requested range, whatever the error of the hardware up to 10^-10 |
| CachedPowers.GetCachedPowerForDecimalExponent | external/double-conversion/cached-powers.cc:159-172 | the entry at most seven powers below the one requested |
| CachedPowers.AdjustmentPowerOfTen | external/double-conversion/strtod.cc:247-264 | 10^1 to 10^7 exactly, normalized |
| Approximation.ReadUint64 | external/double-conversion/strtod.cc:151-162 | the number denoted by the digits read, as many as fit into 64 bits |
| Approximation.ReadDiyFp | external/double-conversion/strtod.cc:169-187 | the digits rounded half up at the last one that fits |
| Approximation.NothingLost | external/double-conversion/strtod.cc:302-314 | digits that leave room for the power of ten lose nothing in the 64-bit product |
| ErrorBounds.MultiplyExact | external/double-conversion/strtod.cc:302-314 | a product with an exact power has half a unit more of error |
| ErrorBounds.MultiplyRounded | external/double-conversion/strtod.cc:316-325 | a product with a power known to half a unit has less than one unit more |
| ErrorBounds.WithinShiftedRight | external/double-conversion/strtod.cc:337-349 | dropping bits costs less than a unit and an eighth |
| Approximation.MultiplyWithPower | external/double-conversion/strtod.cc:296-329 | the normalized product is strictly within the accumulated error of the number that the digits denote |
| Rounding.Decision | external/double-conversion/strtod.cc:350-376 | when the precision bits are further from the middle than the error, every number within the error rounds to the result; otherwise to it or the next double |
| Rounding.DropBits | external/double-conversion/strtod.cc:331-349 | near zero, significand and error are shifted so that the tests still fit into 64 bits |
| Rounding.RoundInput | external/double-conversion/strtod.cc:331-376 | a result called exact is the double that every number within the error rounds to |
| Underflow.FirstPower | external/double-conversion/cached-powers.cc:46-47 | only one normalized significand is within half a unit of 10^-348 |
| Underflow.NextToBoundary | external/double-conversion/strtod.cc:302-376 | the one input next to 2^-1075 whose error could matter is not rounded below it |
| Approximation.NotAboveBoundary | external/double-conversion/strtod.cc:331-376 | an estimate below 2^-1075 belongs to a number that is not above it |
| Approximation.DiyFpStrtod | external/double-conversion/strtod.cc:270-377 | with cached powers within half a unit, a result called exact is the correctly rounded double, denormals, zero and infinity included; otherwise it is that or the next lower one |
| Strtod.ComputeGuess | external/double-conversion/strtod.cc:419-442 | the same for every exponent, by the hardware or by the approximation: infinity from 10^309 on, zero below 10^-324 |
| DoubleOperations.DoubleStrtod | external/double-conversion/strtod.cc:190-242 | answers exactly for up to 15 digits and small exponents, with the nearest double |
| DoubleOperations.PowersAreDoubles | external/double-conversion/strtod.cc:61-87 | the 23 exact powers of ten are doubles |
| Ieee.BoundaryDecides | external/double-conversion/strtod.cc:466-486 | from a double or its predecessor, comparing with the boundary between them finds the one the number rounds to |
| Strtod.StrtodTrimmed | external/double-conversion/strtod.cc:466-486 | trimmed digits are read as the nearest double, ties to even |
| Strtod.TrimLeadingZeros | external/double-conversion/strtod.cc:95-102 | the digits without leading zeros, of the same value |
| Strtod.TrimTrailingZeros | external/double-conversion/strtod.h:53-60 | the digits without trailing zeros, which are a power of ten |
| Strtod.CutToMaxSignificantDigits | external/double-conversion/strtod.cc:104-119 | the first 779 digits and a one |
| Strtod.BoundariesOutside | external/double-conversion/strtod.cc:104-119 | no boundary between doubles lies strictly between two neighbouring numbers of 779 digits |
| Strtod.CutRoundsAlike | external/double-conversion/strtod.cc:104-119 | cut and uncut digits round to the same double |
| Strtod.TrimAndCut | external/double-conversion/strtod.cc:126-143 | whatever is trimmed or cut, the same double is nearest |
| Strtod.Strtod | external/double-conversion/strtod.cc:488-495 | digits of any number, any exponent: the nearest double, ties to even |
| RoundTrip.ShortestIdentity | external/double-conversion/bignum-dtoa.cc:89-169 | shortest digits are read back as v |
| RoundTrip.NoShorterIdentity | external/double-conversion/bignum-dtoa.cc:89-169 | fewer digits are never read back as v |
| RoundTrip.PrintAndRead | external/double-conversion/strtod.cc:466-495 | printing, fast or exact, and reading is the identity on the bits of every finite double, zero and negative ones included |
| UInt128s.UInt128.Multiply | external/double-conversion/fixed-dtoa.cc:42-57 | the 128-bit value times the factor, when that fits |
| UInt128s.UInt128.Shift | external/double-conversion/fixed-dtoa.cc:59-78 | the value divided by a power of two, or multiplied modulo 2^128 |
| UInt128s.UInt128.DivModPowerOf2 | external/double-conversion/fixed-dtoa.cc:82-95 | returns the quotient by a power of two and keeps the remainder |
| UInt128s.UInt128.BitAt | external/double-conversion/fixed-dtoa.cc:101-107 | one binary digit of the value |
| FillDigits.FillDigits32FixedLength | external/double-conversion/fixed-dtoa.cc:120-127 | the digits of a number in a fixed number of places, after those already there |
| FillDigits.FillDigits32 | external/double-conversion/fixed-dtoa.cc:130-150 | the digits of a number without leading zeros, written backwards and exchanged |
| FillDigits.FillDigits64FixedLength | external/double-conversion/fixed-dtoa.cc:153-165 | seventeen digits of a 64-bit number |
| FillDigits.FillDigits64 | external/double-conversion/fixed-dtoa.cc:168-186 | all digits of any 64-bit number |
| FixedDtoa.RoundUp | external/double-conversion/fixed-dtoa.cc:189-216 | one more in the last place; the decimal value is that of the digits plus one, also from an empty buffer and through all nines |
| FixedDtoa.FillFractionals64 | external/double-conversion/fixed-dtoa.cc:237-265 | the digits of a binary fraction rounded half up, with no 64-bit overflow |
| FixedDtoa.FillFractionals128 | external/double-conversion/fixed-dtoa.cc:266-286 | the same with 128 bits |
| FixedDtoa.FillFractionals | external/double-conversion/fixed-dtoa.cc:230-287 | with the digits before the point, v rounded half up to that many places |
| FixedDtoa.TrimZeros | external/double-conversion/fixed-dtoa.cc:292-307 | no zero at either end, the same decimal number |
| FixedDtoa.DivideByTen17 | external/double-conversion/fixed-dtoa.cc:329-365 | an integer of up to 73 bits as quotient and remainder by 10^17 |
| FixedDtoa.FastFixedDtoa | external/double-conversion/fixed-dtoa.cc:310-403 | succeeds exactly for exponents up to 20 and up to 20 places, and then gives v rounded half up, in no more places than asked for and without zeros at the ends |
| FixedDtoa.FastRefinesSlow | external/double-conversion/fixed-dtoa.cc:310-403 | the fast conversion gives the point of the exact fixed mode, and its digits without the zeros at their end |
| Weeding.RoundWeed | external/double-conversion/fast-dtoa.cc:61-166 | lowers the last digit towards w without passing zero, as long as that comes nearer, and accepts if and only if the digits are in the safe interval and settled |
| Weeding.OnlyLoweredIsSettled | external/double-conversion/fast-dtoa.cc:109-165 | digits that are refused could not have been accepted after any other number of steps |
| Weeding.SettledIsClosest | external/double-conversion/fast-dtoa.cc:141-165 | settled digits are nearer to every number within one unit of w than any other multiple in the unsafe interval |
| Weeding.RoundWeedCounted | external/double-conversion/fast-dtoa.cc:181-220 | rounds if and only if every number within one unit rounds the same way, and otherwise leaves the digits alone |
| GrisuDigits.BiggestPowerTen | external/double-conversion/fast-dtoa.cc:240-257 | the biggest power of ten that is at most the number, exactly when the guess from the bits, corrected by one, is not too big |
| GrisuDigits.ChosenIsBiggest | external/double-conversion/fast-dtoa.cc:225-257 | the documented result is reached if and only if the number is at least one and at least the entry below the guessed one |
| GrisuDigits.ChosenIsTooBig | external/double-conversion/fast-dtoa.cc:225-257 | the number 1 with 30 bits gets 10^8 |
| GrisuDigits.IntegralDigits | external/double-conversion/fast-dtoa.cc:335-369 | the digits before the point with the exact rest, stopping at the first place inside the interval |
| GrisuDigits.FractionalDigits | external/double-conversion/fast-dtoa.cc:380-395 | the digits behind the point, nothing overflowing 64 bits, at most seventeen digits in all |
| GrisuDigits.DigitGen | external/double-conversion/fast-dtoa.cc:300-396 | too_high is digits * 10^kappa + rest throughout; the digits stop at the first place inside the interval, and are accepted if and only if they pass the weeding test |
| GrisuDigits.DigitGenCounted | external/double-conversion/fast-dtoa.cc:428-498 | the digits of w, as many as asked for unless the rest is lost in the error, and accepted if and only if their rounding is certain |
| FastDtoa.ScaledBoundaries | external/double-conversion/fast-dtoa.cc:526-568 | number and boundaries, multiplied with a cached power, are each off by less than one unit and stay apart |
| FastDtoa.AcceptedRounds | external/double-conversion/fast-dtoa.cc:161-166 | accepted digits read back as v |
| FastDtoa.AcceptedIsNearest | external/double-conversion/fast-dtoa.cc:61-166 | every other decimal with the same last place that reads back as v is further from it |
| FastDtoa.AcceptedIsShortest | external/double-conversion/fast-dtoa.cc:344-395 | no decimal of fewer digits reads back as v |
| FastDtoa.Grisu3 | external/double-conversion/fast-dtoa.cc:519-582 | whenever it succeeds, the digits are shortest, the closest of their length, and no others with their last place are as near |
| FastDtoa.Grisu3Counted | external/double-conversion/fast-dtoa.cc:591-632 | whenever it succeeds, there are at most 19 digits and they are v rounded to that many significant digits |
| FastDtoa.FastDtoa | external/double-conversion/fast-dtoa.cc:635-663 | the same for both modes, with the decimal point |
| FastDtoa.FastRefinesExact | external/double-conversion/fast-dtoa.cc:635-663 | the fast shortest digits and their point are those of the exact algorithm |
| FastDtoa.RoundedRefinesExact | external/double-conversion/fast-dtoa.cc:635-663 | so are those of a given number of digits |
| FastDtoa.NotJustBelow | external/double-conversion/fast-dtoa.cc:591-632 | when the scaled number is a power of ten, v is not below it |
| DoubleToString.DoubleToAscii | external/double-conversion/double-to-string.cc:386-445 | for every finite double, zero and negative ones included, the digits that the mode asks for, the even ones of two equally near shortest ones, by the fast conversion or, where that refuses, by the exact one; places never begin with a zero and are never more than asked for, and where there are none the point says so |
| DoubleToString.FastAndExact | external/double-conversion/double-to-string.cc:416-443 | where the fast conversion works, running the exact one gives the same digits and point, with zeros behind them in fixed mode |
| RadixDigits.DigitKinds | external/double-conversion/string-to-double.cc:150-188 | the two ways to recognize a digit agree |
| RadixDigits.DigitCharacters | external/double-conversion/string-to-double.cc:150-188 | the digits of a radix are the first characters of 0-9a-v and 0-9A-V with their positions as values, and no other character is one |
| RadixDigits.SeparatedDigits | external/double-conversion/string-to-double.cc:191-208 | of digits with at most one separator between two neighbours, exactly the digits are read, and the number ends where neither a digit nor a separator and a digit follows |
| RadixDigits.WhitespaceCharacters | external/double-conversion/string-to-double.cc:112-136 | of the first 128 characters, white space is blank, tab, line feed, vertical tab, form feed and carriage return |
| RadixDigits.AdvanceToNonspace | external/double-conversion/string-to-double.cc:140-147 | the first position that is not white space |
| Radix.CountOverflowBits | external/double-conversion/string-to-double.cc:319-327 | as many bits as the number has beyond 53 |
| Radix.SkipTail | external/double-conversion/string-to-double.cc:334-347 | the remaining digits are counted, single separators between them skipped, and any of them that is not zero is noticed |
| Radix.DroppedBits | external/double-conversion/string-to-double.cc:329-364 | the dropped bits, the tail and the parity decide as rounding the whole number to nearest, ties to even, does |
| Radix.RoundOverflow | external/double-conversion/string-to-double.cc:318-371 | the significand and exponent of the nearest double, a carry into another bit included; the exponent fits into an int for up to 429496727 characters |
| Radix.RadixStringToIeee | external/double-conversion/string-to-double.cc:257-417 | digits of any number in a radix of 2 to 32: the nearest double, ties to even, infinity on overflow; junk exactly when something other than white space follows and is not allowed |
| Multipart.MultipartFormDataParser.StartWith | external/cpp-httplib/httplib.h:4979-4986 | whether a string occurs at a position of the buffer |
| Multipart.MultipartFormDataParser.BufFind | external/cpp-httplib/httplib.h:4998-5019 | the first occurrence in what is pending, or its size when there is none |
| Multipart.MultipartFormDataParser.BufAppend | external/cpp-httplib/httplib.h:5021-5037 | what is pending is followed by the data, moved to the front in place |
| Multipart.MultipartFormDataParser.BufErase | external/cpp-httplib/httplib.h:5039 | the first bytes of what is pending are gone |
| Receivers.ContentReceiver.Receive | external/cpp-httplib/httplib.h:4907-4920 | a receiver is given a piece only as long as it has refused none, and remembers every piece it was given |
| Multipart.MultipartFormDataParser.ScanBody | external/cpp-httplib/httplib.h:4904-4926 | one look at the body: everything before the first boundary is handed over and the boundary dropped, or nothing that more input could complete is; a refusal ends it, with nothing erased |
| Multipart.MultipartFormDataParser.Parse | external/cpp-httplib/httplib.h:4813-4926 | one piece of input: received and pending bytes are the input so far, or the body ended at the first boundary, or the receiver refused, and then it returns false |
| Multipart.FeedBody | external/cpp-httplib/httplib.h:4813-4926 | for every split of the input the receiver gets what comes before the first boundary, or after a refusal a part of that |
| ChunkedCoding.FromIToHex | external/cpp-httplib/httplib.h:2550-2558 | the shortest hexadecimal digits |
| ChunkedCoding.HexIsShortest | external/cpp-httplib/httplib.h:2550-2558 | small letters, and no zero in front of another digit |
| ChunkedCoding.HexRoundTrip | external/cpp-httplib/httplib.h:2550-2558 | they denote the number they were made from |
| ChunkedCoding.SizeOf | external/cpp-httplib/httplib.h:4269-4272 | white space, a sign, a prefix 0x and digits of either case with any zeros in front are the size, whatever follows; what is too large is the largest value |
| ChunkedCoding.NoSize | external/cpp-httplib/httplib.h:4269-4271 | without a digit there is no size |
| ChunkedCoding.SizeIsRead | external/cpp-httplib/httplib.h:4269-4272 | a chunk length is read as it was written |
| ChunkedCoding.LineInFront | external/cpp-httplib/httplib.h:2884-2917 | a line is what ends at the first carriage return and line feed, whatever follows |
| ChunkedCoding.DecodeSizedChunk | external/cpp-httplib/httplib.h:4267-4285 | a chunk of any bytes is taken off the front, with its size in any digits and with or without an extension |
| ChunkedCoding.DecodeChunk | external/cpp-httplib/httplib.h:4267-4285 | so is a chunk as it is written |
| ChunkedCoding.DecodeTrailer | external/cpp-httplib/httplib.h:4276-4319 | after a chunk of size zero any header lines of up to 8192 bytes and an empty line end the content, and what follows stays |
| ChunkedCoding.TrailerRefused | external/cpp-httplib/httplib.h:4304 | a header line of more than 8192 bytes is refused |
| ChunkedCoding.TrailerUnfinished | external/cpp-httplib/httplib.h:4315 | so is the end of the stream behind header lines |
| ChunkedCoding.DecodeLast | external/cpp-httplib/httplib.h:4276-4301 | the end of the stream right behind the last chunk is no failure |
| ChunkedCoding.SizeRefused | external/cpp-httplib/httplib.h:4271-4272 | a size line without a number, or with the largest one, is refused |
| ChunkedCoding.CutShort | external/cpp-httplib/httplib.h:4276-4278 | the bytes of a chunk that is cut short are delivered, and then it is refused |
| ChunkedCoding.NoLineEnd | external/cpp-httplib/httplib.h:4280-4282 | a chunk without a line end behind it is delivered and refused |
| ChunkedCoding.DecodeChunks | external/cpp-httplib/httplib.h:4256-4319 | decoding what was written gives the concatenation of the payloads and leaves what follows |
| ChunkedCoding.DecodeUnfinished | external/cpp-httplib/httplib.h:4256-4319 | without the end marker the reader refuses |
| Chunked.StreamLineReader.Append | external/cpp-httplib/httplib.h:2919-2930 | the line grows by a byte, in the fixed buffer or beyond it |
| Chunked.StreamLineReader.GetLine | external/cpp-httplib/httplib.h:2884-2917 | exactly one line is consumed, or all that is left |
| Chunked.ReadContentWithLength | external/cpp-httplib/httplib.h:4207-4227 | that many bytes are handed over, in pieces of any size, or all there are, or those up to a piece that the receiver refuses |
| Chunked.ReadContentChunked | external/cpp-httplib/httplib.h:4256-4319 | what is delivered, the result and what stays in the stream are those of decoding the bytes, for any bytes; a receiver that refuses gets no further piece, and the result is false |
| Chunked.WriteData | external/cpp-httplib/httplib.h:4444-4452 | everything is written, however little each call takes |
| Chunked.DataSink.Write | external/cpp-httplib/httplib.h:4544-4569 | a write that is not empty becomes one chunk; an empty one ends the content |
| Chunked.DataSink.Done | external/cpp-httplib/httplib.h:4573-4608 | the end marker and an empty line |
| Chunked.WriteContentChunked | external/cpp-httplib/httplib.h:4537-4638 | the payloads before the first empty one as chunks, and the end marker exactly when none is empty |
| Chunked.WriteAndRead | external/cpp-httplib/httplib.h:4256-4638 | the payloads arrive concatenated, whatever the streams do, exactly when none is empty and the receiver refuses nothing |

## Left out

- The rounding of double products in `EstimatePower` and in the index of a cached power: any small error is admitted instead; see the hypotheses.
- `Single`, `Strtof`, `SanitizedDoubletof` and the shortest-single modes: the same arguments with other constants, and casts to `float`.
- The rest of `double-to-string.cc` and the grammar of `StringToIeee`: text formatting, signs, spaces and symbols, branch by branch.
- Radix.RadixStringToIeee: up to 429496727 characters the exponent fits into an `int`; longer inputs, where the code overflows it, are not distinguished.
- The hexadecimal-float case of `RadixStringToIeee`: a written exponent on top of the same rounding.
- `AssignHexString`, `ToHexString`, `PreviousDouble`, `Bignum::Equal` and the other comparison wrappers: not used by the conversions, or one call.
- Comparison.CompareBufferWithDiyFp: for binary exponents from -1100 to 1100, more than every boundary of a double has.
- Radix.IntegerToDouble: the cast of an integer below 2^53 to `double` is taken to be exact.
- Multipart.MultipartFormDataParser.Parse: stops when the body state is left; the preamble, header and boundary states and the file information are not modelled, and the preamble state does drop what it has buffered.
- ChunkedCoding.Strtoul16: `strtoul` itself, in base 16 with 64-bit results, is written from the C standard's description.
- Chunked.ReadContentChunked: header fields of a trailer are skipped, and streams do not fail; a stream only ends.
- Chunked.WriteContentChunked: no compressor, no trailer, no shutdown and streams that do not fail.
- `Chunked.InputStream` and `Chunked.OutputStream`: stand for sockets; how many bytes a call moves is an arbitrary function.
- `Vector<const char>` views are sequences, so aliasing between views of one buffer is not modelled; buffers that are written are arrays.
- The rest of `httplib.h`, `examples/`, `scripts/` and `include/mbase/`: sockets, TLS, compression, routing, bindings to code that is not shown, and thin templates.
