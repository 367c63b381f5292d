# Verified models of the proxy kernel's machine layer

This project models three parts of the RISC-V proxy kernel's machine layer and proves what they are for:

1. **Floating-point emulation** (`softfloat/`).  Binary64 and binary32 arithmetic on machine words.  The
   specification of every operation is one definition (`Rounding`, `Binary64`, `Binary32`): the exact real result
   rounded once in the current mode, with IEEE 754-2008 flags (tininess detected before rounding).  The rounding is
   defined on real numbers and pinned down by laws: monotone, exact on representable numbers, no representable number
   strictly between a number and its rounding, nearest or directed as the mode says, ties to even or away.
2. **The flattened-device-tree scanner and its in-place filter** (`machine/fdt.c`), on arrays of words, for trees of
   any size with NOPs anywhere.
3. **Inter-processor interrupts** (`machine/mtrap.c` against `machine/mentry.S`), as interleaved atomic steps of any
   number of harts.

A finite encoding stands for a real number; a word is a natural number below 2^32 or 2^64, and every operation that
can carry out of a word wraps explicitly.  `uint_fast32_t` and `int_fast16_t` are taken as 32 bits wide, as on the
riscv newlib target.  The rounding mode and the sticky flags live in a class (`FpEnv`); methods raise flags by or-ing
them into it.

The idea behind most floating-point proofs is in `Sticky`: folding cut-off bits into the lowest kept one ("jamming")
never moves a number across, onto or off a line of an even grid, and rounding looks at nothing else
(`Rounding.SamePositionSameRounding`).

## Layout

| files | contents |
|---|---|
| Arith, Powers, Sticky | arithmetic by name; powers of two and scaling; positions between grid lines, jamming |
| Rounding, Packing, FpState | rounding to a format and its laws; the integer form of rounding; modes, flags, outcomes |
| Words, WideWords | shifts, leading zeros, 128/192/256-bit sums and products |
| Binary64, Operands64, RoundPack64 | the encoding, taking operands apart, round-and-pack |
| Add64, Mul64, Div64, Rem64, MulAdd64, EstimateDiv | the operations |
| Order64, FloatToInt, RoundToInt | order and monotone addition; conversions to integers; rounding to an integral value |
| Laws64 | what the binary64 operations have to do with each other, and single encodings |
| Binary32, Operands32, RoundPack32, Mul32, EstimateSqrt, Sqrt32 | binary32 |
| Convert, IntToFloat | binary32/binary64 conversions; integers to floating point, emulated FCVT.S.W and FCVT.S.WU |
| FdtStrings, FdtTree, FdtScan | C strings; token trees, traces and pruning; the scan and the filter on an array |
| Ipi | the interrupt protocol as a state machine |

## What the proofs found

- `softfloat_mulAddF64` with the subtract-addend bit set (FMSUB.D and FNMADD.D) returns the addend with the wrong
  sign exactly when the factors are finite and the addend is infinite, or is to be returned beside a zero product
  (`MulAdd64.ReturnsAddend`); 1 * 0 - 1 gives 1 (`MulAdd64.ReturnedAddendWrong`).  For every other input and for the two operations without that bit it is correctly
  rounded; the flags are always right.
- The count handed to `softfloat_shortShift128Left` in `softfloat/s_mulAddF64.c:151-153` can be 0: that happens exactly
  when the high word cancels and the low word starts at bit 62 (`MulAdd64.ShiftCountRange`,
  `MulAdd64.ZeroShiftReached`).  It is harmless because the low word has then been moved up and the second word is 0.
- `softfloat/f32_sqrt.c:50-53` is never reached: the root estimate plus two never wraps.
- `filter_compat` uses 999 for "nothing marked", so a node left at depth 999 is deleted whatever it contains; the
  words it leaves are the right ones if and only if less than 999 levels are to be left (`FdtTree.FilterExactly`,
  `FdtScan.FilterCompat`).  999 nested nodes without any property are damaged (`FdtTree.DeepNestDamaged`).
- The truncating signed conversions differ from the general ones exactly on NaNs with the sign bit set
  (`FloatToInt.BothI32`, `FloatToInt.BothI64`); `FloatToInt.NegativeNaN` is such a NaN.

## Model

| member | source | states |
|---|---|---|
| FpState.OrFields | machine/fp_emulation.h:49-49 | raising sets exactly the flags named and clears none, flag by flag |
| FpState.OrIsSticky | machine/fp_emulation.h:70-70 | the order and the number of times flags are raised do not matter |
| Rounding.RoundedMono | softfloat/s_roundPackToF64.c:19-60 | rounding to a format is monotone |
| Rounding.RoundedExact | softfloat/s_roundPackToF64.c:57-60 | exactly the numbers of the format are their own rounding, in every mode |
| Rounding.RoundedFaithful | softfloat/s_roundPackToF64.c:19-60 | no number of the format lies strictly between a number and its rounding |
| Rounding.RoundedNearest | softfloat/s_roundPackToF64.c:20-25 | in the two nearest modes no number of the format is closer |
| Rounding.RoundedDirected | softfloat/s_roundPackToF64.c:26-31 | the directed modes round to the side they name, whatever the sign |
| Rounding.RoundedTies | softfloat/s_roundPackToF64.c:58-59 | a tie goes to the even significand, or away from zero in the nearest-max-magnitude mode |
| Rounding.SamePositionSameRounding | softfloat/s_roundPackToF64.c:33-60 | numbers at one place of a grid finer than half a quantum round alike, with the same exactness |
| Sticky.JamPosition | softfloat/s_shift64RightJam.c:6-14 | jamming moves no number across, onto or off a line of an even grid |
| Sticky.JamJam | softfloat/s_shift64RightJam.c:6-14 | jamming twice is jamming once, and cuts something off in the same cases |
| Words.Shift64RightJamIsJam | softfloat/s_shift64RightJam.c:6-14 | for every count the result is the jammed quotient by 2^count |
| Words.Shift32RightJamIsJam | softfloat/s_shift32RightJam.c:6-14 | the same on 32 bits |
| Words.Shift128RightJamIsJam | softfloat/s_shift128RightJam.c:7-30 | the two result words are the jammed quotient of the 128-bit number |
| Words.ShortShift128LeftExact | softfloat/s_shortShift128Left.c:7-15 | for counts 1 to 63 nothing is lost when the shifted number fits |
| Words.Add128 | softfloat/s_add128.c:7-16 | the sum modulo 2^128 |
| Words.Sub128 | softfloat/s_sub128.c:7-16 | the difference modulo 2^128 |
| Words.SignBit | softfloat/s_estimateDiv128To64.c:19-22 | a wrapped number below 2^127 in magnitude shows its sign in the top bit |
| Words.Mul64To128 | softfloat/s_mul64To128.c:6-27 | the exact 128-bit product |
| Words.AddLimbs | softfloat/s_mul64To128.c:20-24 | adding the four partial products loses no carry |
| Words.CountLeadingZeros32 | softfloat/s_countLeadingZeros32.c:5-21 | shifting left by the count brings the first 1 to bit 31; 32 for zero |
| Words.CountLeadingZeros64 | softfloat/s_countLeadingZeros64.c:6-31 | shifting left by the count brings the first 1 to bit 63; 64 for zero |
| WideWords.Mul128By64To192 | softfloat/s_mul128By64To192.c:6-19 | the exact 192-bit product |
| WideWords.Mul128To256 | softfloat/s_mul128To256.c:6-27 | the exact 256-bit product |
| WideWords.AddColumns | softfloat/s_mul128To256.c:13-24 | the column sums lose no carry, not even the last |
| WideWords.Add192 | softfloat/s_add192.c:6-29 | the sum modulo 2^192 |
| WideWords.Sub192 | softfloat/s_sub192.c:6-29 | the difference modulo 2^192 |
| WideWords.SubUndoesAdd | softfloat/s_sub192.c:6-29 | subtracting what was added gives the words back |
| WideWords.AddUndoesSub | softfloat/s_add192.c:6-29 | adding what was subtracted gives the words back |
| Packing.IncrementRounds64 | softfloat/s_roundPackToF64.c:57-59 | add the increment, cut ten bits, clear the last bit on a tie: that is rounding to an integer in each mode |
| Packing.IncrementRounds32 | softfloat/s_roundPackToF32.c:56-58 | the same with seven bits |
| Binary64.EncodeValue | softfloat/internals.h:150-150 | fields are added: a significand that carries out of its field still encodes the right number |
| Binary64.RoundedMagBounds | softfloat/s_roundPackToF64.c:58-60 | the delivered magnitude stands for the rounded real number |
| Binary64.JamRounds | softfloat/s_roundPackToF64.c:19-60 | a jammed significand with two more bits than the format rounds as the exact number it was jammed from |
| Binary64.ExactMag | softfloat/s_roundPackToF64.c:19-60 | every finite encoding is its own correctly rounded result and raises nothing |
| RoundPack64.RoundPackToF64 | softfloat/s_roundPackToF64.c:10-65 | sig*2^(exp-1084) rounded once, with exact inexact, underflow and overflow flags, over the subnormal, normal and overflow ranges and all five modes |
| RoundPack64.UnroundedOutcome | softfloat/internals.h:173-177 | a significand that is not normalised, at exponent 0 and with nothing to round, is packed as the subnormal number it is |
| RoundPack64.OverflowOutcome | softfloat/s_roundPackToF64.c:47-54 | overflow delivers infinity or the largest finite number as mode and sign say |
| RoundPack64.NormRoundPackToF64 | softfloat/s_normRoundPackToF64.c:9-23 | the same for a significand that is not normalised |
| RoundPack64.ExactOutcome | softfloat/s_normRoundPackToF64.c:16-18 | the fast path that skips rounding agrees with it |
| Operands64.NormSubnormalF64Sig | softfloat/s_normSubnormalF64Sig.c:7-17 | the normalised significand and exponent stand for the same number |
| Operands64.PropagateNaNF64UI | softfloat/s_propagateNaNF64UI.c:18-24 | the default NaN; invalid exactly for a signaling operand |
| Operands64.SignalingNaN | softfloat/specialize.h:92-97 | the bits tested are those of a NaN whose quiet bit is clear |
| Operands64.DefaultNaN | softfloat/specialize.h:87-87 | the NaN delivered has its sign bit, its exponent field and every fraction bit set, and is quiet |
| EstimateDiv.EstimateDiv128To64 | softfloat/s_estimateDiv128To64.c:6-27 | for b at least 2^63 the estimate is the 64-bit quotient or at most two more; all ones when the quotient does not fit |
| EstimateDiv.DigitBounds | softfloat/s_estimateDiv128To64.c:14-16 | each 32-bit digit estimate is at most two too large |
| EstimateDiv.ResidueBounds | softfloat/s_estimateDiv128To64.c:17-22 | the residue is negative exactly while the digit is too large, so that at most two corrections follow |
| Add64.SumOfMags | softfloat/f64_add.c:8-28 | the sum by signs: sums or differences of magnitudes, with the IEEE sign of zero |
| Add64.AddMagsF64 | softfloat/s_addMagsF64.c:10-76 | the sum of magnitudes rounded once, exact flags, special operands included |
| Add64.AlignedSum | softfloat/s_addMagsF64.c:50-67 | the sticky shift of the smaller operand, and the extra left shift, do not change the rounding |
| Add64.SubnormalSum | softfloat/s_addMagsF64.c:35-40 | two subnormals add exactly as integers, carrying into the normal range |
| Add64.SubMagsF64 | softfloat/s_subMagsF64.c:11-80 | the difference of magnitudes rounded once, total cancellation included |
| Add64.AlignedDifference | softfloat/s_subMagsF64.c:52-73 | the sticky shift does not change the rounding even when a bit cancels |
| Add64.F64Add | softfloat/f64_add.c:8-28 | a + b rounded once, exact flags, IEEE specials and zero signs |
| Add64.F64Sub | softfloat/f64_sub.c:8-28 | a - b rounded once, exact flags, IEEE specials and zero signs |
| Mul64.F64Mul | softfloat/f64_mul.c:10-90 | a * b rounded once, exact flags, IEEE specials |
| Mul64.ProductRounds | softfloat/f64_mul.c:63-72 | the 128-bit product folded to 64 bits rounds as the exact product |
| Div64.F64Div | softfloat/f64_div.c:10-103 | a / b rounded once, exact flags, IEEE specials and division by zero; no flag is cleared, and a number over zero sets the division-by-zero flag, 0/0 and inf/inf the invalid one |
| Div64.SignificandQuotient | softfloat/f64_div.c:76-85 | the quotient, corrected or not, lies among the rounding boundaries where the exact quotient does |
| Div64.CorrectQuotient | softfloat/f64_div.c:78-83 | an estimate at most two too large is brought down to the quotient, with a sticky last bit exactly when something remains |
| Div64.UncorrectedQuotient | softfloat/f64_div.c:77-77 | an estimate more than two above a boundary needs no correction |
| Rem64.F64Rem | softfloat/f64_rem.c:10-112 | exactly a - n*b with n the integer nearest a/b, ties to even, a zero result with a's sign, no flag for finite operands |
| Rem64.SpecialDivisors | softfloat/f64_rem.c:40-53 | by infinity the remainder is the dividend; of infinity and by zero it is the NaN, and invalid |
| Rem64.NearestRemainder | softfloat/f64_rem.c:67-100 | the integer loop leaves the remainder nearest zero of the shifted dividend |
| Rem64.ReduceChunks | softfloat/f64_rem.c:69-75 | the 62-bit reduction keeps sigA below sigB and a multiple of 2^9, ends, and drops only an even quotient |
| Rem64.ChunkStep | softfloat/f64_rem.c:71-74 | one wrapped 62-bit step loses nothing |
| Rem64.SettleQuotient | softfloat/f64_rem.c:87-100 | the final loop and the tie rule choose the nearest remainder |
| Rem64.RemainderRepresentable | softfloat/f64_rem.c:101-101 | the remainder is a binary64 number, so that no flag can be raised |
| MulAdd64.MulAddF64 | softfloat/s_mulAddF64.c:10-187 | +-a*b +- c rounded once with exact flags, for all operands and all four operation codes, except the sign of a returned addend |
| MulAdd64.OperationCodes | softfloat/s_mulAddF64.c:42-45 | for all operands, code 1 is code 0 with the addend negated, 2 with the product negated, 3 with both |
| MulAdd64.OperationValues | softfloat/s_mulAddF64.c:42-45 | on finite operands the four codes round a*b + c, a*b - c, c - a*b and -a*b - c once, with the IEEE sign of an exact zero |
| MulAdd64.ReturnedAddend | softfloat/s_mulAddF64.c:56-62 | where the addend is handed back it is the right answer if and only if the addend is not to be subtracted |
| MulAdd64.ReturnedAddendWrong | softfloat/s_mulAddF64.c:177-182 | operands for which the addend handed back is not the right answer |
| MulAdd64.FullProduct | softfloat/s_mulAddF64.c:76-83 | the 128-bit product is exact and normalised |
| MulAdd64.SumOfWide | softfloat/s_mulAddF64.c:97-116 | product and addend of one sign: the folded sum rounds as the exact one |
| MulAdd64.DifferenceOfWide | softfloat/s_mulAddF64.c:119-140 | opposite signs: the 128-bit difference is the jammed exact difference with its sign, zero exactly on total cancellation |
| MulAdd64.NormaliseDifference | softfloat/s_mulAddF64.c:141-156 | normalising the difference to one word keeps its rounding |
| MulAdd64.ShiftCountRange | softfloat/s_mulAddF64.c:146-153 | when exactly the left-shift count is in 1 to 62, is 0, or is negative |
| MulAdd64.ZeroShiftReached | softfloat/s_mulAddF64.c:151-153 | operands for which the count is 0 |
| MulAdd64.TimesOneIsAdd | softfloat/s_mulAddF64.c:64-159 | f64_mulAdd(a, 1, c) and f64_add(a, c) agree in bits and flags |
| MulAdd64.PlusZeroIsMul | softfloat/s_mulAddF64.c:85-90 | f64_mulAdd(a, b, zero of the product's sign) and f64_mul(a, b) agree in bits and flags |
| Order64.F64Le | softfloat/f64_le.c:9-34 | the order of the numbers, zeros equal, NaNs unordered and invalid |
| Order64.TotalOrder | softfloat/f64_le.c:27-32 | total and transitive on what is no NaN, antisymmetric up to the two zeros |
| Order64.InfinitiesOutside | softfloat/f64_le.c:27-32 | every finite number is strictly between the infinities |
| Order64.BitOrderIsOrder | softfloat/f64_le.c:27-32 | comparing the bits is comparing the numbers |
| Order64.RoundSignedMono | softfloat/s_roundPackToF64.c:19-60 | rounding real numbers to encodings is monotone across signs, zeros and overflow |
| Order64.AddMonotone | softfloat/f64_add.c:24-26 | f64_le(a, b) implies f64_le(f64_add(a, c), f64_add(b, c)) |
| Laws64.Landmarks | softfloat/internals.h:150-150 | one, minus two, the zeros, the least, the least normal and the greatest number, by their encodings |
| Laws64.RoundFlags | softfloat/s_roundPackToF64.c:33-56 | the flags of one rounding, flag by flag, in terms of the real number and its rounding |
| Laws64.QuotientFlags | softfloat/f64_div.c:53-89 | the flags of a division of finite nonzero numbers, flag by flag |
| Laws64.SubtractIsAddOpposite | softfloat/f64_sub.c:24-26 | a - b is a + (-b), in bits and flags, for all operands |
| Laws64.SumCommutes | softfloat/f64_add.c:24-26 | a + b is b + a, in bits and flags, for all operands |
| Laws64.InfiniteSums | softfloat/s_addMagsF64.c:46-50 | infinity plus a number, plus infinity, minus infinity |
| Laws64.ProductCommutes | softfloat/f64_mul.c:40-72 | a * b is b * a, in bits and flags, for all operands |
| Laws64.NegatedOperand | softfloat/f64_div.c:53-89 | negating an operand of a product or a quotient negates the result, rounded the other way, with the same flags |
| Laws64.OneIsNeutral | softfloat/f64_mul.c:40-72 | a * 1 and a / 1 are a and raise nothing, for every operand that is no NaN |
| Laws64.SpecialProducts | softfloat/f64_div.c:39-57 | zero and infinite operands of products and quotients, by their encodings |
| FloatToInt.RoundPackToI32 | softfloat/s_roundPackToI32.c:9-47 | the rounded magnitude with its sign if it is in range, invalid otherwise, inexact only when asked for and due |
| FloatToInt.RoundPackToUI32 | softfloat/s_roundPackToUI32.c:9-43 | the same for unsigned 32-bit integers |
| FloatToInt.RoundPackToI64 | softfloat/s_roundPackToI64.c:9-51 | the same for signed 64-bit integers |
| FloatToInt.RoundPackToUI64 | softfloat/s_roundPackToUI64.c:9-45 | the same for unsigned 64-bit integers |
| FloatToInt.RoundWord | softfloat/s_roundPackToI64.c:21-37 | incrementing by the second word is rounding, and wraps exactly when the rounded number is 2^64 |
| FloatToInt.ExtraPlace | softfloat/s_shift64ExtraRightJam.c:7-22 | the extra word says where the number lies between two integers |
| FloatToInt.F64ToI32 | softfloat/f64_to_i32.c:9-28 | the operand rounded to an integer, or invalid |
| FloatToInt.F64ToUI32 | softfloat/f64_to_ui32.c:9-28 | the operand rounded to an integer, or invalid |
| FloatToInt.F64ToI64 | softfloat/f64_to_i64.c:9-43 | the operand rounded to an integer, or invalid |
| FloatToInt.F64ToUI64 | softfloat/f64_to_ui64.c:9-40 | the operand rounded to an integer, or invalid |
| FloatToInt.F64ToI32RMinMag | softfloat/f64_to_i32_r_minMag.c:8-49 | the operand truncated, or invalid; every NaN counts as positive |
| FloatToInt.F64ToUI32RMinMag | softfloat/f64_to_ui32_r_minMag.c:8-39 | the operand truncated, or invalid |
| FloatToInt.F64ToI64RMinMag | softfloat/f64_to_i64_r_minMag.c:8-51 | the operand truncated, or invalid; every NaN counts as positive |
| FloatToInt.F64ToUI64RMinMag | softfloat/f64_to_ui64_r_minMag.c:8-44 | the operand truncated, or invalid |
| FloatToInt.BothI32 | softfloat/f64_to_i32_r_minMag.c:24-47 | run side by side, the truncating and the general routine give the same result and flags if and only if the operand is no NaN with the sign bit set |
| FloatToInt.BothI64 | softfloat/f64_to_i64_r_minMag.c:23-49 | the same for signed 64-bit integers |
| FloatToInt.BothUI32 | softfloat/f64_to_ui32_r_minMag.c:20-37 | run side by side, the truncating and the general routine give the same result and flags on every operand |
| FloatToInt.BothUI64 | softfloat/f64_to_ui64_r_minMag.c:21-43 | the same for unsigned 64-bit integers |
| FloatToInt.NegativeNaN | softfloat/f64_to_i64_r_minMag.c:28-33 | a NaN on which the signed routines differ: least integer against greatest |
| RoundToInt.F64RoundToInt | softfloat/f64_roundToInt.c:9-79 | the encoding, with the operand's sign, of the operand rounded to an integer in the given mode; inexact only when asked for and due |
| RoundToInt.RoundBits | softfloat/f64_roundToInt.c:60-71 | adding and masking rounds a word to a multiple of 2^k in each mode |
| RoundToInt.RoundedEncoding | softfloat/f64_roundToInt.c:58-74 | rounding the whole encoding rounds the number, even where the tie bit is the exponent's low bit |
| RoundToInt.SmallRounded | softfloat/f64_roundToInt.c:29-57 | operands below one |
| RoundToInt.ThroughI64 | softfloat/f64_roundToInt.c:29-74 | whenever the rounded number fits, it is the number and the inexact flag that f64_to_i64 and i64_to_f64 give |
| RoundToInt.Idempotent | softfloat/f64_roundToInt.c:29-74 | rounding again, in any mode, changes nothing and is exact |
| Binary32.RoundedMagBounds32 | softfloat/s_roundPackToF32.c:57-59 | the delivered binary32 magnitude stands for the rounded real number |
| Binary32.JamRounds32 | softfloat/s_roundPackToF32.c:19-59 | a jammed significand with two more bits than the format rounds as the exact number |
| RoundPack32.RoundPackToF32 | softfloat/s_roundPackToF32.c:9-64 | sig*2^(exp-156) rounded once with exact flags over all ranges and modes |
| RoundPack32.UnroundedOutcome | softfloat/internals.h:91-95 | a significand that is not normalised, at exponent 0 and with nothing to round, is packed as the subnormal number it is |
| RoundPack32.NormRoundPackToF32 | softfloat/s_normRoundPackToF32.c:8-23 | the same for a significand that is not normalised |
| Operands32.NormSubnormalF32Sig | softfloat/s_normSubnormalF32Sig.c:7-17 | the normalised significand and exponent stand for the same number |
| Operands32.PropagateNaNF32UI | softfloat/s_propagateNaNF32UI.c:17-24 | the default NaN; invalid exactly for a signaling operand |
| Operands32.SignalingNaN32 | softfloat/specialize.h:61-62 | the bits tested are those of a NaN whose quiet bit is clear |
| Operands32.DefaultNaN32 | softfloat/specialize.h:55-55 | the NaN delivered has its sign bit, its exponent field and every fraction bit set, and is quiet |
| Mul32.F32Mul | softfloat/f32_mul.c:10-88 | a * b rounded once, exact flags, IEEE specials |
| EstimateSqrt.EstimateSqrt32 | softfloat/s_estimateSqrt32.c:6-36 | the estimate is less than two above and less than one below the root of the scaled radicand |
| EstimateSqrt.EvenSegment | softfloat/s_estimateSqrt32.c:12-15 | on each of the 16 even segments the table keeps the straight line close to the root |
| EstimateSqrt.OddSegment | softfloat/s_estimateSqrt32.c:8-11 | on each of the 16 odd segments the table keeps the straight line close to the root |
| EstimateSqrt.NearOne | softfloat/s_estimateSqrt32.c:29-32 | where the division is skipped the mean with one is as good |
| Sqrt32.F32Sqrt | softfloat/f32_sqrt.c:10-73 | the correctly rounded square root, exact flags, IEEE specials |
| Sqrt32.SpecialRoots | softfloat/f32_sqrt.c:27-41 | the zeros and plus infinity are their own roots, below zero there is none |
| Sqrt32.CorrectRoot | softfloat/f32_sqrt.c:55-61 | the loop ends at the integer root, with a sticky bit exactly when it is not exact |
| Sqrt32.UncorrectedPlace | softfloat/f32_sqrt.c:49-49 | skipping the correction never changes the rounding |
| Sqrt32.RootRounds | softfloat/f32_sqrt.c:46-65 | the stand-in used as specification rounds as the exact square root |
| Sqrt32.RootAbove | softfloat/f32_sqrt.c:46-65 | every number whose square is at most x rounds to at most the result |
| Sqrt32.RootBelow | softfloat/f32_sqrt.c:46-65 | every number whose square is at least x rounds to at least the result |
| Convert.F64ToF32 | softfloat/f64_to_f32.c:10-42 | the operand rounded once to binary32; subnormal operands, infinities and NaNs included |
| Convert.F32ToF64 | softfloat/f32_to_f64.c:9-46 | the same number, exactly, with its sign |
| Convert.WidenThenNarrow | softfloat/f64_to_f32.c:25-37 | widening and narrowing gives every finite operand back without a flag |
| Convert.MulThrough64 | softfloat/f32_mul.c:39-70 | f32_mul(a, b) has the bits and flags of f64_to_f32(f64_mul(f32_to_f64(a), f32_to_f64(b))) for all operands and modes |
| IntToFloat.UI64ToF64 | softfloat/ui64_to_f64.c:8-24 | the integer rounded once |
| IntToFloat.I64ToF64 | softfloat/i64_to_f64.c:8-20 | the integer rounded once, the most negative one included |
| IntToFloat.UI32ToF32 | softfloat/ui32_to_f32.c:8-24 | the integer rounded once |
| IntToFloat.I32ToF32 | softfloat/i32_to_f32.c:8-20 | the integer rounded once, the most negative one included |
| IntToFloat.IntThrough64 | machine/fp_emulation.c:202-227 | below 2^32 in magnitude the way through binary64 rounds once |
| IntToFloat.IntegerToF64 | machine/fp_emulation.c:199-224 | the binary64 number with the sign set afterwards is the integer, exactly |
| IntToFloat.FcvtSingle | machine/fp_emulation.c:202-227 | the emulated FCVT.S.W and FCVT.S.WU give the bits and flags of i32_to_f32 and ui32_to_f32 |
| FdtStrings.StringListIndex | machine/fdt.c:129-140 | the index of the first string equal to the given one, or -1 |
| FdtStrings.ListIndexFinds | machine/fdt.c:129-140 | on a list of NUL-terminated strings: found exactly if it is there, and the first one |
| FdtStrings.ListIndexMeaning | machine/fdt.c:129-140 | however a value is written as NUL-terminated strings, an index is found if and only if the string is one of them |
| FdtTree.WordOfBytes | machine/fdt.c:9-14 | a word is the big-endian number of its bytes |
| FdtTree.PaddedValue | machine/fdt.c:60-60 | a property's value takes the fewest words that hold its bytes |
| FdtTree.ValueWords | machine/fdt.c:131-132 | the bytes of a value are as many as its length says and stand in its words in order |
| FdtTree.ReadsEncode | machine/fdt.h:22-26 | the words encoded are exactly those that read as the tokens 1, 2, 3, 4 of section 5.4.1 of the Devicetree Specification |
| FdtTree.ListsMeaning | machine/fdt.c:511-518 | a property lists the string if and only if its name is spelled compatible and the string is among the strings of its value |
| FdtTree.PruneMeaning | machine/fdt.c:511-532 | pruning removes exactly the nodes with such a property, and all below them |
| FdtTree.TraceIsPreorder | machine/fdt.c:46-86 | the callbacks are open, all properties, done once before any subnode, the subnodes, close, wherever the NOPs are |
| FdtTree.FilteredPrunes | machine/fdt.c:505-532 | what the depth and kill counters decide is to remove the maximal subtrees whose root lists the string |
| FdtTree.DeepNodeRemoved | machine/fdt.c:520-529 | a node left at depth 999 is overwritten: the words are not those of the pruned tree |
| FdtTree.FilterExactly | machine/fdt.c:518-532 | the words left are those of the pruned tree if and only if less than 999 levels are to be left |
| FdtTree.DeepNestDamaged | machine/fdt.c:518-532 | a well-formed block in which nothing lists anything and which filtering changes |
| FdtTree.PrunedMeaning | machine/fdt.c:72-74 | the words after filtering are well formed and stand for the pruned tree |
| FdtTree.PrunedWords | machine/fdt.c:72-74 | every word outside the removed subtrees is unchanged and every word inside is a NOP |
| FdtTree.PruneTwice | machine/fdt.c:534-551 | filtering twice is filtering once |
| FdtTree.PrunedHasNone | machine/fdt.c:534-551 | no node that lists the string is left |
| FdtScan.ScanHelper | machine/fdt.c:30-87 | on any encoded level it ends one past the closing token, makes exactly the calls of the trace, and rewrites only removed subnodes |
| FdtScan.ScanNode | machine/fdt.c:63-76 | one subnode: opened, scanned, closed, overwritten if the callback says so |
| FdtScan.ScanBody | machine/fdt.c:66-72 | its first half: opened under its own name, and scanned |
| FdtScan.NameLength | machine/fdt.c:71-71 | strlen(name)/4 steps over exactly the words of the name |
| FdtScan.FillNops | machine/fdt.c:74-74 | overwrites exactly the given range |
| FdtScan.Scan | machine/fdt.c:89-101 | a plain scan changes nothing and walks the tree in preorder |
| FdtScan.ScanByNumerals | machine/fdt.c:46-86 | a block that reads by the numerals of the tokens is scanned in preorder |
| FdtScan.ScanSmallBlock | machine/fdt.c:46-86 | the calls made on one block given word by word, with all five tokens and padded properties |
| FdtScan.FilterCompat | machine/fdt.c:534-551 | the array afterwards, word for word; it holds the pruned tree if and only if less than 999 levels are to be left |
| FdtScan.FilterThenScan | machine/fdt.c:534-551 | scanning again walks the original tree without the subtrees whose root has a property named compatible with the string in its list |
| FdtScan.FilterTwice | machine/fdt.c:534-551 | a second filtering leaves the array as the first did |
| FdtScan.CompatScan.Prop | machine/fdt.c:511-518 | kill becomes the depth of the outermost node that lists the string |
| FdtScan.CompatScan.Close | machine/fdt.c:520-529 | a node is deleted exactly when it is the marked one |
| Ipi.StepInv | machine/mtrap.c:89-154 | every step of every hart keeps: pending is what was sent since the last swap, pending events are covered, nothing sent is lost |
| Ipi.StepCovered | machine/mtrap.c:144-153 | a nonzero pending word always has its doorbell rung, a sender about to ring it, a handler about to swap, or a waiting hart that will restore it |
| Ipi.StepAccounted | machine/mentry.S:69-91 | every event sent is pending, in the handler's hands, or performed |
| Ipi.RunInv | machine/mtrap.c:89-154 | all of this in every state of every interleaving |
| Ipi.QuietMeansDone | machine/mentry.S:69-91 | when all harts are out of machine mode and no doorbell is rung, every event ever sent has been performed |
| Ipi.CallContract | machine/mtrap.c:126-154 | in every run a call sends its event once to every enabled hart of its mask and to nobody else, and, unless it is a software interrupt, returns only after every doorbell of its mask could be seen clear since its last send |
| Ipi.CallCarriedOut | machine/mtrap.c:126-154 | from any reachable state, after a call and a bounded number of fair rounds every enabled hart of the mask has performed the event, and all harts are back below machine mode |
| Ipi.RunSound | machine/mentry.S:76-91 | in every run each batch of events performed is exactly one batch taken, and none is performed twice |
| Ipi.SinceTakenMeaning | machine/mentry.S:76-77 | the events taken are those sent to the hart and not taken since |
| Ipi.DoorbellClears | machine/mtrap.c:142-147 | within a bounded number of a hart's own steps there is a moment at which its doorbell is clear, whatever the others do |
| Ipi.SomeoneMoving | machine/mtrap.c:142-147 | the waiting harts never block each other: unless all is quiet some hart is not held up |
| Ipi.AdvancePotential | machine/mtrap.c:126-154 | no step adds to the work left, restoring and ringing doorbells included, and a hart that is not held up lowers it |
| Ipi.EveryCallReturns | machine/mtrap.c:126-154 | from any state, without new calls every hart is out of machine mode with its doorbell clear after a bounded number of fair rounds |
| Ipi.EveryEventPerformed | machine/mentry.S:69-91 | from any reachable state, after those rounds every event ever sent has been performed |

## Left out

- f64_sqrt (`softfloat/f64_sqrt.c`): its correction loop differs from the binary32 one and is not claimed to round correctly.
- The remaining binary32 operations (`f32_rem`, `f32_div`, `f32_add`, `softfloat_mulAddF32`, `f32_to_*`): they repeat the binary64 arguments with other constants.
- The remaining comparisons, classify, sign injection and `softfloat/8086`: short case splits.
- Rounding-mode values 5 to 7: a static one is rejected, but with a dynamic rounding mode the frm field of fcsr is passed on unchecked (`machine/fp_emulation.h:43-48`, `machine/fp_emulation.h:64-69`), and round-and-pack then rounds away from zero; the model has the five modes of the standard.
- `x | (y != 0)` and other sticky bits are written as `OrBit`, and `hi<<32 | lo` of words without common bits as a sum; `Words.OrDisjoint` states why that is the same.
- The exception flags are a record of five fields, not the bits 1 to 16 of a word.
- `softfloat_countLeadingZeros8`: the table is modelled by its thresholds, not as 256 entries.
- MulAdd64.MulAddF64: the special-operand tests are merged where they lead to the same exit.
- Words.ShortShift128LeftExact: does not model the count 0 of `softfloat/s_shortShift128Left.c`; the function itself allows it for a zero low word, the only way it is reached.
- IntToFloat.IntegerToF64: only the 32-bit operand types of the switch; the 64-bit ones round a magnitude before its sign is set.
- IntToFloat.FcvtSingle: only the 32-bit operand types of `emulate_fcvt_fi`, and not the decoding of the instruction.
- FdtScan.ScanHelper: does not model the cell counts of a node (`machine/fdt.c:40-43`, `machine/fdt.c:57-58`); words are taken as the big-endian numbers that bswap reads; malformed blocks are outside its precondition.
- FdtScan.Scan: does not model the header check of fdt_scan; only the walk of the structure block.
- FdtStrings.StringListIndex: the end of the value ends its last string; the source reads on until a NUL when a value is not terminated.
- FdtScan.CompatScan: the log of callbacks is part of the model; a done callback is logged although filter_compat installs none.
- Ipi: memory accesses are sequentially consistent, which is what the fences are for; hart_mask and the user's mask are one set per call; timer interrupts and other machine calls are not modelled.
- Ipi: the handler's swap is the atomic one; for the plain load and store that `machine/mentry.S:78-81` uses without the atomic extension nothing is claimed.
- Ipi.EveryCallReturns: not stated is that the events are handled when send_ipi_many returns, which the source does not promise either; and while new calls keep coming a sender may miss every moment at which a doorbell is clear.
- HTIF, UART, CSR access, the other device-tree queries and filters, and the instruction decoders.
