# Verified big-integer arithmetic

A Dafny model of the arbitrary-precision arithmetic of vhdlstuff, in its two independent
implementations, with proofs that every operation computes what it stands for.

**`src/bigint`.** `BigUnsigned.dfy` is the little-endian block array `bigunsigned` with the
memory management of `number_like_array`; its methods are the block loops of the C++ code, with
wrap-around arithmetic on blocks of an arbitrary width of at least 16 bits. `BigInteger.dfy` is
the sign-and-magnitude `biginteger` with flooring division, `Algorithms.dfy` holds gcd, extended
Euclid, modular inverse and modular power, `InABase.dfy` and `Utils.dfy` the digits in a base and
the string conversions.

**`fmt::detail::bigint` and the fixed-digit branch of `format_dragon`.** `FmtBigint.dfy` is the
32-bit-bigit number with a block exponent, in 64-bit arithmetic, and `FormatDragon.dfy` the digit
generator on top of it.

The other files are the mathematics: `Arithmetic.dfy` (powers, division), `Positional.dfy` (the
number a digit sequence denotes), `Bits.dfy` (bitwise operators), `Blocks.dfy` and `Bigits.dfy`
(carries, borrows, shifts, the division invariant, convolution, numbers seen from the top) and
`Numerals.dfy` (digits and symbols).

## How the code is modelled

- Objects are classes with the same fields, updated in place. A C++ object owns its array, so two
  different objects never share one; `Apart` says so in the preconditions. Receivers, operands and
  outputs may otherwise be the same object wherever the C++ code allows it.
- A C++ exception is a result `thrown`; the contract says exactly when it is true and what the
  objects then hold.
- A parameter passed by value is a copy made at the start of the method.
- `new`, `delete` and reallocation are fresh Dafny arrays. The growable buffers of `fmt` are
  sequences held in a field.
- Long C++ functions are cut at their loops: each loop is a method of its own, named after the
  operation it belongs to (`AddShared`, `AddRipple`, `CopyTail` are the loops of `add`). What
  follows a check for aliased operands is a method too (`AddApart`).
- `index_t`, the `int` holding the bit length of a number, and the `int` exponents of
  `fmt::detail::bigint` do not overflow. The `int` quotient of `divmod_assign` can, and `DivModAssign`
  says exactly when.

## Where the code departs from its documentation

The model follows the code; each case has an exact condition and an example.

- `bigunsigned.h` promises that the top block is nonzero. Shifting zero left by N or more bits
  (or right by as much in the negative) leaves zero blocks (`BitShiftLeft`, `ShiftedZeroExample`).
- `algorithms.h` promises `(base ^ exponent) % modulus`. With exponent 0 and modulus 1 the result
  is 1 (`ModExp`, `ModExpExample`).
- `subtract_aligned` is said to compute `*this -= other` whenever `*this >= other`. Its borrow loop
  stays at one index, so a borrow that meets a zero bigit goes wrong (`SubtractAligned`,
  `SkippedBorrowExample`). No division whose quotient fits an `int` gets there (`OneMoreBigit`,
  `AtMostOneMore`), except of a zero as in the next item.
- `compare` goes by the number of bigits first and tells equal numbers apart by their exponents
  (`Bigits.Order`). Between normalized numbers it is wrong in two cases only (`CompareBigints`): a zero
  whose exponent lifts it above the other number comes out greater (`LiftedZeroExample`), and equal
  numbers of different exponents come out different (`EqualValuesExample`). So `divmod_assign`
  subtracts from such a zero until its `int` quotient overflows, and leaves a dividend that equals
  the divisor at a bigger exponent undivided (`DivModAssign`). `SetUp` shows that `format_dragon`
  produces neither.
- `add_compare` is said to compare `lhs1 + lhs2` with `rhs`. Its early exits go by the number of
  bigits, so lifted zeros mislead it as well (`Misled`, `AddCompare`).

## Model

| member | source | states |
|---|---|---|
| `BigUnsigneds.BigUnsigned.Allocate` | src/bigint/number_like_array.h:92-102 | room for the requested blocks is guaranteed, the length is kept, the array is the old one or a new one |
| `BigUnsigneds.BigUnsigned.AllocateAndCopy` | src/bigint/number_like_array.h:104-118 | the same, and every block below the length survives |
| `BigUnsigneds.BigUnsigned.Assign` | src/bigint/number_like_array.h:131-145 | exactly the blocks of the source object, also under self-assignment |
| `BigUnsigneds.BigUnsigned.Equals` | src/bigint/number_like_array.h:158-173 | block-wise equality of canonical numbers holds if and only if the values are equal |
| `BigUnsigneds.BigUnsigned.ZapLeadingZeros` | src/bigint/bigunsigned.h:33-37 | the result is canonical and the value unchanged |
| `Positional.ValInjective` | src/bigint/bigunsigned.h:14-16 | canonical block sequences are in one-to-one correspondence with numbers |
| `Blocks.BlockOfNumber` | src/bigint/bigunsigned.h:94-96 | block i, or 0 beyond the length, is the number divided by B^i modulo B |
| `BigUnsigneds.BigUnsigned.SetBlock` | src/bigint/bigunsigned.cpp:28-46 | the value moves by exactly (new - old) * B^i; growth and shrinking stay canonical |
| `BigUnsigneds.BigUnsigned.BitLength` | src/bigint/bigunsigned.cpp:51-63 | the least n with value < 2^n |
| `BigUnsigneds.BigUnsigned.GetBitMeaning` | src/bigint/bigunsigned.h:109-111 | the masked block test is bit bi of the whole number |
| `BigUnsigneds.BigUnsigned.SetBit` | src/bigint/bigunsigned.cpp:65-70 | bit bi becomes the new bit, every other bit stays, the value moves by +2^bi, -2^bi or 0, and the number stays canonical |
| `Bits.BitAndClears` | src/bigint/bigunsigned.cpp:67-68 | masking a word with the complement of one bit clears that bit and changes nothing else |
| `Bits.BitwiseMeaning` | src/bigint/bigunsigned.cpp:67-68 | the operators on words work bit by bit |
| `BigUnsigneds.BigUnsigned.CompareTo` | src/bigint/bigunsigned.cpp:73-94 | less, equal and greater exactly when the values are |
| `BigUnsigneds.BigUnsigned.Add` | src/bigint/bigunsigned.cpp:128-186 | the exact sum, canonical, under every aliasing of receiver and operands |
| `BigUnsigneds.BigUnsigned.AddShared` | src/bigint/bigunsigned.cpp:156-169 | the wrap-around test is the carry: the low blocks and the carry make the sum of the low parts |
| `Blocks.SumDone` | src/bigint/bigunsigned.cpp:179-185 | when the carry loop ends, the copied blocks, with one extra block exactly for a carry, are the canonical sum |
| `BigUnsigneds.BigUnsigned.Subtract` | src/bigint/bigunsigned.cpp:188-236 | throws if and only if a < b, else the exact difference, whatever the receiver held; says what a throw leaves in the receiver for each aliasing |
| `Blocks.DifferenceDone` | src/bigint/bigunsigned.cpp:218-235 | a borrow is left over exactly when x < y, otherwise the blocks are x - y |
| `Blocks.ShiftedBlockMeaning` | src/bigint/bigunsigned.cpp:296-301 | get_shifted_block is block x of num * 2^y, the or of its parts being a sum |
| `Blocks.ShiftedNumber` | src/bigint/bigunsigned.cpp:273-301 | all shifted blocks together denote num * 2^y |
| `BigUnsigneds.BigUnsigned.Multiply` | src/bigint/bigunsigned.cpp:303-372 | the exact product, canonical, under every aliasing; one trim is enough |
| `BigUnsigneds.BigUnsigned.AddShifted` | src/bigint/bigunsigned.cpp:347-366 | adds b << (i blocks, i2 bits) exactly, every access inside the product's blocks |
| `Blocks.SumOverflow` | src/bigint/bigunsigned.cpp:363-366 | a carry past the last block would mean a sum of at least B^len, which the product bound excludes |
| `Blocks.MultiplyFits` | src/bigint/bigunsigned.cpp:311-367 | the running sum of partial products never exceeds the blocks set aside for it |
| `Blocks.ProductBounds` | src/bigint/bigunsigned.cpp:322-371 | a product fits a.len + b.len blocks and needs at least one less |
| `BigUnsigneds.BigUnsigned.DivideWithRemainder` | src/bigint/bigunsigned.cpp:385-542 | a == q*b + r and r < b for b != 0, q == 0 and a unchanged for b == 0, both canonical, for every aliasing of b; throws exactly when quotient and remainder share an object |
| `BigUnsigneds.BigUnsigned.TrySubtract` | src/bigint/bigunsigned.cpp:490-531 | the trial subtraction succeeds if and only if the remainder is at least b << (i blocks, i2 bits); a failed one changes nothing |
| `BigUnsigneds.BigUnsigned.DivideBit` | src/bigint/bigunsigned.cpp:488-532 | one quotient bit: quotient * b + remainder is kept and the remainder drops below the smaller shift |
| `Blocks.BelowStep` | src/bigint/bigunsigned.cpp:430-452 | the nested-loop invariant: below twice a multiple, one trial subtraction leaves a remainder below the multiple |
| `Blocks.BelowTop` | src/bigint/bigunsigned.cpp:453-468 | the invariant keeps the extra top block zero, so the borrow loop may stop short of it |
| `Blocks.QuotientTop` | src/bigint/bigunsigned.cpp:534-536 | the quotient has at most one leading zero block |
| `BigUnsigneds.BigUnsigned.BitShiftLeft` | src/bigint/bigunsigned.cpp:599-622 | a * 2^b, or floor(a / 2^-b) for negative b, throws exactly for the smallest int; canonical if and only if not (a == 0 and b >= N) |
| `BigUnsigneds.BigUnsigned.BitShiftRight` | src/bigint/bigunsigned.cpp:624-656 | floor(a / 2^b), or a * 2^-b for negative b, throws exactly for the smallest int; canonical if and only if not (a == 0 and -b >= N) |
| `Blocks.ShiftRightNumber` | src/bigint/bigunsigned.cpp:634-655 | dropping n blocks of the number shifted left by n*N - b bits is flooring division by 2^b, with at most one leading zero |
| `Blocks.ShiftedZeroExample` | src/bigint/bigunsigned.cpp:612-621 | shifting zero left by one block leaves a zero of length one |
| `BigUnsigneds.BigUnsigned.Increment` | src/bigint/bigunsigned.cpp:661-674 | value + 1, canonical, growing by a block exactly when all blocks roll over, that is when value + 1 is the next power of the base |
| `BigUnsigneds.BigUnsigned.Decrement` | src/bigint/bigunsigned.cpp:682-694 | value - 1, canonical after one trim, throws exactly on zero |
| `BigUnsigneds.BigUnsigned.ToUnsignedShort` | src/bigint/bigunsigned.h:390-405 | returns the value if it fits 16 bits and throws exactly otherwise |
| `BigUnsigneds.BigUnsigned.ModAssign` | src/bigint/bigunsigned.h:324-329 | the remainder, throws exactly for a zero divisor |
| `BigIntegers.BigInteger.FromSign` | src/bigint/biginteger.cpp:36-53 | refuses exactly a zero sign with a nonzero magnitude and gives zero the zero sign |
| `BigIntegers.BigInteger.CompareTo` | src/bigint/biginteger.cpp:139-158 | less, equal and greater exactly when the integers are, through signs and magnitudes |
| `BigIntegers.BigInteger.SignAndMagnitude` | src/bigint/biginteger.h:27-32 | the sign is the number's sign and the magnitude its absolute value |
| `BigIntegers.BigInteger.Add` | src/bigint/biginteger.cpp:173-205 | the exact signed sum, sign zero if and only if magnitude zero, under every aliasing |
| `BigIntegers.BigInteger.Subtract` | src/bigint/biginteger.cpp:207-245 | the exact signed difference, under every aliasing |
| `BigIntegers.BigInteger.Multiply` | src/bigint/biginteger.cpp:247-260 | the exact signed product, under every aliasing |
| `BigIntegers.BigInteger.Negate` | src/bigint/biginteger.cpp:366-372 | the opposite number, also in place |
| `BigIntegers.BigInteger.Increment` | src/bigint/biginteger.cpp:377-386 | value + 1 across the sign change |
| `BigIntegers.BigInteger.Decrement` | src/bigint/biginteger.cpp:394-403 | value - 1 across the sign change |
| `BigIntegers.BigInteger.DivideWithRemainder` | src/bigint/biginteger.cpp:284-363 | flooring division for all sign combinations and aliasings of b: x == y*q + r, the remainder on the divisor's side of zero |
| `BigIntegers.SignedDivision` | src/bigint/biginteger.cpp:310-354 | division of the magnitudes, with the remainder counted down from the next multiple when the signs differ, is flooring division of the signed numbers |
| `BigIntegers.BigInteger.DivideCorrected` | src/bigint/biginteger.cpp:312-351 | decrementing the dividend, incrementing the quotient and complementing the remainder make the dividend the quotient times the divisor less the remainder, still below the divisor |
| `BigIntegers.FlooredUnique` | src/bigint/biginteger.cpp:268-275 | only one quotient and remainder satisfy what the division promises |
| `BigIntegers.BigInteger.Times` | src/bigint/biginteger.h:158-162 | the exact product in a new object |
| `BigIntegers.BigInteger.Mod` | src/bigint/biginteger.h:170-176 | the flooring remainder in a new object, throws exactly for a zero divisor |
| `Algorithms.ComputeGcd` | src/bigint/algorithms.cpp:7-18 | the alternating in-place loop ends with the greatest common divisor |
| `Algorithms.GcdDivides` | src/bigint/algorithms.cpp:7-18 | the result divides both numbers |
| `Algorithms.GcdGreatest` | src/bigint/algorithms.cpp:7-18 | every common divisor divides the result |
| `Algorithms.GcdStep` | src/bigint/algorithms.cpp:33-43 | reducing one number by a multiple of the other keeps the gcd, whatever the signs |
| `Algorithms.BezoutStep` | src/bigint/algorithms.cpp:25-43 | one half of the loop keeps both row equations and the gcd and shrinks the number it reduces |
| `Algorithms.EuclidRound` | src/bigint/algorithms.cpp:28-44 | one round on the objects: a finished result, or the invariants with a smaller n |
| `Algorithms.ExtendedEuclidean` | src/bigint/algorithms.cpp:20-45 | r*m + s*n == g with |g| the gcd and g on n's side of zero (g == m for n == 0); throws exactly for shared outputs |
| `Algorithms.ModInv` | src/bigint/algorithms.cpp:47-55 | throws if and only if n == 0 or gcd(x, n) != 1, else a value below n with x * value congruent to 1 |
| `Algorithms.ModExp` | src/bigint/algorithms.cpp:57-74 | base^exponent mod modulus for every signed base if and only if not (exponent == 0 and modulus == 1); throws exactly for modulus 0 |
| `Algorithms.ModExpStep` | src/bigint/algorithms.cpp:62-72 | one round takes one more exponent bit into the power, modulo the modulus |
| `Algorithms.ModExpExample` | src/bigint/algorithms.cpp:59-73 | with exponent 0 and modulus 1 the remainder is 0, not the 1 that is returned |
| `InABase.BigUnsignedInABase.FromDigits` | src/bigint/bigunsigned_in_a_base.cpp:6-19 | throws exactly for a base below 2 or a digit that is too large, else denotes the digits, without leading zeros |
| `InABase.RoomForDigit` | src/bigint/bigunsigned_in_a_base.cpp:41-59 | while anything is left of x, the digit index is below the precomputed bound |
| `InABase.BigUnsignedInABase.FromUnsigned` | src/bigint/bigunsigned_in_a_base.cpp:35-63 | exactly the digits of x in the base, throws exactly for a base below 2 |
| `Numerals.DigitsOfCorrect` | src/bigint/bigunsigned_in_a_base.cpp:51-62 | these digits are below the base, have a nonzero top and denote x |
| `InABase.BigUnsignedInABase.ToUnsigned` | src/bigint/bigunsigned_in_a_base.cpp:65-74 | Horner's rule returns the number the digits denote |
| `InABase.BigUnsignedInABase.FromString` | src/bigint/bigunsigned_in_a_base.cpp:76-106 | throws exactly for a base over 36 or a character that is no symbol of a digit below the base in either case, else denotes the numeral |
| `InABase.ReadSymbol` | src/bigint/bigunsigned_in_a_base.cpp:93-100 | the digit of a symbol, or none |
| `Numerals.DigitTables` | src/bigint/bigunsigned_in_a_base.cpp:93-98 | the symbols 0-9, A-Z and 0-9, a-z are read as the digits 0 to 35 |
| `Numerals.DigitOfStands` | src/bigint/bigunsigned_in_a_base.cpp:93-100 | nothing else is read as a digit |
| `Numerals.ValidNumeralMeaning` | src/bigint/bigunsigned_in_a_base.cpp:93-103 | a numeral consists of symbols of digits below the base |
| `Numerals.ParsedHorner` | src/bigint/bigunsigned_in_a_base.cpp:90-105 | one more symbol multiplies the number by the base and adds its digit; no symbol is zero |
| `Numerals.EitherCase` | src/bigint/bigunsigned_in_a_base.cpp:95-98 | spellings that differ in case only are valid together and denote the same number |
| `InABase.BigUnsignedInABase.ToStdString` | src/bigint/bigunsigned_in_a_base.cpp:108-128 | the canonical numeral, "0" for zero, throws exactly for a base over 36 |
| `Numerals.SymbolTable` | src/bigint/bigunsigned_in_a_base.cpp:120-123 | digits are printed as 0-9, A-Z |
| `Numerals.PrintedSymbols` | src/bigint/bigunsigned_in_a_base.cpp:108-128 | a printed number has as many symbols as digits (one for zero), and symbol i from the left is that of v / base^(n-1-i) modulo the base |
| `Numerals.PrintedParses` | src/bigint/utils.cpp:8-23 | reading a printed number gives it back, in every base from 2 to 36 |
| `Numerals.ParsedPrints` | src/bigint/bigunsigned_in_a_base.cpp:76-128 | printing a parsed numeral gives it in upper case without leading zeros, "0" if nothing remains |
| `Numerals.PrintedIntParses` | src/bigint/utils.cpp:13-31 | the same round trip for signed numbers |
| `Numerals.SignedNumerals` | src/bigint/utils.cpp:25-31 | for every numeral t, "+" and t as well as t alone read as its number, "-" and t as the opposite |
| `Numerals.ParsedIntPrints` | src/bigint/utils.cpp:13-31 | printing a parsed signed numeral gives the normalized one, with "-" exactly for negative numbers |
| `Numerals.PrintedIntSign` | src/bigint/utils.cpp:13-18 | a printed number is an unsigned numeral of it, or "-" and one of its opposite if it is negative |
| `Utils.UnsignedToString` | src/bigint/utils.cpp:8-11 | the numeral of the number, throws exactly outside bases 2 to 36 |
| `Utils.IntegerToString` | src/bigint/utils.cpp:13-18 | the numeral of the absolute value, after "-" exactly for negative numbers |
| `Utils.ToUnsigned` | src/bigint/utils.cpp:20-23 | throws exactly when the string is no numeral of the base, else the number |
| `Utils.ToInteger` | src/bigint/utils.cpp:25-31 | "-" and a numeral give the opposite of its number, "+" and a numeral or a numeral alone its number; throws exactly for a base over 36 or anything else |
| `Utils.PrintThenParse` | src/bigint/utils.cpp:13-31 | the two methods composed are the identity |
| `Utils.ParseThenPrint` | src/bigint/utils.cpp:8-23 | the two methods composed normalize a numeral |
| `FmtBigints.Accumulator.Add` | src/fmt/format-inl.h:360-363 | exact 128-bit addition in two halves as long as the sum fits |
| `FmtBigints.Accumulator.ShiftRight32` | src/fmt/format-inl.h:364-369 | the two-half shift is flooring division by 2^32 |
| `Bigits.WrappedDifference` | src/fmt/format-inl.h:393-397 | the top bit of the wrapped 64-bit difference is the borrow |
| `FmtBigints.Bigint.RemoveLeadingZeros` | src/fmt/format-inl.h:399-403 | no leading zeros but the one of zero itself, number unchanged |
| `FmtBigints.Bigint.SubtractAligned` | src/fmt/format-inl.h:406-415 | for every subtrahend that is aligned and does not compare as greater, as the code asserts: the exact difference if and only if no borrow meets a zero bigit just above the subtrahend; otherwise too large by (2^32 - 1) at that position |
| `Bigits.OneMoreBigit` | src/fmt/format-inl.h:406-415 | with at most one bigit more than the subtrahend, the borrow loop cannot meet a zero bigit |
| `Bigits.SkippedBorrowExample` | src/fmt/format-inl.h:413 | subtracting 1 from 2^64 meets it |
| `FmtBigints.Bigint.Multiply32` | src/fmt/format-inl.h:417-426 | the exact product, top bigit kept nonzero |
| `Bigits.Fits64` | src/fmt/format-inl.h:434-439 | neither the 64-bit product nor the double-bigit carry overflows, the bound 2^64 - 1 being met exactly |
| `FmtBigints.Bigint.Multiply64` | src/fmt/format-inl.h:428-443 | the exact product with a 64-bit factor, including the pushed carry bigits |
| `FmtBigints.Bigint.Assign` | src/fmt/format-inl.h:463-471 | exactly the 64-bit value, normalized |
| `FmtBigints.Bigint.ShiftLeft` | src/fmt/format-inl.h:477-490 | the value times 2^shift, normalized |
| `FmtBigints.CompareBigints` | src/fmt/format-inl.h:498-512 | for all numbers the order by bigit count, value and exponent; for all normalized numbers the sign of the difference if and only if neither is a zero lifted above the other, and exponents agree or values differ; -1, 0 and 1 mean less, equal and greater |
| `FmtBigints.OrderOfDividend` | src/fmt/format-inl.h:498-512 | against a nonzero divisor, smaller if and only if not a lifted zero, and below it or equal at a bigger exponent |
| `Bigits.LiftedZeroExample` | src/fmt/format-inl.h:499-501 | zero shifted left by 32 bits compares as greater than one |
| `Bigits.EqualValuesExample` | src/fmt/format-inl.h:510 | two equal numbers of different exponents, which compare as unequal |
| `FmtBigints.AddCompare` | src/fmt/format-inl.h:514-536 | for all normalized numbers and exponents, the sign of lhs1 + lhs2 - rhs if and only if no lifted zero misleads the length early-outs: a zero right side lifted well above the left, or a zero left operand lifted above a right side the other operand does not exceed; never for nonzero operands |
| `FmtBigints.HiSumDecides` | src/fmt/format-inl.h:515-535 | a high part that is more, or at least two less, decides the comparison |
| `FmtBigints.SumBelow` | src/fmt/format-inl.h:519 | two numbers ending two bigits below the top of a third add up to less |
| `FmtBigints.Bigint.AssignPow10` | src/fmt/format-inl.h:538-556 | exactly 10^exp for every 0 <= exp < 2^30, the bit mask staying within int |
| `FmtBigints.Bigint.Pow5Step` | src/fmt/format-inl.h:551-553 | squaring, and multiplying by 5 for a set bit, takes one more bit of the exponent into the power of 5 |
| `FmtBigints.PowerFits` | src/fmt/format-inl.h:550-554 | the powers of 5 stay far below the size at which squaring would overflow |
| `FmtBigints.Bigint.Square` | src/fmt/format-inl.h:558-585 | the exact square through its two convolution halves, normalized |
| `Bigits.ColumnsSquare` | src/fmt/format-inl.h:565-583 | the columns of cross products put together are the square |
| `Bigits.ColumnFits` | src/fmt/format-inl.h:564-582 | no column and its carry exceed 128 bits |
| `FmtBigints.Bigint.Align` | src/fmt/format-inl.h:589-598 | the same value at the smaller exponent |
| `FmtBigints.Bigint.DivModAssign` | src/fmt/format-inl.h:602-613 | the int quotient overflows if and only if the dividend is a lifted zero or at least 2^31 times the divisor; otherwise quotient * divisor + remainder is the dividend, and the remainder is below the divisor if and only if not (exponent bigger and values equal) |
| `FmtBigints.Bigint.SubtractOnce` | src/fmt/format-inl.h:608-611 | one round: never takes off more than the divisor, exactly the divisor from a dividend with at most one bigit more, and leaves at least 2^31 divisors of a lifted zero |
| `FmtBigints.AtMostOneMore` | src/fmt/format-inl.h:602-613 | a dividend whose quotient fits an int has at most one bigit more than the divisor |
| `FormatDragon.RoundsToNearest` | src/fmt/format-inl.h:2312-2314 | the rounding specification: no integer is nearer, ties go to the even one |
| `FormatDragon.DecimalHorner` | src/fmt/format-inl.h:2309 | digit d is the character "0123456789"[d], and appending it takes the integer to ten times itself plus d |
| `FormatDragon.DecimalAt` | src/fmt/format-inl.h:2309 | each character of a digit string is that of the integer's decimal digit at its place |
| `FormatDragon.LeadingDigits` | src/fmt/format-inl.h:2307-2311 | the digits emitted and the numerator make up the scaled original numerator |
| `FormatDragon.CarryLoop` | src/fmt/format-inl.h:2318-2322 | moving the overflow digit left keeps the number; if it reaches the front, all the rest are zeros |
| `FormatDragon.FixedDigits` | src/fmt/format-inl.h:2298-2331 | exactly n digits denoting numerator*10^(n-1)/denominator rounded half to even, or 1 and zeros with exp10 one higher when that reaches 10^n |
| `FormatDragon.RoundedShows` | src/fmt/format-inl.h:2315-2331 | the result character by character: the decimal digits of the rounded integer, or 1 and zeros with the exponent one higher |
| `FormatDragon.RoundedValue` | src/fmt/format-inl.h:2315-2331 | in both cases the digits scaled by the raise of the exponent are the rounded integer |
| `FormatDragon.NoDigits` | src/fmt/format-inl.h:2300-2305 | for no digits, the rounding of numerator/(10*denominator) to 0 or 1 |
| `FormatDragon.ScaledMeaning` | src/fmt/format-inl.h:2267 | the fraction is f*2^e/10^exp10, each power in the numerator or the denominator by its sign |
| `FormatDragon.SetUp` | src/fmt/format-inl.h:2232-2266 | all three branches make numerator/denominator equal to f*2^e/10^exp10 and fit for exact digit division |
| `FormatDragon.PositiveExponentReady` | src/fmt/format-inl.h:2234-2245 | a numerator with the bigger exponent is divisible by a power of two that does not divide the denominator, so division never meets the equal-value case |
| `FormatDragon.FormatFixed` | src/fmt/format-inl.h:2220-2331 | the whole fixed-digit run: the buffer holds, character by character, the decimal digits of f*2^e correctly rounded |

## Left out

- bit_and, bit_or and bit_xor of `bigunsigned`: block-wise operators whose only loop invariant is the operator itself.
- Conversions to and from primitive integers other than those used here (a block, an unsigned short): they are casts.
- `data_to_big_integer` and the stream operators: dependent on C++ object layout and stream flags.
- The return-by-value and assignment operators that only wrap a modelled method; those the algorithms use are `Times`, `Mod` and `ModAssign`.
- Overflow of `index_t`, of the `int` bit length in the base conversion and of the `int` exponents: the model uses unbounded integers there.
- FmtBigints.Bigint.DivModAssign: the remainder when the `int` quotient overflows is not stated, because counting on is undefined there; the model stops and reports it. A zero divisor is excluded, as the code asserts.
- BigUnsigneds.BigUnsigned.BitShiftLeft: the wrap-around of `b << 1` for the smallest int is taken as the two's complement one.
- FormatDragon.SetUp: `lower` and `upper`, which only the shortest-representation branch reads, are not set up.
- FormatDragon.FormatFixed: that the caller's `exp10` is an estimate with value < 10^(exp10 + 1) is a precondition, because the estimate comes from floating-point code that is not part of this model.
- The shortest-representation branch of `format_dragon`, Dragonbox, Grisu and the power tables: they rest on literal tables and float bit layouts.
- The rest of the repository (language server, parsers, serialization, scripts): outside the arithmetic core.
