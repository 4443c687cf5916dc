# A verified model of the VM's integers, symbol table, hashed collections, sorting and space managers

The repository is a Smalltalk virtual machine with its kernel library, written in Smalltalk, Rust and Zig.
This project models the parts of it that do real algorithmic work, and proves that they do what they are
for. `dafny verify dfyconfig.toml` checks all of it.

| file | models |
|---|---|
| `Options.dfy` | optional values |
| `Bits.dfy`, `Digits.dfy` | two's-complement operations on unbounded integers; little-endian base-256 digit strings |
| `Arithmetic.dfy`, `Shifts.dfy`, `Division.dfy`, `Logic.dfy` | the digit arithmetic of ASTInteger |
| `Operands.dfy`, `Integers.dfy` | SmallIntegers as digit strings; `+`, `-`, `*`, `negated` and `=` of any two integers |
| `Quotients.dfy` | `//` and `rem:` on what `quo:` answers |
| `Radix.dfy`, `Powers.dfy`, `Reading.dfy` | printing integers in a radix, raising to a power, and reading numbers |
| `Treap.dfy`, `TreapProtocol.dfy` | the index-stable treap behind interning, and threads sharing it under a reader-writer lock |
| `Probing.dfy`, `HashSet.dfy`, `Dictionary.dfy` | open addressing with deletion by repair |
| `Arena.dfy` | the Zig arena that tiles spans with aligned power-of-two blocks |
| `Heap.dfy` | the Rust object header and the bump allocator |
| `MergeSort.dfy`, `OrderedCollection.dfy` | the two-buffer merge sort; the sliding-window deque |

Methods that update bytes, slots or fields in the source are methods on arrays and classes here. Each is
proved against a function on values (the number a digit string stands for, the set or map in a table, the
sequence in a deque), and what the source promises is then proved about those values.

Primitives follow one convention throughout. Those of SmallInteger succeed exactly for SmallIntegers with a
SmallInteger as result (`zig/zag/primitives/SmallInteger.zig:31-111`); those of large integers fail, so that the
Smalltalk code beside them runs. A SmallInteger that gets into that code shows its sign and four of its bytes.

## Where the code does less than it promises

The model follows the code. Where that departs from its comments, the exact condition is proved.

- **`negated`** (`ASTLargePositiveInteger.class.st:218-221`) is wrong for a large integer of value 2^30, and that of
  `minVal` is 2^30: `Integers.NegatedExactIff`.
- **Negative `normalize`** (`ASTLargeNegativeInteger.class.st:27-55`) still compares with the four bytes of 2^30
  and answers `minVal`, now -2^50, at magnitude 2^30. Everywhere else the value is kept: `Arithmetic.Normalize`
  with `Arithmetic.Normalized`.
- **Positive `normalize`** (`ASTLargePositiveInteger.class.st:231-250`) turns a value into a SmallInteger exactly
  below 2^48, although `maxVal` is 2^50 - 1.
- **`digitLogic:op:length:`** (`ASTInteger.class.st:441-485`) does not complement a zero byte of a negative result,
  and its last `normalize` fails at -2^30. `Logic.LogicExactIff` says exactly when the answer is right;
  `Logic.LogicFailsOnZeroBytes` and `Logic.LogicFailsAtGap` give cases.
- **SmallIntegers from 2^32 on** answer 0 for every byte beyond the fourth (`ASTSmallInteger.class.st:238-251`), and
  `minVal` shows the bytes of 2^30. Whatever falls back on bytes loses the rest:
  - **`+`, `-` and `*`** (`ASTSmallInteger.class.st:32-67`, `ASTInteger.class.st:49-79`) from results of 2^50 on, or
    with a large integer: `Integers.Add`, `Integers.Subtract`, `Integers.Multiply`, `Integers.BytesAreLost`.
  - **Reading** (`ASTInteger.class.st:26-46`) therefore gives back what was printed up to 2^50 - 1 only:
    `Reading.ReadingUndoesPrintingIff`, `Reading.ReadingFailsAtTwoTo50`. With an exponent it depends on the products
    formed: `Reading.ScaledNumberIsRead`, `Reading.ScaledReadingFails`.
  - **`raisedToInteger:`** (`ASTNumber.class.st:334-348`) loses the powers that it forms in between:
    `Powers.RaisedToExactIff`, `Powers.PowerIsLost`.
  - **`quo:`, `//` and `rem:`** (`ASTInteger.class.st:671-685`) divide by a leading byte of zero, an error:
    `Division.DigitDiv`, `Quotients.FloorFailsForSmallDivisor`.
  - **`bitAnd:`, `bitOr:` and `bitXor:`** (`ASTInteger.class.st:209-277`) with such an argument, of either sign:
    `Logic.RightlyIff`, `Logic.LogicFailsOnUnseenBytes`, `Logic.LogicFailsOnHiddenNegative`,
    `Logic.TwoMistakesCancel`.
- **`bitShift:` to the right** (`ASTInteger.class.st:250-264`) is documented as arithmetic on two's complement but
  truncates the magnitude, and fails at -2^30: `Shifts.RightShiftRoundsDownIff`, `Shifts.RightShiftFailsAtGap`.
- **`digitRshift:bytes:lookfirst:`** (`ASTInteger.class.st:537-562`) takes over the n lowest bits of the byte above
  lookfirst, although it is to discard all digits beyond: `Shifts.DiscardsIff` says when it does,
  `Shifts.DiscardFails` gives a case.
- **`//` and `rem:`** (`ASTInteger.class.st:96-108`, `ASTNumber.class.st:361-366`) go on computing with what `quo:`
  answered, normalised and perhaps not shown whole: `Quotients.FloorExactIff`, `Quotients.RemainderExactIff`,
  `Quotients.FloorFailsAtGap`, `Quotients.FloorFailsForEvenDivision`, `Quotients.RemainderFailsForUnseenQuotient`.
- **SmallInteger `printOn:base:`** (`ASTSmallInteger.class.st:325-347`) has room for 32 digits; base 2 overflows it
  from 2^32 on, and `minVal` prints as -2^30: `Radix.PrintSmall`, `Radix.SmallBufferSuffices`.
- **Large `printOn:base:`** (`ASTInteger.class.st:637-668`) uses a receiver of one byte as its work space and
  leaves it zero: `Radix.PrintLargeDigits`.
- **`words()`** (`object.rs:606-618`) reads the length of a long packed array from field 32767, where nothing was
  stored, and `size()` takes that length, a count of items, for a count of words. 16-bit overflow of the named
  fields and weak objects with a negative count do not read back either: `Heap.WordsReadBackIff`,
  `Heap.SizeReadsBackIff`, `Heap.WordsFailForLongBytes`, `Heap.SizeFailsForLongBytes`.
- **A refused allocation** (`memory.rs:43-54`) has written header and length word before it is refused; the length
  word may lie beyond the region: `Heap.AllocInsideIff`.
- **`freeToList`** (`arenas.zig:155-165`) fails on an empty span, so `rawAlloc` fails for a request that gets exactly
  the words it asks for: `Arenas.GlobalArena.RawAlloc`, `Arenas.GlobalArena.ExactFitIff`, `Arenas.SecondRequestFits`.
- **The repair of dictionaries** (`ASTSet.class.st:120-135` with `ASTDictionary.class.st:137-146`) takes an association
  with a nil key for an empty slot and stops. `Probing.Loses` tells from the table before a removal whether that
  leaves a key out of reach: `Dictionaries.Dictionary.RemoveKey`, `Probing.NilKeyStopsRepair`.
- **`at`** (`treap.rs:203-212`) panics under the write lock for an index beyond the presets when it comes first, and
  that poisons the table for good: `TreapProtocol.PoisonReachableIff`.

## Model

| member | source | states |
|---|---|---|
| `Division.DigitDiv` | Smalltalk/ASTKernel-Numeric/ASTInteger.class.st:359-438 | long division is exact for every receiver without leading zeros and every divisor, SmallIntegers included: the quotient of the magnitudes with sign ng, and their remainder with the receiver's sign; division by zero exactly for a zero divisor, and for a SmallInteger from 2^32 on with no more bytes than the receiver |
| `Division.FirstStepFails` | Smalltalk/ASTKernel-Numeric/ASTInteger.class.st:376-390 | the leading byte of such a SmallInteger reads as zero, and the first step of the loop divides by it |
| `Division.DivideLoop` | Smalltalk/ASTKernel-Numeric/ASTInteger.class.st:381-432 | quotient digits l-1 down to 0 leave old rem = quo * div + rem with 0 <= rem < div |
| `Division.DivideStep` | Smalltalk/ASTKernel-Numeric/ASTInteger.class.st:381-432 | one digit q: rem loses exactly q * div * 256^p, the new remainder is below div * 256^p, and the digit fits a byte, with one add-back at most |
| `Division.EstimateDigit` | Smalltalk/ASTKernel-Numeric/ASTInteger.class.st:382-409 | the nibble-wise quotients with the loop that lowers hi answer 255 if the leading digits agree, else the quotient of the leading three digits by the leading two, in at most two corrections |
| `Division.NibbleQuotient` | Smalltalk/ASTKernel-Numeric/ASTInteger.class.st:385-390 | two divisions by the leading divisor digit, high nibble then low, are the division of the two leading digits, each nibble below 16 |
| `Division.TrialDigitIsTight` | Smalltalk/ASTKernel-Numeric/ASTInteger.class.st:382-409 | with a leading divisor digit of at least 128 the trial digit, the unrefined 255 of agreeing leading digits included, is exact or one too large |
| `Division.TightWhenLeadingDigitsAgree` | Smalltalk/ASTKernel-Numeric/ASTInteger.class.st:383-384 | 255 is at most one too large when the leading digits agree, although the refinement is skipped |
| `Division.SubtractMultiple` | Smalltalk/ASTKernel-Numeric/ASTInteger.class.st:414-422 | the interleaved nibble products and borrow subtract (qhi * 16 + qlo) * div at place l and touch no other digit |
| `Division.AddBack` | Smalltalk/ASTKernel-Numeric/ASTInteger.class.st:423-430 | the correction adds div back at place l |
| `Division.BorrowTells` | Smalltalk/ASTKernel-Numeric/ASTInteger.class.st:421-424 | the final borrow is negative exactly when the subtracted multiple exceeded the remainder |
| `Division.NormaliseOperands` | Smalltalk/ASTKernel-Numeric/ASTInteger.class.st:368-373 | the common left shift makes the leading divisor digit at least 128 and multiplies both operands by the same power of two |
| `Division.UnscaleDivision` | Smalltalk/ASTKernel-Numeric/ASTInteger.class.st:436-437 | quotient and right-shifted remainder of the shifted operands are those of the operands |
| `Division.Quo` | Smalltalk/ASTKernel-Numeric/ASTInteger.class.st:671-685 | quo: answers what normalize makes of the truncated quotient, of minVal that by 2^30; an error for zero, and for a SmallInteger other than minVal from 2^32 on with no more bytes than the receiver |
| `Integers.Add` | Smalltalk/ASTKernel-Numeric/ASTSmallInteger.class.st:46-56 | + of any two integers: exact if and only if both and the sum are SmallIntegers, or all their bytes are seen and the sum is not -2^30 |
| `Integers.Subtract` | Smalltalk/ASTKernel-Numeric/ASTSmallInteger.class.st:59-67 | - of any two integers, exact under the same condition on the difference |
| `Integers.Multiply` | Smalltalk/ASTKernel-Numeric/ASTSmallInteger.class.st:32-43 | * of any two integers, exact under the same condition on the product |
| `Integers.SumExactIff` | zig/zag/primitives/SmallInteger.zig:31-39 | when the primitive succeeds or the bytes suffice: the condition for + on values |
| `Integers.DifferenceExactIff` | Smalltalk/ASTKernel-Numeric/ASTInteger.class.st:70-79 | the condition for - |
| `Integers.ProductExactIff` | zig/zag/primitives/SmallInteger.zig:103-111 | the condition for * |
| `Integers.BytesAreLost` | Smalltalk/ASTKernel-Numeric/ASTSmallInteger.class.st:32-56 | 2^60 + 2^40 comes out as 2^60, and 2^49 * 10 as zero |
| `Integers.ProductOfSeen` | Smalltalk/ASTKernel-Numeric/ASTInteger.class.st:49-56 | a product that no primitive gives is what normalize makes of the product of the signed bytes shown |
| `Integers.SumOfSeen` | Smalltalk/ASTKernel-Numeric/ASTInteger.class.st:59-67 | so is a sum, with 256^length borrowed too much when the operand with more bytes shows less |
| `Integers.DifferenceOfSeen` | Smalltalk/ASTKernel-Numeric/ASTInteger.class.st:70-79 | and a difference |
| `Integers.Equal` | Smalltalk/ASTKernel-Numeric/ASTInteger.class.st:122-130 | = of two integers, one of them large, holds exactly if their values are equal and none is a SmallInteger from 2^32 on |
| `Integers.Negated` | Smalltalk/ASTKernel-Numeric/ASTLargePositiveInteger.class.st:218-221 | negated of any integer is its negative if and only if it is neither minVal nor a large integer of value 2^30; a large negative one keeps its bytes |
| `Integers.NegatedExactIff` | Smalltalk/ASTKernel-Numeric/ASTLargeNegativeInteger.class.st:15-17 | the condition on values, and what the two exceptions are answered: 2^30 and minVal |
| `Integers.ShownIsSeen` | Smalltalk/ASTKernel-Numeric/ASTSmallInteger.class.st:238-279 | sign, length and bytes of any integer, and that they have no leading zeros exactly if all bytes are seen |
| `Operands.SmallDigitsValue` | Smalltalk/ASTKernel-Numeric/ASTSmallInteger.class.st:238-279 | the bytes that a SmallInteger shows amount to its magnitude modulo 2^32, and to 2^30 for minVal |
| `Operands.AnswerShows` | Smalltalk/ASTKernel-Numeric/ASTLargeNegativeInteger.class.st:27-55 | sign and bytes of what normalize answers amount to the exact value, also at -2^30, where two mistakes cancel; bytes are missing exactly from 2^32 up to 2^48 |
| `Operands.AnswerEqualsIff` | Smalltalk/ASTKernel-Numeric/ASTInteger.class.st:122-130 | an answer equals a trimmed large integer exactly if their values are equal and the answer is not shown with leading zeros |
| `Quotients.FlooredFromTruncated` | Smalltalk/ASTKernel-Numeric/ASTInteger.class.st:96-108 | the quotient rounded down is the truncated one, less one for operands of opposite signs that do not divide |
| `Quotients.TruncatedDivision` | Smalltalk/ASTKernel-Numeric/ASTNumber.class.st:361-366 | the truncated quotient leaves a remainder smaller than the divisor and of the dividend's sign |
| `Quotients.QuoInteger` | Smalltalk/ASTKernel-Numeric/ASTInteger.class.st:671-685 | quo: of a large integer by any integer, on values |
| `Quotients.FloorQuo` | Smalltalk/ASTKernel-Numeric/ASTInteger.class.st:96-108 | what // answers for any divisor, SmallIntegers included, computed from what quo: answered, with the product and the comparison of the correction |
| `Quotients.FloorExactIff` | Smalltalk/ASTKernel-Numeric/ASTInteger.class.st:96-108 | // answers the quotient rounded down if and only if, for minVal, the dividend is above -2^30 and at most 2^30; for another SmallInteger from 2^32 on, the dividend has fewer bytes; for any other divisor, the right answer is not -2^30 and the division is not even with a negative quotient and a product that = does not recognize (-2^30, or a SmallInteger from 2^32 on) |
| `Quotients.FloorAnswer` | Smalltalk/ASTKernel-Numeric/ASTInteger.class.st:96-108 | what // answers, right or wrong, for a divisor seen whole: the quotient rounded down, less one for an even division that is not recognized, and -2^50 for -2^30 |
| `Quotients.FloorFailsAtGap` | Smalltalk/ASTKernel-Numeric/ASTInteger.class.st:96-108 | -2^31 // 2 should be -2^30 and comes out as -2^50 |
| `Quotients.FloorFailsBelowGap` | Smalltalk/ASTKernel-Numeric/ASTInteger.class.st:96-108 | so does -(2^31 - 1) // 2, whose quotient is right before one is subtracted |
| `Quotients.FloorFailsForSmallDivisor` | Smalltalk/ASTKernel-Numeric/ASTInteger.class.st:676-685 | 2^60 // 2^40 is an error |
| `Quotients.FloorFailsForEvenDivision` | Smalltalk/ASTKernel-Numeric/ASTInteger.class.st:96-108 | -2^40 // 2^20 comes out as -(2^20 + 1) |
| `Quotients.Remainder` | Smalltalk/ASTKernel-Numeric/ASTNumber.class.st:361-366 | what rem: answers for any divisor, computed from what quo: answered by * and - |
| `Quotients.RemainderExactIff` | Smalltalk/ASTKernel-Numeric/ASTNumber.class.st:361-366 | rem: answers the remainder of the truncated quotient if and only if, for minVal, by whose bytes 2^30 is divided, the dividend modulo 2^50 (a positive one below 2^48: modulo 2^32) is below 2^30 and a negative one has no quotient by 2^30 from 2^32 up to 2^48; for another SmallInteger from 2^32 on, the dividend has fewer bytes and is not -2^30; for any other divisor, the quotient is not from 2^32 up to 2^48, the product is not -2^30 or a SmallInteger from 2^32 on unless it is the dividend -2^30, and the remainder is not -2^30 |
| `Quotients.RemainderFailsForUnseenQuotient` | Smalltalk/ASTKernel-Numeric/ASTNumber.class.st:361-366 | 2^60 rem: 2^20 comes out as 2^60 |
| `Arithmetic.DigitCompare` | Smalltalk/ASTKernel-Numeric/ASTInteger.class.st:339-356 | 1, 0 or -1 exactly when the trimmed magnitude is larger, equal or smaller |
| `Arithmetic.DigitAdd` | Smalltalk/ASTKernel-Numeric/ASTInteger.class.st:323-336 | the value of the result is the sum, a carry digit is appended when needed, and trimmed operands give a trimmed sum |
| `Arithmetic.AddDigits` | Smalltalk/ASTKernel-Numeric/ASTInteger.class.st:326-331 | the carry loop: digits and final carry make up the sum, the accumulator stays within 0..511 |
| `Arithmetic.DigitSubtract` | Smalltalk/ASTKernel-Numeric/ASTInteger.class.st:565-589 | normalises the signed difference of the magnitudes, equal ones included; of a longer operand that is smaller, the difference modulo its length |
| `Arithmetic.DifferenceIsExact` | Smalltalk/ASTKernel-Numeric/ASTInteger.class.st:565-589 | that is the exact difference unless the longer operand is the smaller one |
| `Arithmetic.SubtractSmaller` | Smalltalk/ASTKernel-Numeric/ASTInteger.class.st:582-587 | the borrow loop subtracts the smaller operand from the lowest digits of the larger, exactly or with one borrow lost above them |
| `Arithmetic.DigitMultiply` | Smalltalk/ASTKernel-Numeric/ASTInteger.class.st:517-534 | the normalised product with the sign asked for, zero operands included |
| `Arithmetic.MultiplyRow` | Smalltalk/ASTKernel-Numeric/ASTInteger.class.st:523-532 | one row adds digit * arg * 256^i in place and writes its carry into a digit that was zero |
| `Arithmetic.Normalize` | Smalltalk/ASTKernel-Numeric/ASTLargePositiveInteger.class.st:231-250 | keeps the value of a non-negative integer and answers a SmallInteger exactly below 2^48; for a negative one the value changes exactly at magnitude 2^30 |
| `Arithmetic.HornerValue` | Smalltalk/ASTKernel-Numeric/ASTLargeNegativeInteger.class.st:40-42 | the loop that folds the digits from the top computes their value |
| `Digits.PlaceIsTimesPow2` | Smalltalk/ASTKernel-Numeric/ASTLargePositiveInteger.class.st:183-193 | byte i of a digit string weighs 2^(8 i) |
| `Arithmetic.GrowTo` | Smalltalk/ASTKernel-Numeric/ASTInteger.class.st:604-606 | a copy with zero digits on top, or cut to n digits |
| `Shifts.DigitLshift` | Smalltalk/ASTKernel-Numeric/ASTInteger.class.st:488-514 | multiplies by 2^n for every receiver, with the receiver's sign and no leading zero byte |
| `Shifts.LshiftDigits` | Smalltalk/ASTKernel-Numeric/ASTInteger.class.st:492-513 | a positive magnitude times 2^n in exactly the bytes its bits need, the last carry lost is zero |
| `Shifts.DigitRshift` | Smalltalk/ASTKernel-Numeric/ASTInteger.class.st:537-562 | for any arguments, what is visible of the magnitude (the bytes up to lookfirst and, unless the search skips the topmost, n bits above them) divided by 2^(8 b + n) rounding down, with leading zero bytes stripped; the digits beyond lookfirst are discarded, as the comment says, if and only if they are shifted out too, have no low bits to leave, or the search skips the byte below them |
| `Shifts.DiscardsIff` | Smalltalk/ASTKernel-Numeric/ASTInteger.class.st:537-562 | the condition on values |
| `Shifts.DiscardFails` | Smalltalk/ASTKernel-Numeric/ASTInteger.class.st:537-562 | 257 shifted right by one bit with lookfirst 1 gives 128, not 0 |
| `Shifts.VisibleIsAll` | Smalltalk/ASTKernel-Numeric/ASTInteger.class.st:537-562 | with nothing but zero bytes above lookfirst, as the callers arrange, the whole magnitude is visible |
| `Shifts.FirstSignificant` | Smalltalk/ASTKernel-Numeric/ASTInteger.class.st:545-551 | where the search for the highest byte that survives the shift stops, for any receiver |
| `Shifts.ShiftLoses` | Smalltalk/ASTKernel-Numeric/ASTInteger.class.st:554-560 | the receiver is the result shifted back plus exactly the low bits and bytes that were dropped |
| `Shifts.HighBit` | Smalltalk/ASTKernel-Numeric/ASTLargePositiveInteger.class.st:206-215 | highBit is the bit length of the magnitude, leading zero bytes or not |
| `Shifts.SmallHighBit` | Smalltalk/ASTKernel-Numeric/ASTSmallInteger.class.st:297-312 | the halving search finds the bit length |
| `Shifts.BitShift` | Smalltalk/ASTKernel-Numeric/ASTInteger.class.st:250-264 | left shifts multiply by 2^n, without leading zero bytes; right shifts answer what normalize makes of the magnitude divided by 2^n; that is the two's-complement shift if and only if the receiver is not negative, or no one bit is lost and the result is not -2^30 |
| `Shifts.RightShiftRoundsDownIff` | Smalltalk/ASTKernel-Numeric/ASTInteger.class.st:250-264 | the condition for right shifts on values, with the last normalize |
| `Shifts.RightShiftFailsAtGap` | Smalltalk/ASTKernel-Numeric/ASTInteger.class.st:250-264 | -2^31 shifted right by one loses no bit and comes out as -2^50 |
| `Shifts.ShiftForthAndBack` | Smalltalk/ASTKernel-Numeric/ASTInteger.class.st:250-264 | shifting what a left shift by k answered right by k gives the receiver back if and only if k is 0 or the receiver is not -2^30 |
| `Logic.LogicBytes` | Smalltalk/ASTKernel-Numeric/ASTInteger.class.st:441-484 | the loop stores the and, or or xor of the two's-complement bytes, complementing all but zero bytes of a negative result |
| `Logic.DigitLogic` | Smalltalk/ASTKernel-Numeric/ASTInteger.class.st:441-485 | and answers what normalize makes of them |
| `Logic.OpBytesPerform` | Smalltalk/ASTKernel-Numeric/ASTInteger.class.st:455-472 | the bytes combined one by one are the low bytes of the operation on the infinite expansions |
| `Logic.ExactResult` | Smalltalk/ASTKernel-Numeric/ASTInteger.class.st:441-485 | the exact result of the operation on the signed operands in terms of the combined bytes and the sign of the result |
| `Logic.LogicExactIff` | Smalltalk/ASTKernel-Numeric/ASTInteger.class.st:441-485 | of operands seen whole, what comes out after normalize is exact if and only if the result is not negative, or is not -2^30 and has no zero byte above the first non-zero one |
| `Logic.LogicAnswerOff` | Smalltalk/ASTKernel-Numeric/ASTInteger.class.st:441-485 | by how much a negative result is off before normalize: 255 times the weight of every zero byte above the first non-zero one, or 256^len if all bytes are zero |
| `Logic.LogicFailsOnZeroBytes` | Smalltalk/ASTKernel-Numeric/ASTInteger.class.st:441-485 | -(2^32 - 1) bitAnd: itself comes out as -255 |
| `Logic.LogicFailsAtGap` | Smalltalk/ASTKernel-Numeric/ASTInteger.class.st:441-485 | -(2^30 - 1) bitAnd: -(2^30 - 2) is -2^30 and comes out as -2^50 |
| `Logic.NegativeExactIff` | Smalltalk/ASTKernel-Numeric/ASTInteger.class.st:472-485 | for a negative result, which answer is right, byte by byte: up to the first non-zero byte the bytes combined from what the argument shows are those that should have been combined, above it the same holds of non-zero bytes, and a zero byte stands for 255; at -2^30 the answer is right when -2^50 is meant |
| `Logic.PlainExactIff` | Smalltalk/ASTKernel-Numeric/ASTSmallInteger.class.st:238-251 | for a SmallInteger argument, a result that is not negative is exact if and only if on the bits above those that it shows nothing but its sign matters, or it shows only zeros, the operation is bitAnd: and those bits have nothing in common |
| `Logic.RightlyIff` | Smalltalk/ASTKernel-Numeric/ASTInteger.class.st:441-485 | the two conditions together, for operands and arguments of any signs |
| `Logic.RightlyWhenSeen` | Smalltalk/ASTKernel-Numeric/ASTInteger.class.st:441-485 | for an argument seen whole they come down to the condition of LogicExactIff |
| `Logic.LogicFailsOnHiddenNegative` | Smalltalk/ASTKernel-Numeric/ASTSmallInteger.class.st:238-251 | 2^56 bitAnd: -2^32 comes out as zero |
| `Logic.TwoMistakesCancel` | Smalltalk/ASTKernel-Numeric/ASTLargeNegativeInteger.class.st:27-55 | -2^24 bitAnd: minVal is right, as normalize makes minVal of -2^30 |
| `Logic.LogicFailsOnUnseenBytes` | Smalltalk/ASTKernel-Numeric/ASTSmallInteger.class.st:238-251 | 2^48 + 2^40 bitAnd: 2^40 comes out as zero |
| `Logic.OperandByte` | Smalltalk/ASTKernel-Numeric/ASTInteger.class.st:456-463 | the complementing of an operand byte by byte with the z flag is two's complement |
| `Logic.LogicByte` | Smalltalk/ASTKernel-Numeric/ASTInteger.class.st:455-481 | one round of the loop with its three flags |
| `Logic.BitOperation` | Smalltalk/ASTKernel-Numeric/ASTInteger.class.st:209-277 | bitAnd:, bitOr: and bitXor: with any argument, normalised first, SmallIntegers included: what they answer, and that it is exact if and only if the conditions of RightlyIff hold |
| `Bits.PerformActsOnBits` | Smalltalk/ASTKernel-Numeric/ASTSmallInteger.class.st:180-236 | the operation acts on every bit of the two infinite expansions |
| `Bits.BitsDetermineInteger` | Smalltalk/ASTKernel-Numeric/ASTSmallInteger.class.st:180-236 | an integer is determined by its bits, so the bit-wise definition has one result |
| `Radix.PrintLarge` | Smalltalk/ASTKernel-Numeric/ASTInteger.class.st:637-668 | the text of an integer of either sign in any base from 2 to 36: a minus sign for a negative one only, the radix in decimal digits and an r for all bases but 10, and the digits |
| `Radix.PrintLargeDigits` | Smalltalk/ASTKernel-Numeric/ASTInteger.class.st:645-667 | repeated division of the bytes prints the numeral of the magnitude within 8 buffer slots a byte; a receiver of one byte is its own work space and is left zero |
| `Radix.PeelDigit` | Smalltalk/ASTKernel-Numeric/ASTInteger.class.st:653-664 | one round: quotient and remainder by the base, and the shrinking of the significant length by at most one |
| `Radix.DivideDigits` | Smalltalk/ASTKernel-Numeric/ASTInteger.class.st:653-659 | the byte-wise division loop, from the top, of the significant bytes by the base |
| `Radix.PrintSmallDigits` | Smalltalk/ASTKernel-Numeric/ASTSmallInteger.class.st:337-346 | the numeral, if and only if the value is below b^32, the capacity of the 32-slot buffer |
| `Radix.PrintDigits` | Smalltalk/ASTKernel-Numeric/ASTSmallInteger.class.st:337-346 | the loop succeeds exactly when the numeral has at most 32 digits, and then writes it |
| `Radix.PrintSmall` | Smalltalk/ASTKernel-Numeric/ASTSmallInteger.class.st:325-347 | the same text for a SmallInteger, if its digits fit the buffer; minVal prints as -2^30 |
| `Radix.TextSays` | Smalltalk/ASTKernel-Numeric/ASTInteger.class.st:637-668 | that text spells the number, and the radix, with the characters 0 to 9 and A to Z for the digits 0 to 35, without leading zeros |
| `Radix.OneTextSays` | Smalltalk/ASTKernel-Numeric/ASTInteger.class.st:637-668 | it is the only text that does |
| `Radix.TextHasCharacters` | Smalltalk/ASTKernel-Numeric/ASTInteger.class.st:644-646 | after the sign only decimal digits in base 10; in any other base one r between the radix and the digits |
| `Radix.SmallBufferSuffices` | Smalltalk/ASTKernel-Numeric/ASTSmallInteger.class.st:325-347 | the magnitude of every SmallInteger has its digits in the buffer in bases 3 to 36; in base 2 the limit is 2^32 |
| `Radix.NumeralFits` | Smalltalk/ASTKernel-Numeric/ASTSmallInteger.class.st:325-347 | a numeral has at most n + 1 digits exactly when the value is below b^(n + 1) |
| `Reading.ReadingUndoesPrintingIff` | Smalltalk/ASTKernel-Numeric/ASTNumber.class.st:9-33 | reading the printed text of an integer, in any base from 2 to 36, consumes all of it and gives the integer back if and only if its magnitude is at most 2^50 - 1; any other comes back closer to zero |
| `Reading.ReadingFailsAtTwoTo50` | Smalltalk/ASTKernel-Numeric/ASTInteger.class.st:34-42 | 1125899906842624, which is 2^50, is read as 2^32 |
| `Reading.NumberIsRead` | Smalltalk/ASTKernel-Numeric/ASTNumber.class.st:9-33 | a numeral with or without a radix, with a sign before either, is read as the integer it stands for if and only if that is at most 2^50 - 1 in magnitude, and what follows is left |
| `Reading.ScaledNumberIsRead` | Smalltalk/ASTKernel-Numeric/ASTNumber.class.st:54-78 | with an exponent k, m * b^k with its sign comes out if and only if m is zero, or m and k are SmallIntegers and no product formed on the way loses bytes |
| `Reading.SmallScaledExactly` | Smalltalk/ASTKernel-Numeric/ASTNumber.class.st:54-78 | so it does in every base as long as it is a SmallInteger |
| `Reading.DecimalScaledExactly` | Smalltalk/ASTKernel-Numeric/ASTNumber.class.st:54-78 | and in base 10 exactly if m and 10^k have a product that is a SmallInteger, or neither is a SmallInteger from 2^32 on |
| `Reading.ScaledReadingFails` | Smalltalk/ASTKernel-Numeric/ASTNumber.class.st:54-78 | 4294967296e6 is read as another integer |
| `Reading.NegativeExponentIsRead` | Smalltalk/ASTKernel-Numeric/ASTNumber.class.st:73-76 | a negative exponent is told apart from an integer |
| `Reading.FractionIsRead` | Smalltalk/ASTKernel-Numeric/ASTNumber.class.st:61-71 | and so is a fraction |
| `Reading.RadixIsInvalid` | Smalltalk/ASTKernel-Numeric/ASTNumber.class.st:22-24 | 0 and 1 are refused as a radix |
| `Reading.IntegerIsRead` | Smalltalk/ASTKernel-Numeric/ASTInteger.class.st:26-46 | readFrom:base: of a numeral with or without a minus sign, in any base from 2 to 36, gives the signed integer if and only if its magnitude is at most 2^50 - 1, and leaves what follows |
| `Reading.NothingIsRead` | Smalltalk/ASTKernel-Numeric/ASTInteger.class.st:26-46 | without a digit it answers zero and leaves the text |
| `Reading.DigitsBehind` | Smalltalk/ASTKernel-Numeric/ASTInteger.class.st:34-42 | whatever the digits, the value accumulated by * and + is a SmallInteger, and the exact one if and only if that is at most 2^50 - 1 |
| `Reading.ReadStream.ReadNumber` | Smalltalk/ASTKernel-Numeric/ASTNumber.class.st:9-33 | the stream code, from the sign on, reads the number that the text says, and leaves the rest of the text |
| `Reading.ReadStream.ReadUnsignedNumber` | Smalltalk/ASTKernel-Numeric/ASTNumber.class.st:17-33 | after the sign: an integer, or a radix |
| `Reading.ReadStream.ReadRadixNumber` | Smalltalk/ASTKernel-Numeric/ASTNumber.class.st:24-33 | after the radix: a second sign, and the integer in that base |
| `Reading.ReadStream.ReadRemainder` | Smalltalk/ASTKernel-Numeric/ASTNumber.class.st:54-78 | the rest: the sign is multiplied in, an exponent is applied by raisedToInteger:; a fraction or a negative exponent is told apart from an integer; a point that begins no fraction is left |
| `Reading.ReadStream.ReadInteger` | Smalltalk/ASTKernel-Numeric/ASTInteger.class.st:26-46 | an optional minus sign, then digits, negated by - |
| `Reading.ReadStream.ReadDigits` | Smalltalk/ASTKernel-Numeric/ASTInteger.class.st:34-42 | consumes exactly the longest prefix of digits of the base and accumulates it by * and + |
| `Reading.ReadStream.PeekFor` | Smalltalk/ASTKernel-Streams/ASTReadStream.class.st:78-86 | consumes the character if it is next |
| `Reading.DigitRoundTrip` | Smalltalk/ASTKernel-Numeric/ASTCharacter.class.st:152-161 | digitValue of the character for a digit gives the digit back |
| `Powers.RaisedTo` | Smalltalk/ASTKernel-Numeric/ASTNumber.class.st:334-348 | raisedToInteger: by squaring: b^e for a SmallInteger b from 2 up if and only if that is a SmallInteger, or none of the powers b^(2^k) and b^(e without its k lowest bits) formed on the way is a SmallInteger from 2^32 on |
| `Powers.RaisedToExactIff` | Smalltalk/ASTKernel-Numeric/ASTNumber.class.st:334-348 | the condition on values; otherwise the answer is less than b^e |
| `Powers.PowerFollows` | Smalltalk/ASTKernel-Numeric/ASTNumber.class.st:334-348 | exact if and only if every product formed is kept |
| `Powers.KeptIff` | Smalltalk/ASTKernel-Numeric/ASTNumber.class.st:334-348 | which is the condition on the powers |
| `Powers.KeptByTen` | Smalltalk/ASTKernel-Numeric/ASTNumber.class.st:334-348 | 10 raisedToInteger: is exact for every exponent that is not negative |
| `Powers.PowerIsLost` | Smalltalk/ASTKernel-Numeric/ASTNumber.class.st:334-348 | 2 raisedToInteger: 50 comes out as zero |
| `Treaps.PriorityInjective` | rust/src/treap.rs:48-50 | distinct slots have distinct priorities |
| `Treaps.SameSlotsSameShape` | rust/src/treap.rs:48-160 | two treaps over the same keys and slots are the same tree |
| `Treaps.CanonicalIsTreap` | rust/src/treap.rs:48-160 | the tree built recursively from the slot of highest priority is a treap over exactly the slots |
| `Treaps.TreapIsCanonical` | rust/src/treap.rs:48-160 | every treap is that tree |
| `Treaps.InsertedIsTreap` | rust/src/treap.rs:110-136 | insertion with rotations keeps strict key order and heap order and adds exactly the target slot |
| `Treaps.Treap.Insert` | rust/src/treap.rs:110-136 | the recursive insertion in the shared vector links up the inserted tree, changes no key and no slot outside the subtree, and fails without a change exactly for a key that is there |
| `Treaps.Treap.RightRotate` | rust/src/treap.rs:145-152 | relinks two slots so that the vector holds the rotated tree |
| `Treaps.Treap.LeftRotate` | rust/src/treap.rs:153-160 | the mirror image |
| `Treaps.Treap.Lookup` | rust/src/treap.rs:66-76 | the recursive search terminates and finds a slot of the subtree with the key, or none has it |
| `Treaps.Treap.LookupElement` | rust/src/treap.rs:63-65 | answers the slot of the key in the sequence of keys |
| `Treaps.Treap.At` | rust/src/treap.rs:60-62 | answers the key of a slot |
| `Treaps.Treap.EnsureInitialized` | rust/src/treap.rs:80-89 | inserts the presets not yet there in slot order; panics exactly if that is due and two presets are equal |
| `Treaps.Treap.InsertElement` | rust/src/treap.rs:90-109 | answers the slot of a known key, or appends the key in the next slot, after the presets |
| `Treaps.InternedAdds` | rust/src/treap.rs:90-109 | the slot answered holds the key, all slots keep theirs, and nothing but the presets and the key is added |
| `Treaps.Treap.FindFree` | rust/src/treap.rs:96-104 | the search for an empty slot from pos on |
| `Treaps.Treap.ShapeIsCanonical` | rust/src/treap.rs:90-160 | after any calls the tree in the vector is the canonical tree of all slots |
| `Treaps.Treap.constructor` | rust/src/treap.rs:52-59 | an empty treap |
| `TreapProtocol.StepKeepsInv` | rust/src/treap.rs:194-226 | every step of every thread keeps: distinct keys, presets all there or none, every returned answer still true; keys are only appended |
| `TreapProtocol.RunKeepsInv` | rust/src/treap.rs:194-226 | so in every run, a slot never changes its key |
| `TreapProtocol.InternIsInjective` | rust/src/treap.rs:214-225 | any two calls of intern that returned, at any times, were given equal slots exactly for equal keys |
| `TreapProtocol.AtAfterIntern` | rust/src/treap.rs:203-225 | once intern has answered a slot, every at of that slot that returns later, in any run, answers the key or finds the lock poisoned; it is never out of range |
| `TreapProtocol.AtUndoesIntern` | rust/src/treap.rs:203-225 | any key that at answers for an interned slot is the interned key, in whichever order the calls returned |
| `TreapProtocol.PoisonReachableIff` | rust/src/treap.rs:203-225 | the lock gets poisoned in some run if and only if there are presets |
| `TreapProtocol.PoisonHasCulprit` | rust/src/treap.rs:203-225 | a poisoned lock goes back to a call that met equal presets or asked for an index that the presets do not reach |
| `TreapProtocol.PresetKeepsItsSlot` | rust/src/treap.rs:80-89 | the i-th preset has slot i in every run |
| `TreapProtocol.PresetsDecidePanics` | rust/src/treap.rs:114-116 | with distinct presets no run reaches the duplicate-key panic; with equal ones no call ever answers |
| `TreapProtocol.EveryAnswerFits` | rust/src/treap.rs:194-226 | in every run intern answers a slot, at a key, or there is a panic with its cause: poison, equal presets, an index beyond the presets; the table holds the presets and keys whose slot was answered to some intern, nothing else |
| `TreapProtocol.CallReturns` | rust/src/treap.rs:203-225 | from any state with distinct presets and no poison an idle thread gets the answer meant in at most three steps of its own |
| `Probing.ScanFinds` | Smalltalk/ASTKernel-Collections-Unordered/ASTSet.class.st:107-117 | in a sound table with a nil slot the probe answers a slot, which holds the key exactly if the table does |
| `Probing.FillKeepsSound` | Smalltalk/ASTKernel-Collections-Unordered/ASTSet.class.st:42-52 | filling the probed nil slot keeps every key reachable and adds one key |
| `Probing.NilRemains` | Smalltalk/ASTKernel-Collections-Unordered/ASTSet.class.st:138-143 | fewer keys than slots leave a nil slot |
| `Probing.ClearStartsRepair` | Smalltalk/ASTKernel-Collections-Unordered/ASTSet.class.st:186-195 | clearing a slot removes one key and may cut off only keys behind it |
| `Probing.RepairScan` | Smalltalk/ASTKernel-Collections-Unordered/ASTSet.class.st:120-135 | during repair the probe for the next key stops at the hole or at the key itself |
| `Probing.RepairMoves` | Smalltalk/ASTKernel-Collections-Unordered/ASTSet.class.st:120-135 | moving a key into the hole keeps the repair invariant with the hole where the key was, and comes closer to the next nil slot |
| `Probing.RepairStays` | Smalltalk/ASTKernel-Collections-Unordered/ASTSet.class.st:120-135 | leaving a key whose path avoids the hole keeps the repair invariant |
| `Probing.RepairEnds` | Smalltalk/ASTKernel-Collections-Unordered/ASTSet.class.st:120-135 | at the next nil slot every key is reachable again |
| `Probing.SoundIffNotCutOff` | Smalltalk/ASTKernel-Collections-Unordered/ASTSet.class.st:120-135 | when a repair stops, every key is reachable if and only if, in the table as it was, no key from the stop on round to the cleared slot has its home at or before the hole |
| `Probing.LosesAt` | Smalltalk/ASTKernel-Collections-Unordered/ASTDictionary.class.st:137-146 | whether a removal cuts a key off is told by the walk from the slot of the key, cleared or not |
| `Probing.OnlyNilKeyLoses` | Smalltalk/ASTKernel-Collections-Unordered/ASTDictionary.class.st:137-146 | it does so only if nil is a key |
| `Probing.NilKeyStopsRepair` | Smalltalk/ASTKernel-Collections-Unordered/ASTDictionary.class.st:137-146 | a nil key in the cluster stops the repair with another key out of reach |
| `Probing.InitialSizeSuffices` | Smalltalk/ASTKernel-Collections-Unordered/ASTSet.class.st:17-26 | the first array has room for nElements and the growth margin |
| `Probing.GrowthSuffices` | Smalltalk/ASTKernel-Collections-Unordered/ASTSet.class.st:146-157 | the grown array has room for all elements and the growth margin |
| `HashSets.HashSet.ScanFor` | Smalltalk/ASTKernel-Collections-Unordered/ASTSet.class.st:198-211 | cyclic linear probing from the home slot: the first nil or equal slot, or none |
| `HashSets.HashSet.FindElementOrNil` | Smalltalk/ASTKernel-Collections-Unordered/ASTSet.class.st:107-117 | never fails, since a nil slot remains |
| `HashSets.HashSet.Includes` | Smalltalk/ASTKernel-Collections-Unordered/ASTSet.class.st:160-162 | membership |
| `HashSets.HashSet.Add` | Smalltalk/ASTKernel-Collections-Unordered/ASTSet.class.st:42-52 | adds exactly the element, refuses nil, keeps reachability, count and a nil slot |
| `HashSets.HashSet.AtNewIndex` | Smalltalk/ASTKernel-Collections-Unordered/ASTSet.class.st:70-74 | stores, counts and grows when too full |
| `HashSets.HashSet.Grow` | Smalltalk/ASTKernel-Collections-Unordered/ASTSet.class.st:146-157 | a larger table with the same elements, all reachable |
| `HashSets.HashSet.NoCheckAdd` | Smalltalk/ASTKernel-Collections-Unordered/ASTSet.class.st:180-183 | adds an element known to be new |
| `HashSets.HashSet.Remove` | Smalltalk/ASTKernel-Collections-Unordered/ASTSet.class.st:186-195 | removes exactly the element and says whether it was there |
| `HashSets.HashSet.FixCollisionsFrom` | Smalltalk/ASTKernel-Collections-Unordered/ASTSet.class.st:120-135 | terminates, keeps the elements, leaves all of them reachable, cyclically |
| `HashSets.HashSet.constructor` | Smalltalk/ASTKernel-Collections-Unordered/ASTSet.class.st:17-26 | an empty set with room for nElements |
| `Dictionaries.Dictionary.PerformAll` | Smalltalk/ASTKernel-Collections-Unordered/ASTDictionary.class.st:52-252 | any run of stores and removals, growth and nil keys included, refines a finite map, and tally is its size, up to the first removal that would cut a key off, of which there is none while nil is no key |
| `Dictionaries.Dictionary.Perform` | Smalltalk/ASTKernel-Collections-Unordered/ASTDictionary.class.st:52-252 | one store or removal does to the map what it should, unless it is a removal that cuts a key off |
| `Dictionaries.LastPutWins` | Smalltalk/ASTKernel-Collections-Unordered/ASTDictionary.class.st:52-76 | after a run a key has the value last stored unless removed since |
| `Dictionaries.Dictionary.At` | Smalltalk/ASTKernel-Collections-Unordered/ASTDictionary.class.st:52-59 | the value of a key, or absent |
| `Dictionaries.Dictionary.AtPut` | Smalltalk/ASTKernel-Collections-Unordered/ASTDictionary.class.st:62-76 | updates the one binding of the map |
| `Dictionaries.Dictionary.SetValue` | Smalltalk/ASTKernel-Collections-Unordered/ASTDictionary.class.st:62-76 | changing an association changes the binding of its key and no other |
| `Dictionaries.Dictionary.RemoveKey` | Smalltalk/ASTKernel-Collections-Unordered/ASTDictionary.class.st:222-236 | answers the value and removes the binding from the associations; every other key stays in reach if and only if a condition on the table before the call holds: where the repair will stop, no key beyond has its home at or before the hole left behind |
| `Dictionaries.Dictionary.FixCollisionsFrom` | Smalltalk/ASTKernel-Collections-Unordered/ASTSet.class.st:120-135 | the repair keeps the associations; the hole it leaves and the slot it stops at are those told from the table before |
| `Dictionaries.Dictionary.RepairSlot` | Smalltalk/ASTKernel-Collections-Unordered/ASTSet.class.st:129-134 | one round of the repair over associations |
| `Dictionaries.Dictionary.Grow` | Smalltalk/ASTKernel-Collections-Unordered/ASTSet.class.st:146-157 | moves the associations themselves to a larger array without changing the map |
| `Dictionaries.Dictionary.NoCheckAdd` | Smalltalk/ASTKernel-Collections-Unordered/ASTDictionary.class.st:186-191 | adds an association whose key is new |
| `Dictionaries.Dictionary.ScanFor` | Smalltalk/ASTKernel-Collections-Unordered/ASTDictionary.class.st:239-252 | the probe compares keys of associations |
| `Dictionaries.Dictionary.constructor` | Smalltalk/ASTKernel-Collections-Unordered/ASTSet.class.st:17-26 | an empty dictionary |
| `Arenas.SmallerPowerOf2` | zig/zag/utilities/general.zig:152-154 | the largest power of two that is at most n |
| `Arenas.RoundDownIsMask` | zig/arenas.zig:149-154 | rounding down to a multiple of 2^k is the bitwise and with the mask -2^k |
| `Arenas.AlignedIffMultiple` | zig/arenas.zig:149-154 | masking off the bits below a power of two leaves the address alone exactly for its multiples |
| `Arenas.BoundaryIsAligned` | zig/arenas.zig:149-154 | boundaryCalc ends the lower part at a multiple of the largest power of two that fits the span |
| `Arenas.TilesCover` | zig/arenas.zig:155-165 | the pieces of a non-empty span at any address cover each of its words exactly once and no other |
| `Arenas.TilesNatural` | zig/arenas.zig:155-165 | every piece is a power of two long and aligned to its length |
| `Arenas.TilesTotal` | zig/arenas.zig:155-165 | the pieces add up to the span |
| `Arenas.TilesMaximal` | zig/arenas.zig:155-165 | they are the largest pieces possible: no larger naturally aligned block around one fits the span |
| `Arenas.QueueAllConserves` | zig/arenas.zig:253-269 | queuing pieces puts each of them on a list or, if of one word, leaves it as a remnant |
| `Arenas.BalancedSplit` | zig/arenas.zig:116-129 | splitting a block in hand keeps every word of the pages in exactly one returned block, queued block or remnant |
| `Arenas.GlobalArena.FreeToList` | zig/arenas.zig:155-165 | terminates and queues exactly those pieces, or fails, exactly for an empty span that does not start at 0, where the aligned end is subtracted from below |
| `Arenas.GlobalArena.AddToFree` | zig/arenas.zig:253-269 | queues a block on the list of its size; a one-word block gets no place |
| `Arenas.GlobalArena.GetSlice` | zig/arenas.zig:270-281 | takes the block queued last |
| `Arenas.GlobalArena.ListFoundFits` | zig/arenas.zig:144-148 | the list found is the first one whose blocks are large enough, from two words up |
| `Arenas.GlobalArena.TakeBlock` | zig/arenas.zig:116-122 | a block never smaller than the request, from the first list that has any, or a fresh page only if none has |
| `Arenas.GlobalArena.PopBlock` | zig/arenas.zig:116-122 | the search of the lists from the one for the request: the latest block of the first list that has any |
| `Arenas.GlobalArena.RawAlloc` | zig/arenas.zig:116-129 | hands out exactly the words asked for and conserves all words of all pages, or fails, exactly if the block in hand has just the words asked for |
| `Arenas.GlobalArena.ExactFitIff` | zig/arenas.zig:116-129 | that is so if and only if the request is a power of two whose own list has a block, or a whole page and no list searched has one |
| `Arenas.WholePageFits` | zig/arenas.zig:116-129 | with pages of 16 words and nothing free, a request for 16 words |
| `Arenas.SecondRequestFits` | zig/arenas.zig:116-129 | with pages of 16 words, the second request for 4 words |
| `Arenas.GlobalArena.WordHasOneOwner` | zig/arenas.zig:116-129 | no word is in two of the blocks handed out, queued or left over |
| `Arenas.GlobalArena.FreeSpace` | zig/arenas.zig:166-172 | the words obtained less those handed out and those lost |
| `Arenas.GlobalArena.constructor` | zig/arenas.zig:282-289 | empty lists for every size |
| `Heap.HeaderReadsBack` | rust/src/object.rs:376-465 | class, hash, format and size read back from the header word, modulo their field widths |
| `Heap.PackingIsDivision` | rust/src/object.rs:513-516 | items per word, words and items of the last word are the quotients and the remainder computed |
| `Heap.RoomForItems` | rust/src/object.rs:499-524 | for every shape: behind the header named fields, a length word if one is kept, and exactly the words that the items need |
| `Heap.ItemInside` | rust/src/object.rs:499-524 | every named field and every item lies inside the object |
| `Heap.TestedSizes` | rust/src/object.rs:525-548 | the sizes that the tests of the source expect |
| `Heap.FormatMasks` | rust/src/object.rs:574-625 | the masks 27 and 26 tell exactly the formats with named fields only and with pointers only |
| `Heap.WordsReadBackIff` | rust/src/object.rs:606-618 | words() answers the step of the allocation, whatever memory held before, if and only if the shape is readable |
| `Heap.WordsFailForLongBytes` | rust/src/object.rs:606-618 | words() answers 2 for 262136 bytes, which take 32769 words |
| `Heap.SizeReadsBackIff` | rust/src/object.rs:620-643 | size() answers the count asked for if and only if the shape is countable |
| `Heap.SizeFailsForLongBytes` | rust/src/object.rs:620-643 | size() answers eight times as many |
| `Heap.WidthReadsBackIff` | rust/src/object.rs:645-658 | width() answers the width asked for if and only if it is 1, 2, 4 or 8 |
| `Heap.DescribedReadsBack` | rust/src/object.rs:606-643 | header and length word of a readable shape give its words and its count |
| `Heap.AllocatedDescribes` | rust/src/object.rs:761-769 | alloc leaves that header and length word |
| `Heap.WalkVisitsObjects` | rust/src/memory.rs:43-54 | walking from base by words() visits exactly the allocated objects, in order, and ends at current |
| `Heap.ObjectReadsBack` | rust/src/memory.rs:43-54 | every object keeps saying what it was allocated with |
| `Heap.LengthNotInitialized` | rust/src/object.rs:751-760 | initialize does not overwrite the length word |
| `Heap.TiledOrder` | rust/src/memory.rs:43-54 | objects do not overlap |
| `Heap.ParsedPut` | rust/src/object.rs:675-678 | assigning any field but the length word leaves the heap parsable |
| `Heap.ParsedRefused` | rust/src/memory.rs:43-54 | the header and length word that a refused allocation writes disturb no object |
| `Heap.AllocInsideIff` | rust/src/object.rs:761-769 | alloc writes no word beyond the region, refused or not, if and only if the place of the length word is inside |
| `Heap.Region.Alloc` | rust/src/object.rs:761-769 | writes header and length word and answers the address behind the words that RoomForItems tells of |
| `Heap.Region.Initialize` | rust/src/object.rs:751-760 | sets exactly the named fields and the indexed ones that header and length word tell of |
| `Heap.Region.AllocObject` | rust/src/memory.rs:43-54 | for any shape: succeeds exactly if the object fits before end; then every named field and item lies below the new current, and every word of memory is told from the shape; leaves all objects before it alone; for a readable shape the heap stays parsable, with one more initialized object and nothing changed beyond it |
| `Heap.InitializedAllocated` | rust/src/object.rs:751-769 | what alloc and initialize write for any shape: header, named fields up to 16 bits of their number, length word, and items as far as words() goes |
| `Heap.WordsAfterAlloc` | rust/src/object.rs:606-618 | how far words() goes for any shape, readable or not |
| `Heap.Region.AssignField` | rust/src/object.rs:675-678 | an assignment to any field index of any address, inside the object or not, keeps the region valid if and only if it hits no header and no length word, or changes nothing |
| `Heap.Region.constructor` | rust/src/memory.rs:21-28 | an empty region that does not use the last word |
| `MergeSorts.MergeSort` | Smalltalk/ASTKernel-Collections-Abstract/ASTArrayedCollection.class.st:85-106 | sorts the range in place as the sort on sequences does, leaves the rest alone, and reports bad indices |
| `MergeSorts.SortRange` | Smalltalk/ASTKernel-Collections-Abstract/ASTArrayedCollection.class.st:109-134 | the recursion over two buffers that agree on the range at entry sorts it into dst and touches nothing outside it |
| `MergeSorts.MergeRanges` | Smalltalk/ASTKernel-Collections-Abstract/ASTArrayedCollection.class.st:54-82 | merges two adjacent runs of src into dst |
| `MergeSorts.MergeHeads` | Smalltalk/ASTKernel-Collections-Abstract/ASTArrayedCollection.class.st:62-72 | the loop that takes the lower head until one run is used up |
| `MergeSorts.ReplaceFrom` | Smalltalk/ASTKernel-Numeric/ASTInteger.class.st:688-695 | copies a range of one array into another |
| `MergeSorts.SortPermutes` | Smalltalk/ASTKernel-Collections-Abstract/ASTArrayedCollection.class.st:109-134 | the sort is a permutation for any comparison block |
| `MergeSorts.SortIsStable` | Smalltalk/ASTKernel-Collections-Abstract/ASTArrayedCollection.class.st:109-134 | for a strict weak order the result is sorted and equivalent elements keep their order |
| `MergeSorts.StableSortIsUnique` | Smalltalk/ASTKernel-Collections-Abstract/ASTArrayedCollection.class.st:109-134 | a stable sort has only one possible result |
| `OrderedCollections.OrderedCollection.PerformAll` | Smalltalk/ASTKernel-Collections-Ordered/ASTOrderedCollection.class.st:19-271 | any run of end adds, end removals, inserts and indexed removals does what it does to a mathematical sequence, across slides and growth, from any capacity |
| `OrderedCollections.OrderedCollection.Add` | Smalltalk/ASTKernel-Collections-Ordered/ASTOrderedCollection.class.st:26-34 | appends |
| `OrderedCollections.OrderedCollection.AddFirst` | Smalltalk/ASTKernel-Collections-Ordered/ASTOrderedCollection.class.st:37-45 | prepends |
| `OrderedCollections.OrderedCollection.RemoveFirst` | Smalltalk/ASTKernel-Collections-Ordered/ASTOrderedCollection.class.st:237-247 | removes and answers the first element, or an error |
| `OrderedCollections.OrderedCollection.RemoveLast` | Smalltalk/ASTKernel-Collections-Ordered/ASTOrderedCollection.class.st:261-271 | removes and answers the last element, or an error |
| `OrderedCollections.OrderedCollection.At` | Smalltalk/ASTKernel-Collections-Ordered/ASTOrderedCollection.class.st:48-55 | the element, or an error outside the collection |
| `OrderedCollections.OrderedCollection.AtPut` | Smalltalk/ASTKernel-Collections-Ordered/ASTOrderedCollection.class.st:58-68 | replaces an element, or an error |
| `OrderedCollections.OrderedCollection.Insert` | Smalltalk/ASTKernel-Collections-Ordered/ASTOrderedCollection.class.st:167-180 | for any slot number: inserts before a slot of the window or at its end, a slot before the window counting as its first; for one further behind the object is lost and the window takes in the slot after it; an index error comes exactly for a spot that is not there once room has been made, and leaves the elements with one slot more |
| `OrderedCollections.OrderedCollection.RemoveIndex` | Smalltalk/ASTKernel-Collections-Ordered/ASTOrderedCollection.class.st:250-258 | for any slot number: removes the element of a slot, a slot before or behind the window counting as its first or last; an index below 1, or a collection whose window ends before slot 1, gives an index error and no change; the collection stays valid exactly if it was not empty or the error came |
| `OrderedCollections.OrderedCollection.ShiftDown` | Smalltalk/ASTKernel-Collections-Ordered/ASTOrderedCollection.class.st:253-256 | the loop moves the elements after the slot down by one and nothing else |
| `OrderedCollections.OrderedCollection.Remove` | Smalltalk/ASTKernel-Collections-Ordered/ASTOrderedCollection.class.st:225-234 | removes the first equal element and says whether there was one |
| `OrderedCollections.OrderedCollection.Grow` | Smalltalk/ASTKernel-Collections-Ordered/ASTOrderedCollection.class.st:153-164 | more slots, same elements |
| `OrderedCollections.OrderedCollection.MakeRoomAtFirst` | Smalltalk/ASTKernel-Collections-Ordered/ASTOrderedCollection.class.st:192-207 | frees a slot before the window without changing the contents |
| `OrderedCollections.OrderedCollection.SlideUp` | Smalltalk/ASTKernel-Collections-Ordered/ASTOrderedCollection.class.st:200-206 | the overlapping copy upwards |
| `OrderedCollections.OrderedCollection.MakeRoomAtLast` | Smalltalk/ASTKernel-Collections-Ordered/ASTOrderedCollection.class.st:210-222 | frees a slot after the window without changing the contents |
| `OrderedCollections.OrderedCollection.SlideDown` | Smalltalk/ASTKernel-Collections-Ordered/ASTOrderedCollection.class.st:217-221 | the overlapping copy downwards |
| `OrderedCollections.OrderedCollection.constructor` | Smalltalk/ASTKernel-Collections-Ordered/ASTOrderedCollection.class.st:19-23 | an empty collection with room for n elements |

## Left out

- Division.DigitDiv: the receiver is a large integer; SmallIntegers as receivers, for which `quo:` and `//` are primitives, are not modelled.
- Quotients.FloorQuo: the dividend is a large integer without leading zeros and at least 2^24 in magnitude, as the integer code leaves it; `Integers.Proper` says so for both operands.
- Logic.BitOperation: the receiver is a large integer, and a negative operand has a non-zero magnitude; there is no negative zero.
- Reading.ReadStream.ReadNumber: a fraction or a negative exponent ends the model with the outcome NotInteger, since floats and fractions are not modelled.
- Powers.RaisedTo: what the answer is worth is stated for SmallInteger bases from 2 up, which is all that reading passes to it.
- Treaps.Treap.Insert: keys are real numbers, into which any countable total order embeds; the tag bits of symbols are not modelled.
- Treaps.Treap.InsertElement: requires fewer slots than 32-bit indices can number; the source would wrap.
- TreapProtocol.StepKeepsInv: what a thread does while it holds a lock is one step, since the lock excludes other writers; fairness and termination of threads are not modelled.
- Dictionaries.Dictionary.PerformAll: a run ends before the first removal that would cut a key off; what that removal does is stated by RemoveKey, and the dictionary it leaves, in which keys cannot be found, is not followed further.
- Dictionaries.Dictionary.AtPut: clients do not change associations behind the dictionary's back.
- HashSets.HashSet.ScanFor: the hash is any function of the element; elements that change their hash are not modelled.
- Arenas.GlobalArena.RawAlloc: totalSize is heapSize + arraySize; the pointer word stored after the instance variables, the header written into a freed block and the length limit of 12 bits are not modelled; push and pop are atomic, so retries after a failed compare-and-swap are not seen; a fresh page is any span that does not overlap the others.
- Arenas.GlobalArena.FreeToList: addresses are counted in words; an address that is not a multiple of a word, and the end of the address space, are not modelled.
- Arenas.GlobalArena.TakeBlock: requests beyond the maximum length, for which the source has list index 0 and a note to allocate indirectly, are not modelled.
- Heap.Region.AllocObject: after an object of an unreadable shape the heap is no longer claimed to be parsable, which by Heap.WordsReadBackIff it need not be; the initializer is the default one; string contents, collection and moving of objects are not modelled.
- Heap.FormatAndSize: counts are mathematical integers within signed 64 bits, and the total is not cut to 64 bits; a width that makes the source divide by zero is excluded.
- MergeSorts.SortIsStable: comparison blocks without side effects only.
- `\\`, negative exponents of `raisedToInteger:`, and arithmetic mixed with floats.
- Dispatch tables, the AST interpreter, primitives, graphics, processes and files: unfinished in the source or outside the program.
- ASTLinkedList and ASTMethodDictionary: they rest on `become:` and on index conventions of their own and would add only easy members.
