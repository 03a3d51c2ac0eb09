# BigInt-Go-Implementation in Dafny

A model of the arbitrary-precision integer engine of BigInt-Go-Implementation, with proofs about it.
A `BigInt` is a sign-magnitude decimal number. It has a digit string `value`, most significant
digit first, and a flag `negative`. It stands for the integer `±Val(value)`, where `Val` is the
decimal reading of the digits. Every operation overwrites the receiver's fields.

The project models two revisions of the engine:

- `bigint/bigint.go`, the complete revision, is module `BigInts`. It holds the class `BigInt` with
  its two fields and one method per Go method. Its pure specifications sit in modules `Digits`,
  `Magnitude` and `Columns`.
  - `Digits` holds the decimal reading, padding, reversal, `strconv.Itoa` and the magnitude order.
  - `Magnitude` models `checkDigits`, `equalLengths`, `reverse`, `multiplyByIntHelper` and the
    long-division loop. The two revisions share these unchanged.
  - `Columns` specifies what `adder`, `subtractor` and the partial-product loop of `Multiply` leave
    in the receiver.
- `BigIntLaws` states what the operations of the complete revision mean for the integers.
- `main.go`, the earlier revision, is module `EarlyRevision`. It holds only the functions whose
  behaviour differs: `newBigInt`, `compareValues`, `subtractor`, `Add`, `Subtract`, `Multiply` and
  `DivideByInt`. Each becomes a method whose first parameter `b` is the receiver. They run on the
  same `BigInt` objects and the same shared helpers. `main.go`'s `ToString`, `Negate`,
  `checkDigits`, `equalLengths`, `Reverse`, `adder` (main.go:238-269), `multiplyByIntHelper`
  (main.go:578-598) and `CompareTo` (main.go:138-206) are the same algorithms as in the complete
  revision. They are modelled once, by the members cited below.

The model follows the code as written:

- A panic or a loop that never ends becomes a precondition on the caller. The exact panic
  conditions are `AddSafe`, `SubtractSafe`, `DivideSafe` and `MultiplySafe`.
- Zero-valued results with a set flag ("-0") can be represented.
- The readings of non-canonical strings (those with leading zeros) are modelled exactly, and so
  is the result `subtractor` gives for a minuend below the subtrahend. Its borrow loop wraps around
  to `10^width` plus the difference. The early `Add` reaches that case, and so do the later `Add`
  and `Subtract` on leading-zero strings `NewBigInt` accepts: `compareValues` ranks "007" above
  "8", so 7 + (-8) leaves "999", non-negative (`BigIntLaws.LeadingZeroAddExample`). The laws in
  `BigIntLaws` therefore speak of canonical operands.

The sign-dependent dispatch of `Add` and `Subtract` is given as the case functions `AddCases` and
`SubtractCases`. Each method is proved equal to its case function, and `AddMeaning` /
`SubtractMeaning` prove what the cases compute. The repeated-subtraction loop of `Divide` is
specified by `DivideRounds` and `DivideOutcome`. `DivideMeaning` proves that on canonical operands
this is the integer quotient and remainder.

## Model

| member | source | states |
|---|---|---|
| `BigInts.Parse` | bigint/bigint.go:31-55 | a non-empty string is accepted iff it is all digits or '-' followed by all digits, so "-" alone gives an empty value; the flag is set iff there is a leading '-'; the string is the sign followed by the digits |
| `BigInts.NewBigInt` | bigint/bigint.go:31-55 | a valid string yields an object with the parsed fields and no error; otherwise the zero object (`""`, non-negative) and the error text "not a valid big int string" |
| `BigInts.BigInt.ToString` | bigint/bigint.go:59-64 | the digits, preceded by exactly one '-' iff the flag is set |
| `BigIntLaws.ToStringOfParsed` | bigint/bigint.go:31-64 | a string the constructor accepts is printed back exactly |
| `BigIntLaws.ParseOfToString` | bigint/bigint.go:31-64 | every non-empty printed object is accepted again with the same fields |
| `BigInts.BigInt.Negate` | bigint/bigint.go:67-69 | flips the flag and leaves the digits alone |
| `Magnitude.CheckDigits` | bigint/bigint.go:72-80 | true iff every character is '0'..'9' |
| `BigInts.BigInt.CompareValues` | bigint/bigint.go:107-130 | length first, then the first differing digit (`CompareDigits`) |
| `BigInts.CompareRunes` | bigint/bigint.go:115-129 | the equal-length loop returns the lexicographic order of the two strings |
| `Digits.LexCompareProperties` | bigint/bigint.go:115-129 | the equal-length order is in {-1,0,1}, antisymmetric, and 0 exactly on equal strings |
| `Digits.LexCompareVal` | bigint/bigint.go:115-129 | on equally long digit strings the lexicographic order is the sign of the difference of the readings |
| `Digits.CompareDigitsProperties` | bigint/bigint.go:102-130 | `compareValues` answers -1/0/1, is antisymmetric, and is 0 exactly on equal strings |
| `Digits.CompareDigitsVal` | bigint/bigint.go:102-130 | on leading-zero-free strings `compareValues` is the sign of `Val(b) - Val(x)` |
| `BigInts.BigInt.CompareTo` | bigint/bigint.go:137-205 | non-negative above negative; two non-negatives by magnitude; two negatives by reversed magnitude |
| `BigIntLaws.SignedCompareProperties` | bigint/bigint.go:132-205 | `CompareTo` is in {-1,0,1}, antisymmetric, reflexive, and 0 exactly on equal fields |
| `BigIntLaws.SignedCompareMeaning` | bigint/bigint.go:132-205 | on canonical digits `CompareTo` is the sign of the difference of the integers, except that "0" ranks above "-0" |
| `Magnitude.EqualLengths` | bigint/bigint.go:208-225 | both strings come out at the longer length, the shorter one left-padded with '0' |
| `Magnitude.EqualLengthsVal` | bigint/bigint.go:208-225 | the padding keeps both strings digits and changes neither reading |
| `Magnitude.Reverse` | bigint/bigint.go:228-234 | the in-place swap loop over the rune buffer returns the reversed string |
| `Digits.ReversedInvolution` | bigint/bigint.go:228-234 | reversal keeps the length and reversing twice gives the string back |
| `BigInts.AddColumns` | bigint/bigint.go:241-258 | the carry loop: the carry stays 0 or 1, and the reversed column digits plus the carry times `10^width` read as the sum of the padded operands |
| `Columns.SumOfColumns` | bigint/bigint.go:260-266 | the reversed columns, preceded by "1" exactly when the last carry is 1, are the digits `SumDigits` describes |
| `BigInts.BigInt.Adder` | bigint/bigint.go:237-268 | the receiver's digits become `SumDigits(old value, addend)` and stay all digits; the flag and `addend` are untouched |
| `Columns.SumDigitsCorrect` | bigint/bigint.go:237-268 | the sum reads as `Val(b) + Val(addend)`; it has the longer length, or one more with a leading '1' exactly when the reading reaches `10^max`; there is no leading zero when the operands have none |
| `Columns.SumDigitsCommutes` | bigint/bigint.go:237-268 | the sum does not depend on which operand is the receiver |
| `BigInts.BorrowColumns` | bigint/bigint.go:477-500 | the borrow loop: the borrow stays 0 or -1; the reversed digits minus `10^width` for a final borrow read as minuend minus subtrahend |
| `Columns.DifferenceOfColumns` | bigint/bigint.go:484-508 | the borrow loop's digits read as `BorrowValue`, the difference modulo `10^width` |
| `Columns.BorrowValueCorrect` | bigint/bigint.go:475-510 | the borrow value is `(Val(m) - Val(s)) mod 10^width`, is below `10^width`, and is 0 exactly when the readings are equal |
| `BigInts.StripTrailingZeros` | bigint/bigint.go:502-506 | for a non-zero difference the strip loop stops before the buffer is empty, leaves no leading zero after reversal, and keeps the reading |
| `BigInts.BigInt.Subtractor` | bigint/bigint.go:475-510 | requires different readings (equal ones empty the buffer and then index it); the digits become the canonical, positive `Difference` (the borrow value without leading zeros); the flag is kept |
| `Columns.DifferenceCorrect` | bigint/bigint.go:475-510 | `Difference` is canonical and reads as the borrow value |
| `BigInts.BigInt.Add` | bigint/bigint.go:271-370 | requires `AddSafe` (no branch reaches a failing `subtractor`); the fields become `AddCases` of the comparison and the operands; `x` is restored after the temporary `x.subtractor(b)` |
| `BigIntLaws.AddMeaning` | bigint/bigint.go:271-370 | on canonical operands `Add` is safe and the digits are canonical; the result is `b + x` except for a smaller negative `b` and a non-negative `x`, where it is `-(b + x)`; cancelling operands give ("0", non-negative) |
| `BigIntLaws.IntendedAdd` | bigint/bigint.go:299-307 | the case table with that one sign corrected always gives canonical digits reading `b + x` |
| `BigIntLaws.AddSignExample` | bigint/bigint.go:299-307 | -1 + 2 comes out as -1, and the corrected sign gives 1 |
| `BigIntLaws.LeadingZeroAddExample` | bigint/bigint.go:310-316 | "007" is ranked above "8", and 7 + (-8) comes out as 999, non-negative, where the integers sum to -1 |
| `BigInts.BigInt.Subtract` | bigint/bigint.go:373-472 | requires `SubtractSafe`; the fields become `SubtractCases` of the comparison and the operands; `x` is restored |
| `BigIntLaws.SubtractMeaning` | bigint/bigint.go:373-472 | on canonical operands `Subtract` is safe and always gives canonical digits reading `b - x`; equal operands of the same sign give ("0", non-negative) |
| `Magnitude.MultiplyByIntHelperCorrect` | bigint/bigint.go:542-562 | for `x * Val(number) + overflow = q * 10^n + r`, the helper returns the carry text of `q`, the `n` low digits of `r`, the reversed builder and `powerOf10` zeros |
| `Magnitude.PartialProduct` | bigint/bigint.go:542-562 | for a digit `x` and an empty builder, the helper returns digits reading `x * Val(number) * 10^p`, with at most one extra leading digit, present exactly when the product reaches `10^|number|` |
| `Magnitude.HelperCarryAtMostEight` | bigint/bigint.go:553-559 | the carry of a single-digit multiplication never exceeds 8 |
| `BigInts.BigInt.AddPartialProduct` | bigint/bigint.go:519-528 | one loop round adds the partial product of the next digit of `x` to the receiver with `adder` |
| `Columns.AccumulatedVal` | bigint/bigint.go:519-528 | after `k` rounds the receiver reads as `Val(number)` times the last `k` digits of `x` |
| `Columns.AccumulatedLength` | bigint/bigint.go:519-528 | after `k` rounds the receiver is `|number| + k - 1` digits long, or one more exactly when its reading needs it |
| `BigInts.BigInt.Multiply` | bigint/bigint.go:513-539 | requires distinct objects and non-empty digits when `x` has digits (`NewBigInt` needs a non-empty string); the digits become the accumulated partial products; the flag is set iff the flags differ, also for a zero product |
| `Columns.ProductCorrect` | bigint/bigint.go:513-539 | the product digits read as `Val(b) * Val(x)`; on canonical operands they are canonical when both are non-zero and a non-empty run of '0' otherwise ("000" for "123" * "0") |
| `BigIntLaws.MultiplyMeaning` | bigint/bigint.go:513-539 | on canonical non-zero operands the fields read as the product of the integers |
| `Magnitude.LongDivideStep` | bigint/bigint.go:576-584 | one round with a remainder below the divisor emits a quotient digit 0..9 and keeps the prefix read so far equal to quotient so far times divisor plus remainder |
| `Magnitude.QuotientDigits` | bigint/bigint.go:571-584 | the remainder loop's digits read as `Val(dividend) / divisor` |
| `Magnitude.StripLeadingZeros` | bigint/bigint.go:586-590 | for a non-zero quotient the strip loop leaves its canonical numeral |
| `Magnitude.LongDivide` | bigint/bigint.go:571-592 | the quotient is the canonical numeral of `Val(dividend) / divisor` |
| `BigInts.BigInt.DivideByInt` | bigint/bigint.go:566-595 | requires `0 < divisor <= Val(value)` (a zero divisor calls `log.Fatal`; a zero quotient empties the buffer and then indexes it); the digits become the canonical floor quotient, so all digits again, and the flag is kept |
| `BigInts.Threshold` | bigint/bigint.go:609 | the reading the loop test compares against is at least the divisor, and above it for a divisor with a leading zero |
| `BigInts.LoopGuard` | bigint/bigint.go:609 | on a canonical positive running value the loop test `compareValues >= 0` is reading against threshold |
| `BigInts.DivideGuard` | bigint/bigint.go:609-612 | the loop test holds exactly when the running value reaches the threshold, and then the divisor is positive and below the running value, so the next `subtractor` meets different readings and the value shrinks |
| `BigInts.DivideRound` | bigint/bigint.go:610-611 | each round takes the divisor once more: the running value plus the subtractions so far read as the first difference |
| `BigInts.DivideRounds` | bigint/bigint.go:607-612 | the further rounds and the value the loop stops at: leftover plus rounds times divisor is the first difference, and the leftover is below the threshold |
| `BigInts.RoundsUnique` | bigint/bigint.go:607-612 | the rounds and leftover are the only ones that stop the loop |
| `BigInts.DivideFinish` | bigint/bigint.go:613-617 | when the loop stops, the quotient is the numeral of the subtraction count and the remainder is the running value |
| `BigInts.BigInt.Divide` | bigint/bigint.go:600-639 | requires `DivideSafe` (no `subtractor` on equal readings, and the loop ends); quotient and remainder are `DivideOutcome`: "0" and the receiver's digits when reported smaller, "1" and "0" when equal; the flag is set iff the flags differ, also for quotient "0"; quotient and remainder are digit strings |
| `BigIntLaws.DivideSafeCanonical` | bigint/bigint.go:604-612 | on canonical operands with a positive divisor, `Divide` is safe exactly when the divisor does not properly divide a larger receiver |
| `BigIntLaws.DivideMeaning` | bigint/bigint.go:600-639 | on canonical operands with a positive divisor, quotient `Val(b) / Val(x)` and remainder `Val(b) % Val(x)`, both canonical |
| `BigIntLaws.DivideOutcomeOf` | bigint/bigint.go:600-639 | with a positive divisor that does not divide the receiver, the canonical numerals of quotient and remainder are the outcome |
| `BigIntLaws.DivideExample` | bigint/bigint.go:683-686 | 1000000 / 1120 gives 892 with remainder 960 |
| `Digits.NatToDecimalCorrect` | bigint/bigint.go:617 | the `strconv.Itoa` rendering is canonical and reads as the number |
| `EarlyRevision.NewBigInt` | main.go:33-57 | accepts exactly the strings the later constructor accepts; a null object with the error otherwise |
| `EarlyRevision.CompareValues` | main.go:109-131 | length first, then the exchanged digit comparison `SwappedCompare` |
| `EarlyRevision.SwappedCompareProperties` | main.go:109-131 | still in {-1,0,1}, antisymmetric, 0 exactly on equal strings; equal to `compareValues` of the later revision across lengths and its negation within one |
| `EarlyRevision.SwappedCompareMeaning` | main.go:109-131 | on canonical strings, the sign of `Val(b) - Val(x)` across lengths and of `Val(x) - Val(b)` within one |
| `EarlyRevision.SwappedCompareExample` | main.go:120-128 | "1" is reported larger than "2" |
| `EarlyRevision.Subtractor` | main.go:513-556 | "0" when reported equal, the text "TODO implement negative values" when reported smaller, the borrow loop otherwise; the flag is kept |
| `EarlyRevision.SubtractorMeaning` | main.go:513-556 | on canonical strings the borrow branch is safe; a longer minuend gives the difference; a smaller one of the same length wraps to `10^L` plus the difference; a larger one of the same length, or a shorter one, gets the placeholder text |
| `EarlyRevision.Add` | main.go:291-390 | the fields become `AddCases` over the exchanged comparison; `x` is restored |
| `EarlyRevision.AddAgrees` | main.go:291-390 | with operands of different lengths, or of equal signs, the early `Add` gives what the later one gives |
| `EarlyRevision.AddExample` | main.go:294-303 | 2 + (-1) comes out as -9 |
| `EarlyRevision.Subtract` | main.go:411-510 | the fields become `SubtractCases` over the exchanged comparison; `x` is restored |
| `EarlyRevision.SubtractAgrees` | main.go:411-510 | with operands of different lengths, or of different signs, the early `Subtract` gives what the later one gives |
| `EarlyRevision.AddPartialProduct` | main.go:565-574 | one loop round adds the next partial product with the early `Add` |
| `EarlyRevision.Multiply` | main.go:559-575 | requires `MultiplySafe` (no round reaches a failing `subtractor`); the digits reset to "0" with the flag kept, then the partial products added through the early `Add` (`Products`); the sign is never set |
| `EarlyRevision.NonNegativeProducts` | main.go:559-575 | from a non-negative receiver every round adds, giving the digits of the later `Multiply` and a clear flag |
| `EarlyRevision.NonNegativeSafe` | main.go:559-575 | from a non-negative receiver no round reaches a failing `subtractor` |
| `EarlyRevision.MultiplyDropsSign` | main.go:559-575 | a positive receiver times a negative `x` reads as the positive product of the magnitudes, not the product of the integers |
| `EarlyRevision.MultiplyExample` | main.go:559-575 | -3 times 3 comes out as -1 |
| `EarlyRevision.DivideByInt` | main.go:602-632 | requires `0 < divisor <= Val(value)`; returns the canonical floor quotient and leaves the receiver unchanged |

## Left out

- `log.Fatal` on a zero divisor is process termination. It is the precondition `divisor > 0` of both `DivideByInt`s.
- Every other panic is a precondition too (indexing an emptied buffer, `v[0]` on ""), and so is the non-terminating `Divide` by "0".
- Machine-width `int` is not modelled: the `subtractions` counter of `Divide`, `overflow * 10` in `DivideByInt` and the divisor are unbounded. A negative divisor is excluded, since Go's truncating `/` and `%` would print '-' into the quotient.
- Strings are sequences of characters. The rune (UTF-8) decoding of `runes()`, `reverse` and `checkDigits` is left out. A multi-byte character is one element here, not several bytes.
- `fmt.Fprintf(.., "%d", d)` on a `strings.Builder` is appending the digit character `DigitChar(d)` to a sequence. `strconv.Itoa` on a non-negative int is `NatToDecimal`. `strings.Repeat("0", n)` is `Zeros(n)`.
- The accessors `getValue`, `setValue`, `runes` and `length` are inlined as field reads and writes.
- `BigInts.BigInt.Multiply` requires the receiver and `x` to be different objects. With `b.Multiply(b)` the loop bound re-reads the length after the digits are reset to "0", and that case is not modelled. `EarlyRevision.Multiply` has the same precondition.
- The unused error result of `NewBigInt` inside `Multiply` is dropped. The partial products are always valid.
- The running time of `Divide` by repeated subtraction is not modelled.
- The `main` drivers of both files, which only build values and print them, are left out. The complete revision's division example is `BigIntLaws.DivideExample`.
- The commented-out long-division routine at the end of `main.go` is left out, because it is not code.

## Findings

| source | as written | input that shows it | evidently intended | confidence | as-written member | corrected member |
|---|---|---|---|---|---|---|
| main.go:121-122 | for equal lengths `compareValues` reads the receiver's digit into `xInt` and `x`'s into `bInt`, so the order within a length is reversed | "1" against "2" answers 1; so 2 + (-1) takes 2 from 1, wraps around and gives -9 | the order of its comment (-1 if b < x), as `bigint/bigint.go:118-127` has it | not executed | `EarlyRevision.SwappedCompareExample`, `EarlyRevision.AddExample` | `Digits.CompareDigitsVal` |
| main.go:559-575 | the early `Multiply` keeps the receiver's flag and adds the partial products with the signed `Add`, never setting the product sign | 3 times -3 gives 9; -3 times 3 gives -1 | the product of the integers, with the sign set from the two flags as `bigint/bigint.go:532-537` does | not executed | `EarlyRevision.MultiplyDropsSign`, `EarlyRevision.MultiplyExample` | `BigIntLaws.MultiplyMeaning` |
| bigint/bigint.go:300-307 | a negative receiver of smaller magnitude plus a non-negative `x` gets `|x| - |b|` with the flag set (likewise main.go:320-327) | -1 + 2 gives -1 | a positive result, as the case table at main.go:277 says | not executed | `BigIntLaws.AddSignExample`, `BigIntLaws.AddMeaning` | `BigIntLaws.IntendedAdd` |
