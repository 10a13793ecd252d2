# BigInteger engine in Dafny

This project models the arbitrary-precision integer of `src/BigInteger.cpp`
and proves what each operation computes. A value is a sign flag and a vector of
base-10 digits, least significant first (`Representation.BigInteger`). The
abstraction `Magnitude.Mag` is the natural number Σ digits[i]·10^i, and
`Representation.Value` is that number with the flag's sign.

The modules follow the engine's pieces:

- `Magnitude`: digits, powers of ten, `Mag`, and the normal forms.
  - `Trimmed` means no most-significant zero unless the vector has length 1; the empty vector counts.
  - `Normal` means trimmed and non-empty.
- `Representation`: the value type, the `Result` of an operation that can throw, and `removeLeadingZeros`.
- `Comparison`: `compareAbs` and `== != < > <= >=`.
  - `MagKey` is twice the magnitude, plus one when there are digits, so `[]` sits just below `[0]`, as in `compareAbs`.
  - `OrderKey` is `MagKey` for a non-negative flag, mirrored below zero for a negative one. On trimmed values, `operator<` is the order of `OrderKey`. A negatively-flagged zero sits just below zero.
- `Additive`: `addAbs`, `subtractAbs`, binary `+`, binary `-` and unary `-`.
- `Text`: the string and int constructors, and the text `operator<<` writes.
- `Multiplicative`: schoolbook `operator*` into a zero-filled array buffer.
- `Division`: `operator/` with its binary digit search, and `operator%`.
  - It also holds the truncating reference definitions `TruncDiv` and `TruncRem`, and corrected versions of both operators (see Findings).

The code's quirks are kept as written:

- The source means zero to be non-negative: `removeLeadingZeros` clears the flag of `[0]` (src/BigInteger.cpp:24-25), and unary `-` does not flag `[0]` (src/BigInteger.cpp:93). Even so, the sign is assigned after normalization in `+`, `*` and `/`, and `%` keeps the dividend's flag on a zero remainder. So `(-5) + 5`, `(-1) * 0`, `3 / (-5)` and `(-6) % 3` give a zero that carries the negative flag.
- `==` is structural, so such a zero is not `==` to `BigInteger(0)`.
- A string with no digit characters parses to an empty digit vector.

Every value the constructors and operators build is `Trimmed`. The
operations that depend on that require it.

Where the header `include/BigInteger.h` and the implementation disagree, the
model follows the implementation:

- The header declares a `BASE` of 10^9 and a `blocks` field, but the digits are base 10.
- The header declares functions that have no body.

The loops of `removeLeadingZeros`, `addAbs`, `subtractAbs`, `operator*` and
`operator/` become `while` loops with invariants. The one exception is the
scan of `compareAbs` (src/BigInteger.cpp:31-34): it only reads and returns, so
it is the recursive function `Comparison.CompareFrom`. The multiplication
buffer and the quotient buffer are arrays updated in place. Expression-only
operations are functions.

## Model

| member | source | states |
|---|---|---|
| `Representation.RemoveLeadingZeros` | src/BigInteger.cpp:21-26 | The magnitude is kept. Only most-significant zeros are removed, and the result is trimmed. A non-empty input gives a non-empty result, and the digits of an input that is already trimmed come back unchanged (the flag of `[0]` is still cleared). The flag is cleared exactly when the result is `[0]`. |
| `Text.Parse` | src/BigInteger.cpp:8-17 | The flag is set iff the text starts with `-` and the value is not `[0]` (so `"-000"` is canonical zero). The magnitude is the number spelled by the digit characters after the optional `-`; all other characters are skipped. The digits are empty iff there is no digit character, and the result is trimmed. |
| `Text.NatText` | src/BigInteger.cpp:19 | The decimal text `std::to_string` writes for a natural number: non-empty, all digits, and it spells the number. |
| `Text.IntText` | src/BigInteger.cpp:19 | The text for an int: a leading `-` iff the int is negative, and the digits spell its absolute value. |
| `Text.FromInt` | src/BigInteger.cpp:19 | `BigInteger(int)` denotes exactly the int. Its digits are normal, and it is negative iff the int is. |
| `Text.DigitText` | src/BigInteger.cpp:180-181 | The digits are written most-significant first, one character per digit (character k is digit len(d)-1-k), and the text spells `Mag`. |
| `Text.Render` | src/BigInteger.cpp:178-183 | The text written for a value: a `-` iff the flag is set, then the digits most-significant first. Its length is the digit count plus the sign. |
| `Text.RoundTrip` | src/BigInteger.cpp:178-183 | Parsing the rendered text of a trimmed value gives back the same digits. The sign comes back except on a negatively-flagged `[0]`, so every other value comes back `==`. |
| `Comparison.CompareFrom` | src/BigInteger.cpp:31-35 | The scan from the top returns -1, 0 or 1. Its meaning is stated by `Comparison.CompareFromOrder`. |
| `Comparison.CompareAbs` | src/BigInteger.cpp:28-36 | Returns -1, 0 or 1, and 0 exactly when the digit vectors are equal. |
| `Comparison.CompareFromOrder` | src/BigInteger.cpp:31-35 | On vectors of equal length, the scan from the top orders the prefixes by magnitude: 0, negative and positive exactly for equal, smaller and larger. |
| `Comparison.CompareAbsAntisymmetric` | src/BigInteger.cpp:28-36 | Swapping the operands negates the result. |
| `Comparison.CompareAbsTrimmed` | src/BigInteger.cpp:28-36 | On trimmed vectors, "not smaller" means a larger magnitude, or an equal magnitude held in at least as many digits. |
| `Comparison.CompareAbsOrder` | src/BigInteger.cpp:28-36 | On normal vectors, the result is -1, 0 or 1 exactly as the magnitudes are <, = or >. |
| `Comparison.Eq` | src/BigInteger.cpp:151-153 | `==` holds exactly when the two values are equal as data: same flag, same digits. |
| `Comparison.Ne` | src/BigInteger.cpp:155-157 | `!=` holds exactly when the two values differ as data. |
| `Comparison.Lt` | src/BigInteger.cpp:159-164 | `<` never holds between equal values. A negative flag is below a non-negative one, whatever the digits. |
| `Comparison.Gt` | src/BigInteger.cpp:166-168 | `>` never holds between equal values. A non-negative flag is above a negative one, whatever the digits. |
| `Comparison.Le` | src/BigInteger.cpp:170-172 | `<=` is reflexive, and a negative flag is `<=` a non-negative one. |
| `Comparison.Ge` | src/BigInteger.cpp:174-176 | `>=` is reflexive, and a non-negative flag is `>=` a negative one. |
| `Comparison.CompareAbsKey` | src/BigInteger.cpp:28-36 | On trimmed vectors, including the empty one, the result is negative, 0 or positive exactly as the magnitude keys are <, = or >. |
| `Comparison.EqIsKeyEquality` | src/BigInteger.cpp:151-153 | On trimmed values, `==` holds exactly when the two values have the same place in the order. |
| `Comparison.LtIsKeyOrder` | src/BigInteger.cpp:159-164 | On trimmed values, `<` is the order of `OrderKey`. Negative values come first, and two negative values compare by reversed magnitude. |
| `Comparison.LtMeaning` | src/BigInteger.cpp:159-164 | On normal values, `<` is the integer order. There is one extra case: a negatively-flagged zero is below a non-negative zero. |
| `Comparison.DerivedComparisons` | src/BigInteger.cpp:155-176 | On trimmed values, `>`, `<=`, `>=` and `!=` are the derived forms of the same order. |
| `Comparison.LeNonNegative` | src/BigInteger.cpp:170-172 | On non-negative normal values, `<=` compares magnitudes. |
| `Comparison.LtStrictTotalOrder` | src/BigInteger.cpp:159-164 | `<` is irreflexive and transitive. Any two trimmed values, the empty vector included, are ordered one way or the other, or are `==`, and exactly one of these holds. |
| `Additive.AddDigits` | src/BigInteger.cpp:40-48 | The carry loop yields the sum of the magnitudes. Its length is between the longer length and one more, and a final extra digit is exactly 1. It is empty iff both inputs are. |
| `Additive.AddAbs` | src/BigInteger.cpp:38-50 | The result is non-negative and its magnitude is the sum of the magnitudes. Its length is between the longer length and one more. It is empty iff both operands are, and trimmed when they are. |
| `Additive.SubtractDigits` | src/BigInteger.cpp:55-64 | The borrow loop yields one digit per digit of the larger operand and the exact difference of the magnitudes. Its proof shows the final borrow is 0. |
| `Additive.SubtractAbs` | src/BigInteger.cpp:52-67 | The operands are swapped when the first is smaller. The result is non-negative and trimmed, and its magnitude is the difference of the two magnitudes. It is empty iff both operands are. |
| `Additive.Add` | src/BigInteger.cpp:69-85 | The value is `Value(a) + Value(b)`. Equal signs keep the sign. With opposite signs, a zero result carries the sign of the operand with at least as many digits (the first one on a tie). The result is trimmed. |
| `Additive.Negate` | src/BigInteger.cpp:91-96 | The value is negated and the digits are kept. The sign flips on every vector except `[0]`, which comes back unchanged. |
| `Additive.NegateInvolutive` | src/BigInteger.cpp:91-96 | `-(-a) == a` for every value. |
| `Additive.Sub` | src/BigInteger.cpp:87-89 | The value is `Value(a) - Value(b)`. The sign follows `Add` on `a` and `-b`, including the sign of a zero result. |
| `Multiplicative.RowDone` | src/BigInteger.cpp:103-108 | A finished row has added `a[i]·10^i·abs(b)` to the partial product. |
| `Multiplicative.WriteInBounds` | src/BigInteger.cpp:103-106 | While a carry is pending past the end of `b`, the write position `i+j` is below `len(a)+len(b)`. |
| `Multiplicative.MultiplyColumn` | src/BigInteger.cpp:104-107 | Storing `cur % 10` at `i+j` and carrying `cur / 10` preserves the row's partial sum. |
| `Multiplicative.SignedProduct` | src/BigInteger.cpp:111 | Multiplying the magnitudes and XOR-ing the flags multiplies the values. |
| `Multiplicative.Multiply` | src/BigInteger.cpp:98-113 | The magnitude is abs(a)·abs(b) and the value is `Value(a)·Value(b)`. The flag is the XOR of the operands' flags, set after normalization. The result is trimmed, and empty iff both operands are. |
| `Division.TruncDivRem` | src/BigInteger.cpp:143 | The reference C++ quotient and remainder satisfy q·y + r = x and abs(r) < abs(y). The remainder is zero or signed like x, and abs(q)·abs(y) ≤ abs(x) (rounding toward zero). |
| `Division.MagNines` | src/BigInteger.cpp:133-138 | A quotient that is n nines denotes 10^n - 1. |
| `Division.ProbeDigit` | src/BigInteger.cpp:132-133 | The probe `divisor * BigInteger(m) <= current` holds exactly when divisor·m fits under current. |
| `Division.FitsBelow` | src/BigInteger.cpp:129-137 | Whether a digit fits is monotone, which is what makes the binary search correct. |
| `Division.SearchDigit` | src/BigInteger.cpp:129-137 | The binary search returns the largest x in [0,9] with `divisor·x <= current`: it fits, x+1 does not fit unless x = 9, and every digit that fits is at most x. |
| `Division.DivisionStep` | src/BigInteger.cpp:126-139 | One pass keeps `10·current + digit = divisor·x + next`. A non-zero divisor keeps `0 <= next < divisor`; a zero divisor makes x = 9. |
| `Division.LongDivision` | src/BigInteger.cpp:123-140 | There is one quotient digit per dividend digit. The quotient magnitude is abs(a) div abs(b) for a non-zero divisor, and all nines for a zero one. |
| `Division.QuotientValue` | src/BigInteger.cpp:142-143 | Magnitude abs(a) div abs(b) with XOR-ed flags is the quotient rounded toward zero. |
| `Division.Quotient` | src/BigInteger.cpp:119-144 | The sign is the XOR of the flags. The result is trimmed, no longer than the dividend, and empty iff the dividend is. It is the truncated quotient for a non-zero divisor, and 10^n - 1 in n nines for a zero one. |
| `Division.Divide` | src/BigInteger.cpp:115-145 | Throws "Division by zero" exactly for a divisor structurally equal to `[0]` without the flag. Otherwise it gives the truncated quotient when the divisor is non-zero, and n nines when it is a flagged zero or empty. |
| `Division.DivideChecked` | src/BigInteger.cpp:115-117 | With the divisor check on the magnitude, it throws exactly for value zero, and every success is the truncated quotient. |
| `Division.RemainderValue` | src/BigInteger.cpp:148 | `a - (a/b)·b` with the truncated quotient is `TruncRem`. |
| `Division.Mod` | src/BigInteger.cpp:147-149 | Throws exactly when `/` throws. For a non-zero divisor the result is `TruncRem`: below abs(b) in size, and zero or signed like a. A zero remainder of a non-zero divisor is `[0]` with the dividend's flag, so `(-6) % 3` is a negatively-flagged zero. For a divisor of magnitude zero that gets through, the dividend's value comes back. |
| `Division.ZeroRemainderFlag` | src/BigInteger.cpp:147-149 | When `a - (a/b)·b` is zero, it is `[0]` with the dividend's flag. |
| `Division.ModChecked` | src/BigInteger.cpp:147-149 | Built on `DivideChecked`, it throws exactly for a zero divisor, and every success is `TruncRem`. A zero remainder is `[0]` with the dividend's flag. |
| `Division.SevenAndNegativeZero` | src/BigInteger.cpp:111 | `BigInteger(-1) * BigInteger(0)` is `[0]` with the negative flag. |
| `Division.DivideByNegativeZero` | src/BigInteger.cpp:116-117 | 7 / (-1·0) does not throw; it gives -9. |
| `Division.DivideByEmpty` | src/BigInteger.cpp:116-117 | 7 / `BigInteger("")` does not throw; it gives 9. |
| `Division.ModByNegativeZero` | src/BigInteger.cpp:147-149 | 7 % (-1·0) does not throw; it gives 7. |

## Left out

- `src/main.cpp` is not part of this model: it is a console loop, regular-expression matching and `std::stoll` calls, that is, I/O and library wrappers.
- Functions declared in `include/BigInteger.h` with no body in the implementation are not modelled: factorial and its variants, `isPrime`, `abs`, `gcd`, the Karatsuba and grade-school multipliers, and the algorithm switch. The threaded factorial and its concurrency go with them.
- The header's `BASE` of 10^9 and its `blocks` field are not modelled: the implementation never uses them.
- The default constructor is the constant `Representation.Empty`.
- `operator<<`: only the characters it writes are modelled (`Text.Render`), not the stream.
- Exceptions become a `Failure` result carrying the message.
- RemoveLeadingZeros: the in-place update of `this` is modelled as a method that returns the updated value. Operands are passed as `const BigInteger&`, so they are never written. Every in-place update in the source touches an object that is being built or is a local: `removeLeadingZeros` at src/BigInteger.cpp:16, 65, 110, 127 and 142, and the digit writes at src/BigInteger.cpp:106 and 138. No aliasing is lost.
- The digit element type: the header (include/BigInteger.h:39-46) declares `blocks` but no `digits` member. The model takes `digits` to be a vector of an integer type that `operator<<` writes in decimal (`Text.DigitText`, `Text.Render`).
- Parse: `isdigit` is modelled as the C locale's '0'..'9'. The characters of `std::string` are Dafny `char`s.
- FromInt: the int is bounded to the 32-bit range. `std::to_string` is modelled by `Text.IntText`, the decimal text of the int.
- SubtractAbs, Add, Sub, Mod and ModChecked require trimmed digit vectors. As the model states, every value built by the constructors and operators is trimmed. On untrimmed input the source's subtraction can drop its final borrow, and that behaviour is not modelled.
- LtMeaning and LeNonNegative are stated on normal values only. On the empty vector, `<` also puts `[]` just below `[0]` although both denote 0. `Comparison.LtIsKeyOrder` states that case through `OrderKey`.
- Multiply: `long long cur` and `int carry` never come close to overflow (cur ≤ 9 + 81 + 9). Unbounded integers are used.
- Vectors longer than the `int` range are not modelled: `compareAbs` and `operator/` cast `digits.size()` to `int`.

## Findings

| source | as written | input that shows it | evidently intended | confidence | as-written member | corrected member |
|---|---|---|---|---|---|---|
| src/BigInteger.cpp:116 | The divisor check is the structural `other == BigInteger(0)`, so only a non-flagged `[0]` throws. A flagged zero or an empty vector reaches the digit loop, every comparison succeeds, and the quotient is all nines. | 7 / (BigInteger(-1) * BigInteger(0)) gives -9 (`Division.DivideByNegativeZero`). 7 / BigInteger("") gives 9 (`Division.DivideByEmpty`). | Every divisor whose value is zero throws "Division by zero". | not executed | `Division.Divide` | `Division.DivideChecked` |
| src/BigInteger.cpp:148 | `%` inherits the check of `/`: for a flagged or empty zero divisor, the nines are multiplied by zero and the dividend's value is returned. | 7 % (BigInteger(-1) * BigInteger(0)) gives 7 (`Division.ModByNegativeZero`). | Every divisor whose value is zero throws "Division by zero". | not executed | `Division.Mod` | `Division.ModChecked` |
