# NHS number validation, formatting and generation — a Dafny model

This project models the PHP class `NhsNumber` (namespace `ImLiam\NhsNumber`).
The class holds one UK NHS patient number and checks it with the NHS
modulus-11 check-digit rule. Each of the first nine digits is multiplied by a
weight, 10 for the first down to 2 for the ninth. The products are summed, the
sum is reduced modulo 11 and subtracted from 11, and 11 is read as 0. The
number is valid when it consists of exactly ten ASCII digits and this check
value equals the tenth digit.

The class also formats the number in 3-3-4 groups ("907 784 4449"). A static
generator draws random ten-digit integers and keeps those that validate,
optionally without repeats.

Files:

- `php_strings.dfy` (module `PhpStrings`): the PHP primitives the class
  relies on. It models `trim` with PHP's default character set, the `(string)`
  cast of an integer, the `(int)` cast of a digit, and `substr_replace` with
  length 0 (an insertion).
- `nhs_number.dfy` (module `Nhs`): the check value and `validate` as
  functions on the stored string, with lemmas about them. It also holds the
  class `NhsNumber`. The class's `const number` is set once by the
  constructor. Its methods follow the PHP methods: `GetChecksum` keeps the
  `for` loop, `Format` keeps the two insertions, `GetRandomNumbers` keeps the
  `while` loop with its two `continue`s, and each is proved against the
  specification functions.
- `collect.dfy` (module `Collecting`): the generator's accept/reject loop as
  a function of the draws and of an acceptance test, with its properties.
- `nhs_vectors.dfy` (module `NhsVectors`): the concrete cases of the unit
  tests.

The stored number cannot change after construction: `number` is a `const`
and no method has a `modifies` clause. So `validate`, `isValid` and `format`
return the same thing every time they are called on the same object.

`GetChecksum` reads the weights from the same 1-indexed multiplier table as
the source.

The source's regular expression `/^[0-9]{10}$/` has no `D` modifier, so its
`$` also matches just before a final newline. `PatternMatches` models that
case. `PatternOnTrimmed` shows it cannot arise, because the constructor trims,
and `trim` removes a trailing newline.

The generator receives its integers as the sequence `draws`. The source calls
`mt_rand` for them instead. The draws are not required to lie in the range
`mt_rand` is asked for. `AcceptedInRange` proves that every draw which passes
`validate` lies in that range anyway.

The second `substr_replace` offset, 7, counts the space that the first call
inserted. It is therefore index 6 of the original string, and that is what
gives the 3-3-4 grouping "907 784 4449".

## Model

| member | source | states |
|---|---|---|
| `PhpStrings.Trim` | src/NhsNumber.php:38 | `trim` never lengthens the string, and its result is trimmed: it is empty, or it neither starts nor ends with a trim character. |
| `PhpStrings.TrimIsInfix` | src/NhsNumber.php:38 | `trim` returns the infix of the input that lies between a run of leading trim characters and a run of trailing trim characters. |
| `PhpStrings.TrimOfTrimmed` | src/NhsNumber.php:36-39 | `trim` returns a string unchanged exactly when that string is already trimmed. So a string the constructor stored is stored unchanged by a new constructor call. |
| `PhpStrings.TrimIdempotent` | src/NhsNumber.php:36-39 | `trim(trim(x)) == trim(x)`: rebuilding an object from `getNumber()` stores the same string. |
| `PhpStrings.DigitValue` | src/NhsNumber.php:70 | The `(int)` cast of a one-digit string is a value in 0..9. |
| `PhpStrings.NatToDecimal` | src/NhsNumber.php:177 | The decimal numeral of a natural number is non-empty, is made of digits only, and has no leading zero. |
| `PhpStrings.IntToStringDenotes` | src/NhsNumber.php:177 | The `(string)` cast of a non-negative integer is a digit string that reads back as that integer. For a negative integer it is a minus sign followed by a digit string that reads back as the magnitude. |
| `PhpStrings.DecimalRoundTrip` | src/NhsNumber.php:177 | Reading back the numeral of `n` gives `n`. |
| `PhpStrings.DecimalLengthBounds` | src/NhsNumber.php:174 | A numeral of `k` digits denotes a number below 10^k, and at least 10^(k-1) when `k > 1`. |
| `PhpStrings.IntToStringPlain` | src/NhsNumber.php:177 | The string form of an integer contains no trim character, and for a negative integer its first character is not a digit. |
| `PhpStrings.InsertAt` | src/NhsNumber.php:135-136 | `substr_replace(s, ins, off, 0)` keeps `s[..off]`, then holds `ins`, then `s[off..]`. |
| `PhpStrings.RemoveSpacesConcat` | src/NhsNumber.php:132-139 | Removing spaces from a concatenation is the same as removing them from each part and concatenating the results. |
| `Nhs.PatternMatches` | src/NhsNumber.php:65 | `/^[0-9]{10}$/` accepts every string of ten digits. Whatever it accepts has at least ten characters, and the first ten are digits, so the checksum code only ever reads digits. |
| `Nhs.WeightedSum` | src/NhsNumber.php:85-98 | The sum of digit times weight over the first `n` digits is at most 90 per digit. It is never negative while the weights stay positive, that is for `n` up to 10. |
| `Nhs.CheckValue` | src/NhsNumber.php:105-115 | The check value (11 minus the sum modulo 11, with 11 read as 0) lies in 0..10 and completes the weighted sum to a multiple of 11. |
| `Nhs.Validation` | src/NhsNumber.php:63-77 | `validate` gives the format error exactly when the pattern rejects the string, so a malformed string never reaches the check-digit comparison. It succeeds only if the weighted sum of the first nine digits plus the tenth digit is a multiple of 11, and only if the check value is not 10. |
| `Nhs.Grouped` | src/NhsNumber.php:132-139 | The display form has length 12 and spaces at indices 3 and 7. Digit `k` moves right by the number of spaces before it: 0 for `k < 3`, 1 for `k < 6`, 2 otherwise. |
| `Nhs.Accepts` | src/NhsNumber.php:176-180 | An integer draw that passes `validate` after the cast and `trim` has a string form of exactly ten digits. |
| `Collecting.Collect` | src/NhsNumber.php:169-190 | The loop never shortens what is held and takes at most one number per draw: the result is at least as long as what was held and at most that plus the number of draws. |
| `Collecting.CollectFromEmpty` | src/NhsNumber.php:169-190 | Started with nothing held, the loop collects accepted draws only. They are distinct when `unique`, at most `count`, and in draw order. Every accepted draw is held when the loop stops short. Without `unique` the result is the first `count` accepted draws; with `unique` it is the first `count` accepted draws that are new. |
| `Nhs.GeneratedInRange` | src/NhsNumber.php:174-180 | Every number the generator's loop collects lies in [1000000000, 9999999999]. |
| `Nhs.MultipliersAreWeights` | src/NhsNumber.php:19-29 | The multiplier table is defined exactly on positions 1..9. Position `p` has multiplier `11 - p`: 10 down to 2. |
| `Nhs.CheckValueCharacterised` | src/NhsNumber.php:105-115 | The check value lies in 0..10. It is the only value in that range that makes the weighted sum plus the value a multiple of 11. |
| `Nhs.PatternOnTrimmed` | src/NhsNumber.php:65 | On a trimmed string, the pattern accepts exactly the strings made of ten ASCII digits. |
| `Nhs.ValidationCases` | src/NhsNumber.php:69-76 | `validate` succeeds exactly when the pattern matches and the check value equals the digit at index 9. It fails with the check-digit error exactly when the pattern matches and the two differ. Both directions are stated. |
| `Nhs.CheckValueTenRejected` | src/NhsNumber.php:108-112 | A well-formed string whose check value is 10 always fails with the check-digit error and never succeeds. |
| `Nhs.ValidIffModulus11` | src/NhsNumber.php:63-115 | A ten-digit string passes `validate` exactly when its weighted sum, with weights 10 down to 1 over all ten digits, is a multiple of 11. |
| `Nhs.GroupedShape` | src/NhsNumber.php:132-139 | Around its two spaces the formatted string holds the groups `s[..3]`, `s[3..6]` and `s[6..]`, in order. |
| `Nhs.GroupedUngroups` | src/NhsNumber.php:132-139 | For ten digits, deleting the spaces from the formatted string gives the number back. |
| `Nhs.AcceptedInRange` | src/NhsNumber.php:174-180 | An integer whose string form passes `validate` lies in [1000000000, 9999999999]. |
| `Nhs.AcceptedIsTenDigits` | src/NhsNumber.php:157-160 | An accepted integer's string form is ten digits and passes `validate` as it is. |
| `Collecting.Filter` | src/NhsNumber.php:176-180 | There are no more accepted draws than draws, and each one passes the test. |
| `Collecting.FilterKeepsAccepted` | src/NhsNumber.php:173-186 | The accepted draws are a subsequence of the draws, in draw order, and every draw that passes the test is among them. |
| `Collecting.Take` | src/NhsNumber.php:173 | The first `n` elements, or all of them if there are fewer. |
| `Collecting.CollectExtends` | src/NhsNumber.php:182-186 | The loop only appends. The numbers already held stay as a prefix, and what it adds is a subsequence of the draws, in draw order. |
| `Collecting.CollectAccepted` | src/NhsNumber.php:176-180 | Every number held passes the acceptance test. |
| `Collecting.CollectDistinct` | src/NhsNumber.php:182-184 | With `unique`, no number is held twice. |
| `Collecting.CollectBound` | src/NhsNumber.php:173 | The loop never holds more than `count` numbers. |
| `Collecting.CollectExhaustive` | src/NhsNumber.php:173-187 | If the loop ends with fewer than `count` numbers, then every draw that passed the test is held. |
| `Collecting.CollectNonUnique` | src/NhsNumber.php:169-190 | Without `unique`, the result is the first `count` accepted draws. |
| `Collecting.FirstNew` | src/NhsNumber.php:182-184 | Keeping only the first occurrence of each value not already seen never lengthens the sequence, and no kept value was already seen. |
| `Collecting.CollectUnique` | src/NhsNumber.php:173-186 | With `unique`, the result is what was held followed by the first accepted draws that are neither held already nor repeats of an earlier accepted draw, up to `count` in all. |
| `Collecting.CollectOne` | src/NhsNumber.php:159 | Asking for one number gives the first accepted draw, if there is one. |
| `Nhs.NhsNumber.constructor` | src/NhsNumber.php:36-39 | The stored number is the trimmed input. |
| `Nhs.NhsNumber.GetNumber` | src/NhsNumber.php:122-125 | Returns the stored number unchanged. Trimming it again changes nothing. |
| `Nhs.NhsNumber.GetChecksum` | src/NhsNumber.php:85-98 | The `for` loop over indices 0..8 returns the weighted sum of the first nine digits. |
| `Nhs.NhsNumber.GetChecksumTotal` | src/NhsNumber.php:105-115 | Returns the check value. It lies in 0..10 and completes the weighted sum to a multiple of 11. |
| `Nhs.NhsNumber.Validate` | src/NhsNumber.php:63-77 | Equals `Validation(number)`. It gives the format error exactly when the stored string is not ten digits. It succeeds exactly when the string is ten digits and the check value equals the tenth digit. |
| `Nhs.NhsNumber.IsValid` | src/NhsNumber.php:46-55 | True exactly when `validate` succeeds, so false for both failure kinds. Equivalently: ten digits whose full weighted sum is a multiple of 11. |
| `Nhs.NhsNumber.Format` | src/NhsNumber.php:132-139 | The two insertions give the 3-3-4 grouping: length 12, spaces at indices 3 and 7. For ten digits, deleting the spaces gives the number back. |
| `Nhs.NhsNumber.ToString` | src/NhsNumber.php:146-149 | Returns the same string as `format`. |
| `Nhs.NhsNumber.GetRandomNumbers` | src/NhsNumber.php:169-190 | The `while` loop's result equals `Collect` on the draws. Every value passes `validate` and lies in [1000000000, 9999999999]. With `unique` the values are pairwise distinct. There are at most `count` values, in draw order. With fewer than `count`, every accepted draw is held. Without `unique`, the result is the first `count` accepted draws. With `unique`, it is the first `count` distinct accepted draws. |
| `Nhs.NhsNumber.GetRandomNumber` | src/NhsNumber.php:157-160 | Returns the string form of the first accepted draw, or nothing when no draw is accepted. The string is ten digits and passes `validate`. |
| `NhsVectors.ListedAt` | tests/Unit/NhsNumberTest.php:11-22 | The listed number at each index is already trimmed and passes `validate`. |
| `NhsVectors.ListedNumbersAreValid` | tests/Unit/NhsNumberTest.php:11-22 | Each of the ten listed numbers is already trimmed and passes `validate`. |
| `NhsVectors.SentenceRejected` | tests/Unit/NhsNumberTest.php:25-29 | "Hello world." fails with the format error. |
| `NhsVectors.ShortIntegerRejected` | tests/Unit/NhsNumberTest.php:31-36 | The integer 12345 fails with the format error. |
| `NhsVectors.FourDigitsNotValid` | src/NhsNumber.php:46-55 | `isValid` is false for "1000". |
| `NhsVectors.WrongCheckDigitRejected` | src/NhsNumber.php:69-74 | "1234567890" is well formed but fails with the check-digit error. |
| `NhsVectors.FormatExample` | tests/Unit/NhsNumberTest.php:73-78 | "9077844449" formats as "907 784 4449". |

## Left out

- Random draws: `mt_rand` is replaced by the caller-supplied sequence `draws`. The source's loop has no bound and ends only when `count` numbers are held. The model's loop also stops when the draws run out, and its contract then says what was collected.
- `Nhs.NhsNumber.GetRandomNumber`: returns `None` when no draw is accepted. The source in that case simply keeps drawing.
- PHP's coercion of constructor arguments: the constructor takes a string. An integer argument, such as a generator draw or the test's 12345, is first cast with `IntToString`, which models PHP converting the integer to a string for `trim`. The test with the float literal 12345678901234567890, whose string form is "1.2345678901235E+19", is not modelled.
- `InvalidNhsNumberException` and its message texts. `InvalidNhsNumberException.php` is not part of this model. The two failure kinds are the `ValidationError` constructors, and exceptions become the `Outcome` value.
- Byte offsets: PHP strings are byte strings, and `substr_replace`, `substr` and `strlen` count bytes. The model's strings are sequences of characters, so its offsets and lengths count characters. They agree for ASCII input, and every string `validate` accepts is ASCII. For other input they differ: for "é123456789" PHP inserts the spaces after the first three bytes, giving "é1 234 56789", while counting characters gives "é12 345 6789".
- `Nhs.NhsNumber.Format` and `Nhs.NhsNumber.ToString`: require a stored string of exactly ten characters. For other lengths `substr_replace` clamps the offsets, and that library behaviour is not modelled.
- `Nhs.NhsNumber.GetChecksum` and `Nhs.NhsNumber.GetChecksumTotal`: require the first nine characters to be digits. The source calls them only after the pattern check. For other strings PHP's arithmetic on non-numeric strings would raise an error, which is not modelled.
- Integer width: PHP integers are 64-bit. Every value here stays below 10^10, and the weighted sum is at most 486. So unbounded integers behave the same. PHP's `%` truncates toward zero, but the sum is never negative, so it agrees with Dafny's `%`.
