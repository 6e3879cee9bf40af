# Aadhaar age-verification core, modelled in Dafny

This project models `lib/uidai-kyc.ts` of the 4KYC repository. That file is the
age-verification core behind the repository's HTTP and GraphQL endpoints. It:

- checks the syntax of a 12-digit Aadhaar number with the Verhoeff check-digit
  scheme (`validateAadhaarNumber`);
- encodes the number before it would be sent to the registry
  (`encryptWithZeroKnowledge`, in fact Base 64 of its UTF-8 bytes);
- computes a calendar age (`calculateAge`);
- orchestrates the pipeline (`verifyAgeWithUIDAI`). The pipeline rejects a
  malformed number with a fixed record. Otherwise it answers with a fixed
  success record whose `isAdult` flag is a placeholder: the sum of the input's
  character codes, modulo 3, is non-zero.

Modules, one per component:

- `JsText` (js_text.dfy): JavaScript strings as sequences of UTF-16 code
  units. It holds `replace(/\D/g, '')`, `split('').map(Number)` and the
  `charCodeAt` sum.
- `Utf8` (utf8.dfy): the bytes `Buffer.from(string)` produces.
- `Base64` (base64.dfy): RFC 4648 section 4 encoding, plus a decoder used to
  state the round trip.
- `Verhoeff` (verhoeff.dfy): the tables, the recurrence as a function, the
  imperative check as a method proved equal to it, and the error-detection
  theorems.
- `Age` (age.dfy): `calculateAge` as a method, with the reference date as a
  parameter.
- `UidaiKyc` (uidai_kyc.dfy): the result record, `encryptWithZeroKnowledge`
  and the pipeline as pure functions, and the lemmas about them. The
  `AgeVerificationResult` interface (lib/uidai-kyc.ts:14-18) is the datatype
  of the same name; its optional fields `isAdult` and `message` are
  `Option`s. `Pipeline` returns that record together with the encoded number
  the pipeline prepares for the registry, so the encode step can be spoken
  about.
- `Wrappers` (wrappers.dfy): `Option`, for the optional fields of the result.

Every function here is deterministic by construction, so two calls with the
same input give the same result.

Facts about the code that the model keeps:

- The rejection message is `Invalid Aadhaar number format`.
- The raw input is encoded, not the stripped digits, and the raw input feeds
  the placeholder hash. So separators change the payload and can change
  `isAdult`, but they never change `success`.
- `isAdult` comes from the hash, not from `calculateAge`; no code calls
  `calculateAge`.
- `Verhoeff.Inv` is not in lib/uidai-kyc.ts. It serves only to prove that the
  rows of `d` are permutations and to build check digits.
- The privacy property proved (`UidaiKyc.ResultHidesNumber`) concerns the
  digit sequence of the number only. A result message can share text with an
  input that has no digits at all: the input `format` is rejected with a
  message that contains `format`.

## Model

| member | source | states |
|---|---|---|
| `JsText.StripNonDigits` | lib/uidai-kyc.ts:24-25 | the cleaned text holds only digits, is no longer than the input, and leaves an all-digit input unchanged |
| `JsText.StripConcat` | lib/uidai-kyc.ts:25 | removing non-digits distributes over concatenation: each code unit is kept or dropped independently |
| `JsText.DigitValues` | lib/uidai-kyc.ts:58 | `split('').map(Number)` gives one value per digit, and writing each value back as a digit character gives the original code unit |
| `JsText.CharCodeSum` | lib/uidai-kyc.ts:155 | the `charCodeAt` sum of a string is at most 0xFFFF per code unit |
| `JsText.CharCodeSumOfDigits` | lib/uidai-kyc.ts:155 | on a digit-only string the char-code sum is 48 per digit plus the digit sum |
| `Utf8.Encode` | lib/uidai-kyc.ts:82 | `Buffer.from(data)` gives between one and three bytes per UTF-16 code unit |
| `Utf8.AsciiEncodesToItself` | lib/uidai-kyc.ts:82 | ASCII text, digits included, encodes to the same values, one byte per character |
| `Base64.CharOf` | lib/uidai-kyc.ts:82 | each 6-bit value maps to a character of the RFC 4648 alphabet that decodes back to it and is never the pad character |
| `Base64.Encode` | lib/uidai-kyc.ts:82 | the encoding of n bytes has 4·⌈n/3⌉ characters |
| `Base64.EncodeShape` | lib/uidai-kyc.ts:82 | the encoding is alphabet characters followed by exactly (3 − n mod 3) mod 3 '=' characters |
| `Base64.WholeGroupsUnpadded` | lib/uidai-kyc.ts:82 | a multiple of three bytes encodes to 4 characters per 3 bytes, all in the alphabet, with no padding |
| `Base64.RfcTestVectors` | lib/uidai-kyc.ts:82 | the encoder reproduces the test vectors of section 10 of RFC 4648: "" "Zg==" "Zm8=" "Zm9v" "Zm9vYg==" "Zm9vYmE=" "Zm9vYmFy" |
| `Base64.GroupRoundTrip` | lib/uidai-kyc.ts:82 | decoding one encoded group of 1, 2 or 3 bytes gives those bytes |
| `Base64.RoundTrip` | lib/uidai-kyc.ts:82 | decoding the encoding of any byte sequence gives the sequence back |
| `Verhoeff.Step` | lib/uidai-kyc.ts:61 | one update `d[c][p[i % 8][val]]`; the inverse of the old value applied to the new one recovers the permuted digit |
| `Verhoeff.Fold` | lib/uidai-kyc.ts:60-62 | the running value after the `forEach`; undoing the steps in reverse order leads back to the starting value |
| `Verhoeff.Reverse` | lib/uidai-kyc.ts:58 | `.reverse()` keeps the length and puts element i at index n − 1 − i |
| `Verhoeff.ReverseInvolution` | lib/uidai-kyc.ts:58 | reversing twice gives the sequence back |
| `Verhoeff.ReverseAppend` | lib/uidai-kyc.ts:58 | the last element of a sequence is the first of its reversal |
| `Verhoeff.Checksum` | lib/uidai-kyc.ts:57-64 | the check value of a digit sequence; its last (check) digit is consumed first, at position 0, where it passes unchanged, so it is the starting value of the fold over the other digits |
| `Verhoeff.IsValidAadhaar` | lib/uidai-kyc.ts:23-65 | the verdict of `validateAadhaarNumber`; a valid input holds at least 12 code units, and a digits-only valid input exactly 12 |
| `Verhoeff.ValidateAadhaarNumber` | lib/uidai-kyc.ts:23-65 | the imperative loop answers exactly `IsValidAadhaar`: twelve digits after stripping, and the fold over the reversed digits ends at 0; any other digit count gives false |
| `Verhoeff.PRowIsPermutation` | lib/uidai-kyc.ts:46-55 | every row of the position table `p` maps distinct digits to distinct digits |
| `Verhoeff.DLeftInverse` | lib/uidai-kyc.ts:33-44 | `d` has left inverses: d[inv c][d[c][a]] = a |
| `Verhoeff.DRightInverse` | lib/uidai-kyc.ts:33-44 | `d` has right inverses: d[d[c][inv a]][a] = c |
| `Verhoeff.DRowIsPermutation` | lib/uidai-kyc.ts:33-44 | every row of `d` is injective |
| `Verhoeff.DColumnIsPermutation` | lib/uidai-kyc.ts:33-44 | every column of `d` is injective |
| `Verhoeff.StepInjectiveInDigit` | lib/uidai-kyc.ts:61 | for a fixed running value and position, different digits give different next values |
| `Verhoeff.StepInjectiveInValue` | lib/uidai-kyc.ts:61 | for a fixed digit and position, different running values give different next values |
| `Verhoeff.FoldSeparates` | lib/uidai-kyc.ts:57-62 | two different running values stay different whatever digits follow |
| `Verhoeff.FoldSeparatesConverse` | lib/uidai-kyc.ts:57-62 | two starting values that end at the same running value are equal |
| `Verhoeff.FoldDetectsSubstitution` | lib/uidai-kyc.ts:57-62 | replacing any one consumed digit by another changes the final running value |
| `Verhoeff.ChecksumDetectsSubstitution` | lib/uidai-kyc.ts:57-64 | any single-digit substitution in a digit sequence changes its check value |
| `Verhoeff.CheckDigitUnique` | lib/uidai-kyc.ts:57-64 | at most one last digit completes a prefix to check value 0 |
| `Verhoeff.StepBackOfStep` | lib/uidai-kyc.ts:61 | undoing a step gives the value before it |
| `Verhoeff.StepBack` | lib/uidai-kyc.ts:61 | the running value before a step is recovered from the value after it |
| `Verhoeff.FoldBackIsInverse` | lib/uidai-kyc.ts:57-62 | starting from `FoldBack(t, i, vs)`, consuming `vs` ends at `t` |
| `Verhoeff.CheckDigitExists` | lib/uidai-kyc.ts:57-64 | every digit sequence has a last digit that brings the check value to 0 |
| `Verhoeff.StripAfterDigitUpdate` | lib/uidai-kyc.ts:25 | changing the digit at input position j changes exactly one element of the cleaned text, and to the same new digit |
| `Verhoeff.SingleDigitErrorDetected` | lib/uidai-kyc.ts:23-65 | changing one digit of a valid number into another digit makes it invalid, with or without separators |
| `Verhoeff.StripAfterInsertion` | lib/uidai-kyc.ts:25 | inserting a non-digit leaves the cleaned text unchanged |
| `Verhoeff.NonDigitIgnored` | lib/uidai-kyc.ts:25-30 | inserting or removing a non-digit never changes validity |
| `Verhoeff.WrongLengthRejected` | lib/uidai-kyc.ts:27-30 | input whose digit count is not 12 is invalid |
| `Verhoeff.ChecksumOfSequentialDigits` | lib/uidai-kyc.ts:57-64 | 123456789012 has check value 2 |
| `Verhoeff.ChecksumOfValidNumber` | lib/uidai-kyc.ts:57-64 | 234123412346 has check value 0 |
| `Age.CalculateAge` | lib/uidai-kyc.ts:88-98 | the result is the age on the reference date: the birthday that many years on has come, and the next has not; it is the year difference minus 1 exactly when the reference (month, day) precedes the birth (month, day) |
| `Age.AgeIsUnique` | lib/uidai-kyc.ts:88-98 | only one age fits a pair of dates |
| `Age.AgeExamples` | lib/uidai-kyc.ts:88-98 | born 15 March 2006: 17 on 14 March 2024, 18 on 15 March 2024; born 29 February 2000: 23 on 28 February 2024, 24 on 1 March 2024 |
| `UidaiKyc.EncryptWithZeroKnowledge` | lib/uidai-kyc.ts:77-83 | the output has 4·⌈n/3⌉ characters for n UTF-8 bytes, and Base 64 decoding gives those bytes back, so nothing is hidden |
| `UidaiKyc.VerifyAgeWithUidai` | lib/uidai-kyc.ts:115-169 | `success` holds exactly for a valid number; `isAdult` is present exactly on success; the message is always one of the two fixed texts |
| `UidaiKyc.Pipeline` | lib/uidai-kyc.ts:118-169 | `success` holds exactly for a valid number; the encode step is reached exactly when the run succeeds, and its payload Base 64-decodes to the UTF-8 bytes of the raw input |
| `UidaiKyc.InvalidInputRejected` | lib/uidai-kyc.ts:118-123 | an invalid number gets exactly `{success: false, message: 'Invalid Aadhaar number format'}`, with no `isAdult`, and the run stops before the encode step |
| `UidaiKyc.ValidInputAccepted` | lib/uidai-kyc.ts:154-169 | a valid number gets `{success: true, isAdult: (Σ charCode) % 3 != 0, message: 'Age verification completed successfully'}` |
| `UidaiKyc.BareDigitsAdultFlag` | lib/uidai-kyc.ts:155-156 | for a valid number written as twelve bare digits, `isAdult` holds exactly when the digit sum is not a multiple of 3 |
| `UidaiKyc.TwelveDigitHash` | lib/uidai-kyc.ts:155-156 | for twelve digit code units, the `charCodeAt` sum and the digit sum agree modulo 3 |
| `UidaiKyc.BareDigitsPayload` | lib/uidai-kyc.ts:126 | for twelve bare digits the pipeline's payload is 16 alphabet characters without padding |
| `UidaiKyc.MessagesHaveNoDigit` | lib/uidai-kyc.ts:121 | neither result message contains a decimal digit |
| `UidaiKyc.ResultHidesNumber` | lib/uidai-kyc.ts:118-169 | for an input with at least one digit, no result message contains the input's digit sequence; `isAdult` is only a boolean |
| `UidaiKyc.SuccessIgnoresSeparators` | lib/uidai-kyc.ts:118 | inserting a non-digit never changes `success` |
| `UidaiKyc.RejectedExample` | lib/uidai-kyc.ts:118-123 | "123456789012" is rejected |
| `UidaiKyc.AcceptedExample` | lib/uidai-kyc.ts:118-169 | "234123412346" is accepted |

## Left out

- The `async` wrapper, the `Promise` and the simulated one-second delay
  (lib/uidai-kyc.ts:115, 147) are timing, not logic. The pipeline is a pure
  function.
- The `try`/`catch` of the pipeline and its 'Failed to verify age. Please try
  again.' record (lib/uidai-kyc.ts:116, 170-175) are left out. None of the
  modelled steps can throw, so that branch is unreachable in the model.
- `new Date()` in `calculateAge` is a clock read. The reference date is a
  parameter instead.
- The `Date` object itself, with its local-time conversion and timestamp
  parsing, is a foreign library. A date is the triple its getters return, and
  the model puts no calendar-validity requirement on it, just as the code
  puts none.
- `Buffer` is a foreign call. It is modelled by UTF-8 encoding (a lone
  surrogate becomes U+FFFD) followed by RFC 4648 Base 64. The UTF-8 step has
  no decoder, so its round trip is stated only for ASCII input.
- `Base64.Decode` is not in the source; it only states the round trip. It
  accepts non-zero pad bits in a final group, which RFC 4648 section 3.5
  allows.
- `checkRateLimit` (lib/uidai-kyc.ts:182-186) is a stub that always returns
  `true`, so there is nothing to model.
- The commented-out registry `fetch` (lib/uidai-kyc.ts:128-140) is network I/O
  that the code does not perform.
- JavaScript numbers are doubles. The model uses unbounded integers. The
  char-code sum stays exact for any string shorter than 2^37 code units.
- app/api/kyc/verify/route.ts, app/api/graphql/route.ts, app/page.tsx and
  app/layout.tsx are HTTP, GraphQL and UI glue around the pipeline and are not
  part of this model.
