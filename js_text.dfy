/**
 * JavaScript strings as lib/uidai-kyc.ts sees them.
 *
 * A JavaScript string is a sequence of UTF-16 code units: `split('')`
 * yields one element per code unit, `charCodeAt(0)` returns a code unit and
 * the regular expression class `\D` tests code units against '0'..'9'.
 * A Dafny `char` cannot hold a lone surrogate, so the model keeps code units
 * as integers.
 */
module JsText {

  /** One UTF-16 code unit, the value `charCodeAt` returns. */
  type CodeUnit = x: int | 0 <= x < 0x1_0000

  type JsString = seq<CodeUnit>

  type Byte = x: int | 0 <= x < 0x100

  /** The value of one decimal digit, as `Number('7')` gives it. */
  type Digit = x: int | 0 <= x < 10

  const Zero: CodeUnit := '0' as int

  /** The code units the class `\d` matches (ASCII digits only, no `u` flag). */
  predicate IsDigit(u: CodeUnit) {
    Zero <= u <= '9' as int
  }

  predicate AllDigits(s: JsString) {
    forall i :: 0 <= i < |s| ==> IsDigit(s[i])
  }

  /** `s.replace(/\D/g, '')`: the digit code units of `s`, in order. */
  function StripNonDigits(s: JsString): (r: JsString)
    ensures |r| <= |s|
    ensures AllDigits(r)
    ensures AllDigits(s) ==> r == s
  {
    if s == [] then []
    else (if IsDigit(s[0]) then [s[0]] else []) + StripNonDigits(s[1..])
  }

  /** Stripping distributes over concatenation: each code unit is kept or dropped on its own. */
  lemma {:induction false} StripConcat(a: JsString, b: JsString)
    ensures StripNonDigits(a + b) == StripNonDigits(a) + StripNonDigits(b)
  {
    if a == [] {
      assert a + b == b;
    } else {
      var head := if IsDigit(a[0]) then [a[0]] else [];
      assert (a + b)[1..] == a[1..] + b;
      calc {
        StripNonDigits(a + b);
        head + StripNonDigits(a[1..] + b);
        { StripConcat(a[1..], b); }
        head + (StripNonDigits(a[1..]) + StripNonDigits(b));
        (head + StripNonDigits(a[1..])) + StripNonDigits(b);
      }
    }
  }

  /** `clean.split('').map(Number)` on a string of digits. */
  function DigitValues(clean: JsString): (r: seq<Digit>)
    requires AllDigits(clean)
    ensures |r| == |clean|
    ensures forall i :: 0 <= i < |clean| ==> DigitText(r)[i] as int == clean[i]
  {
    seq(|clean|, i requires 0 <= i < |clean| => clean[i] - Zero)
  }

  /** The text of a digit sequence, as a Dafny string. */
  function DigitText(ds: seq<Digit>): (r: string)
  {
    seq(|ds|, i requires 0 <= i < |ds| => (Zero + ds[i]) as char)
  }

  /** `s.split('').reduce((acc, char) => acc + char.charCodeAt(0), 0)`. */
  function CharCodeSum(s: JsString): (r: nat)
    ensures r <= 0xFFFF * |s|
  {
    if s == [] then 0 else CharCodeSum(s[..|s| - 1]) + s[|s| - 1]
  }

  function DigitSum(ds: seq<Digit>): nat
  {
    if ds == [] then 0 else DigitSum(ds[..|ds| - 1]) + ds[|ds| - 1]
  }

  /** On a string of digits the code-unit sum is 48 per digit plus the digit sum. */
  lemma {:induction false} CharCodeSumOfDigits(s: JsString)
    requires AllDigits(s)
    ensures CharCodeSum(s) == Zero * |s| + DigitSum(DigitValues(s))
  {
    if s != [] {
      var init := s[..|s| - 1];
      assert DigitValues(s)[..|s| - 1] == DigitValues(init);
      CharCodeSumOfDigits(init);
    }
  }
}
