/**
 * `verifyAgeWithUIDAI`, the age-verification pipeline, with the simulated
 * network delay and the `async` wrapper removed: validate the Aadhaar
 * number, encode it for the registry, and answer with a boolean age flag
 * derived from a placeholder hash of the raw input.
 */
module UidaiKyc {
  import opened Wrappers
  import opened JsText
  import Utf8
  import Base64
  import opened Verhoeff

  /** `AgeVerificationResult`; the optional fields of the interface are `Option`s. */
  datatype AgeVerificationResult = AgeVerificationResult(success: bool, isAdult: Option<bool>, message: Option<string>)

  const InvalidFormatMessage: string := "Invalid Aadhaar number format"
  const CompletedMessage: string := "Age verification completed successfully"

  /**
   * `encryptWithZeroKnowledge`: despite its name, the Base 64 text of the
   * UTF-8 bytes of `data`. Nothing is hidden: decoding gives the bytes back.
   */
  function EncryptWithZeroKnowledge(data: JsString): (r: string)
    ensures |r| == 4 * ((|Utf8.Encode(data)| + 2) / 3)
    ensures Base64.Decode(r) == Some(Utf8.Encode(data))
  {
    Base64.RoundTrip(Utf8.Encode(data));
    Base64.Encode(Utf8.Encode(data))
  }

  /**
   * One run of the pipeline: the record it answers with, and the encoded
   * number it prepares for the registry, or `None` when it returns before
   * the encode step.
   */
  datatype Run = Run(result: AgeVerificationResult, payload: Option<string>)

  /**
   * The body of `verifyAgeWithUIDAI`: reject a malformed number at once;
   * otherwise encode the raw input for the registry call, derive the
   * placeholder flag from the code-unit sum, and answer with the fixed
   * success record.
   */
  function Pipeline(aadhaar: JsString): (run: Run)
    ensures run.result.success <==> IsValidAadhaar(aadhaar)
    ensures run.payload.Some? <==> run.result.success
    ensures run.payload.Some? ==> Base64.Decode(run.payload.value) == Some(Utf8.Encode(aadhaar))
  {
    if !IsValidAadhaar(aadhaar) then
      Run(AgeVerificationResult(false, None, Some(InvalidFormatMessage)), None)
    else
      var encryptedAadhaar := EncryptWithZeroKnowledge(aadhaar);
      var hash := CharCodeSum(aadhaar);
      var mockIsAdult := hash % 3 != 0;
      Run(AgeVerificationResult(true, Some(mockIsAdult), Some(CompletedMessage)), Some(encryptedAadhaar))
  }

  /** What the pipeline answers for `aadhaar`. */
  function VerifyAgeWithUidai(aadhaar: JsString): (r: AgeVerificationResult)
    ensures r.success <==> IsValidAadhaar(aadhaar)
    ensures r.isAdult.Some? <==> r.success
    ensures r.message == Some(if r.success then CompletedMessage else InvalidFormatMessage)
  {
    Pipeline(aadhaar).result
  }

  /** A number that fails the check gets exactly the fixed rejection and is never encoded. */
  lemma InvalidInputRejected(aadhaar: JsString)
    requires !IsValidAadhaar(aadhaar)
    ensures VerifyAgeWithUidai(aadhaar) == AgeVerificationResult(false, None, Some(InvalidFormatMessage))
    ensures Pipeline(aadhaar).payload == None
  {
  }

  /** A valid number gets the fixed success record with the placeholder flag. */
  lemma ValidInputAccepted(aadhaar: JsString)
    requires IsValidAadhaar(aadhaar)
    ensures VerifyAgeWithUidai(aadhaar)
         == AgeVerificationResult(true, Some(CharCodeSum(aadhaar) % 3 != 0), Some(CompletedMessage))
  {
  }

  /**
   * For input written as twelve bare digits the placeholder flag is true
   * exactly when the digit sum is not a multiple of three: the twelve '0'
   * offsets add 576, itself a multiple of three.
   */
  lemma BareDigitsAdultFlag(aadhaar: JsString)
    requires IsValidAadhaar(aadhaar) && AllDigits(aadhaar)
    ensures VerifyAgeWithUidai(aadhaar).isAdult == Some(DigitSum(DigitValues(aadhaar)) % 3 != 0)
  {
    ValidInputAccepted(aadhaar);
    TwelveDigitHash(aadhaar);
  }

  /** Twelve '0' offsets add 576, a multiple of three, to the digit sum. */
  lemma TwelveDigitHash(s: JsString)
    requires AllDigits(s) && |s| == 12
    ensures CharCodeSum(s) % 3 == DigitSum(DigitValues(s)) % 3
  {
    CharCodeSumOfDigits(s);
    var sum := DigitSum(DigitValues(s));
    assert CharCodeSum(s) == 576 + sum;
  }

  /** The payload of twelve bare digits is 16 Base 64 characters with no padding. */
  lemma BareDigitsPayload(aadhaar: JsString)
    requires IsValidAadhaar(aadhaar) && AllDigits(aadhaar)
    ensures Pipeline(aadhaar).payload.Some?
    ensures var p := Pipeline(aadhaar).payload.value;
      |p| == 16 && forall k :: 0 <= k < 16 ==> Base64.InAlphabet(p[k])
  {
    assert |aadhaar| == 12;
    assert Utf8.IsAscii(aadhaar);
    Utf8.AsciiEncodesToItself(aadhaar);
    Base64.WholeGroupsUnpadded(Utf8.Encode(aadhaar));
  }

  predicate Contains(haystack: string, needle: string) {
    exists i :: 0 <= i <= |haystack| && needle <= haystack[i..]
  }

  predicate HasNoDigit(s: string) {
    forall k :: 0 <= k < |s| ==> !('0' <= s[k] <= '9')
  }

  lemma MessagesHaveNoDigit()
    ensures HasNoDigit(InvalidFormatMessage) && HasNoDigit(CompletedMessage)
  {
  }

  /**
   * No result carries the number: the only text field is one of two fixed
   * messages, and neither contains a digit, so neither contains the digits
   * of the input. The property is about the digit sequence only; an input
   * without digits, such as "format", can share text with a message.
   */
  lemma ResultHidesNumber(aadhaar: JsString)
    requires StripNonDigits(aadhaar) != []
    ensures var r := VerifyAgeWithUidai(aadhaar);
      r.message.Some? && !Contains(r.message.value, DigitText(DigitValues(StripNonDigits(aadhaar))))
  {
    var msg := VerifyAgeWithUidai(aadhaar).message.value;
    var digits := DigitText(DigitValues(StripNonDigits(aadhaar)));
    MessagesHaveNoDigit();
    assert HasNoDigit(msg);
    assert '0' <= digits[0] <= '9';
    forall i | 0 <= i <= |msg|
      ensures !(digits <= msg[i..])
    {
      if i < |msg| {
        assert msg[i..][0] == msg[i];
      }
    }
  }

  /**
   * Separators never decide acceptance: inserting a non-digit anywhere
   * leaves `success` unchanged.
   */
  lemma SuccessIgnoresSeparators(aadhaar: JsString, j: nat, x: CodeUnit)
    requires j <= |aadhaar| && !IsDigit(x)
    ensures VerifyAgeWithUidai(aadhaar[..j] + [x] + aadhaar[j..]).success == VerifyAgeWithUidai(aadhaar).success
  {
    NonDigitIgnored(aadhaar, j, x);
  }

  /** "123456789012" is rejected. */
  lemma RejectedExample()
    ensures !VerifyAgeWithUidai([49, 50, 51, 52, 53, 54, 55, 56, 57, 48, 49, 50]).success
  {
    var s: JsString := [49, 50, 51, 52, 53, 54, 55, 56, 57, 48, 49, 50];
    assert AllDigits(s);
    assert DigitValues(s) == [1, 2, 3, 4, 5, 6, 7, 8, 9, 0, 1, 2];
    ChecksumOfSequentialDigits();
  }

  /** "234123412346" is accepted. */
  lemma AcceptedExample()
    ensures VerifyAgeWithUidai([50, 51, 52, 49, 50, 51, 52, 49, 50, 51, 52, 54]).success
  {
    var s: JsString := [50, 51, 52, 49, 50, 51, 52, 49, 50, 51, 52, 54];
    assert AllDigits(s);
    assert DigitValues(s) == [2, 3, 4, 1, 2, 3, 4, 1, 2, 3, 4, 6];
    ChecksumOfValidNumber();
  }
}
