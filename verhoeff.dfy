/**
 * The Aadhaar number check of `validateAadhaarNumber`: strip every
 * non-digit, demand exactly twelve digits, and run the Verhoeff check-digit
 * recurrence over the digits from the least significant end.
 */
module Verhoeff {
  import opened JsText

  /** Cayley table of the dihedral group of order 10 (`d`). */
  const D: seq<seq<Digit>> := [
    [0, 1, 2, 3, 4, 5, 6, 7, 8, 9],
    [1, 2, 3, 4, 0, 6, 7, 8, 9, 5],
    [2, 3, 4, 0, 1, 7, 8, 9, 5, 6],
    [3, 4, 0, 1, 2, 8, 9, 5, 6, 7],
    [4, 0, 1, 2, 3, 9, 5, 6, 7, 8],
    [5, 9, 8, 7, 6, 0, 4, 3, 2, 1],
    [6, 5, 9, 8, 7, 1, 0, 4, 3, 2],
    [7, 6, 5, 9, 8, 2, 1, 0, 4, 3],
    [8, 7, 6, 5, 9, 3, 2, 1, 0, 4],
    [9, 8, 7, 6, 5, 4, 3, 2, 1, 0]
  ]

  /** Position permutations (`p`); row `i % 8` is applied to the digit at position `i`. */
  const P: seq<seq<Digit>> := [
    [0, 1, 2, 3, 4, 5, 6, 7, 8, 9],
    [1, 5, 7, 6, 2, 8, 3, 0, 9, 4],
    [5, 8, 0, 3, 7, 9, 6, 1, 4, 2],
    [8, 9, 1, 6, 0, 4, 3, 5, 2, 7],
    [9, 4, 5, 3, 1, 2, 6, 8, 7, 0],
    [4, 2, 8, 6, 5, 7, 3, 9, 0, 1],
    [2, 7, 9, 3, 8, 0, 6, 4, 1, 5],
    [7, 0, 4, 6, 9, 1, 3, 2, 5, 8]
  ]

  /**
   * Group inverses in `D`. lib/uidai-kyc.ts has no such table; it serves
   * here only to prove that every row of `D` is a permutation and to build
   * check digits.
   */
  const Inv: seq<Digit> := [0, 4, 3, 2, 1, 5, 6, 7, 8, 9]

  /**
   * One update of the running check value: `c = d[c][p[i % 8][val]]`.
   * Multiplying by the inverse of the old value recovers the permuted digit,
   * so no information about the digit is lost.
   */
  function Step(c: Digit, i: nat, v: Digit): (r: Digit)
    ensures D[Inv[c]][r] == P[i % 8][v]
  {
    DLeftInverse(c, P[i % 8][v]);
    D[c][P[i % 8][v]]
  }

  /**
   * The running check value after consuming `vs`, starting from `c` at
   * position `i`. Undoing the steps one by one leads back to `c`: distinct
   * starting values never end at the same value.
   */
  function Fold(c: Digit, i: nat, vs: seq<Digit>): (r: Digit)
    ensures FoldBack(r, i, vs) == c
    decreases |vs|
  {
    if vs == [] then c
    else
      StepBackOfStep(c, i, vs[0]);
      Fold(Step(c, i, vs[0]), i + 1, vs[1..])
  }

  /** `.reverse()`: the first element becomes the last. */
  function Reverse<T>(s: seq<T>): (r: seq<T>)
    ensures |r| == |s|
    ensures forall i :: 0 <= i < |s| ==> r[|s| - 1 - i] == s[i]
  {
    seq(|s|, i requires 0 <= i < |s| => s[|s| - 1 - i])
  }

  /** Reversing twice gives the sequence back. */
  lemma ReverseInvolution<T>(s: seq<T>)
    ensures Reverse(Reverse(s)) == s
  {
  }

  /** Appending an element puts it in front of the reversal. */
  lemma ReverseAppend<T>(s: seq<T>, x: T)
    ensures Reverse(s + [x]) == [x] + Reverse(s)
  {
  }

  /**
   * The Verhoeff check value of a digit sequence written most significant
   * digit first. The last digit, the check digit, is consumed first, at
   * position 0, where `p` and `d` leave it unchanged: it is the starting
   * value of the fold over the others.
   */
  function Checksum(digits: seq<Digit>): (r: Digit)
    ensures digits != [] ==>
      r == Fold(digits[|digits| - 1], 1, Reverse(digits[..|digits| - 1]))
  {
    if digits == [] then 0
    else
      var init, x := digits[..|digits| - 1], digits[|digits| - 1];
      assert digits == init + [x];
      ReverseAppend(init, x);
      assert ([x] + Reverse(init))[1..] == Reverse(init);
      assert Step(0, 0, x) == x;
      Fold(0, 0, Reverse(digits))
  }

  /**
   * What `validateAadhaarNumber` answers. A valid input holds at least
   * twelve code units, and an input made of digits only is valid only when
   * it has exactly twelve.
   */
  function IsValidAadhaar(aadhaar: JsString): (valid: bool)
    ensures valid ==> |aadhaar| >= 12
    ensures valid && AllDigits(aadhaar) ==> |aadhaar| == 12
  {
    var clean := StripNonDigits(aadhaar);
    |clean| == 12 && Checksum(DigitValues(clean)) == 0
  }

  /** The imperative check of lib/uidai-kyc.ts:23-65, proved to compute `IsValidAadhaar`. */
  method ValidateAadhaarNumber(aadhaar: JsString) returns (valid: bool)
    ensures valid <==> IsValidAadhaar(aadhaar)
    ensures |StripNonDigits(aadhaar)| != 12 ==> !valid
    ensures valid ==> Checksum(DigitValues(StripNonDigits(aadhaar))) == 0
  {
    var cleanAadhaar := StripNonDigits(aadhaar);
    if |cleanAadhaar| != 12 {
      return false;
    }
    ghost var expected := Checksum(DigitValues(cleanAadhaar));
    var c: Digit := 0;
    var invertedArray := Reverse(DigitValues(cleanAadhaar));
    var i := 0;
    while i < |invertedArray|
      invariant 0 <= i <= |invertedArray|
      invariant Fold(c, i, invertedArray[i..]) == expected
    {
      assert invertedArray[i..][1..] == invertedArray[i + 1..];
      c := Step(c, i, invertedArray[i]);
      i := i + 1;
    }
    return c == 0;
  }

  // ---------------------------------------------------------------------
  // The tables: every step of the recurrence is a bijection.
  // ---------------------------------------------------------------------

  lemma PRowIsPermutation(r: nat, a: Digit, b: Digit)
    requires r < 8 && a != b
    ensures P[r][a] != P[r][b]
  {
  }

  lemma DLeftInverse(c: Digit, a: Digit)
    ensures D[Inv[c]][D[c][a]] == a
  {
    var x := D[c][a];
    assert 0 <= x < 10;
  }

  lemma DRowIsPermutation(c: Digit, a: Digit, b: Digit)
    requires a != b
    ensures D[c][a] != D[c][b]
  {
    DLeftInverse(c, a);
    DLeftInverse(c, b);
  }

  lemma DColumnIsPermutation(c: Digit, c': Digit, a: Digit)
    requires c != c'
    ensures D[c][a] != D[c'][a]
  {
  }

  /** A step is injective in the digit ... */
  lemma StepInjectiveInDigit(c: Digit, i: nat, v: Digit, w: Digit)
    requires v != w
    ensures Step(c, i, v) != Step(c, i, w)
  {
    PRowIsPermutation(i % 8, v, w);
    DRowIsPermutation(c, P[i % 8][v], P[i % 8][w]);
  }

  /** ... and in the running value. */
  lemma StepInjectiveInValue(c: Digit, c': Digit, i: nat, v: Digit)
    requires c != c'
    ensures Step(c, i, v) != Step(c', i, v)
  {
    DColumnIsPermutation(c, c', P[i % 8][v]);
  }

  /** Two different running values stay different whatever digits follow. */
  lemma {:induction false} FoldSeparates(c: Digit, c': Digit, i: nat, vs: seq<Digit>)
    requires c != c'
    ensures Fold(c, i, vs) != Fold(c', i, vs)
    decreases |vs|
  {
    if vs != [] {
      StepInjectiveInValue(c, c', i, vs[0]);
      FoldSeparates(Step(c, i, vs[0]), Step(c', i, vs[0]), i + 1, vs[1..]);
    }
  }

  /** Two starting values that end at the same value are equal. */
  lemma FoldSeparatesConverse(c: Digit, c': Digit, i: nat, vs: seq<Digit>)
    requires Fold(c, i, vs) == Fold(c', i, vs)
    ensures c == c'
  {
    if c != c' {
      FoldSeparates(c, c', i, vs);
    }
  }

  /** Replacing one digit of the consumed sequence always changes the final value. */
  lemma {:induction false} FoldDetectsSubstitution(c: Digit, i: nat, vs: seq<Digit>, m: nat, v: Digit)
    requires m < |vs| && v != vs[m]
    ensures Fold(c, i, vs[m := v]) != Fold(c, i, vs)
    decreases m
  {
    var ws := vs[m := v];
    if m == 0 {
      StepInjectiveInDigit(c, i, v, vs[0]);
      assert ws[1..] == vs[1..];
      FoldSeparates(Step(c, i, v), Step(c, i, vs[0]), i + 1, vs[1..]);
    } else {
      assert ws[0] == vs[0];
      assert ws[1..] == vs[1..][m - 1 := v];
      FoldDetectsSubstitution(Step(c, i, vs[0]), i + 1, vs[1..], m - 1, v);
    }
  }

  /** Any single-digit substitution changes the check value. */
  lemma ChecksumDetectsSubstitution(digits: seq<Digit>, k: nat, v: Digit)
    requires k < |digits| && v != digits[k]
    ensures Checksum(digits[k := v]) != Checksum(digits)
  {
    var m := |digits| - 1 - k;
    assert Reverse(digits[k := v]) == Reverse(digits)[m := v];
    FoldDetectsSubstitution(0, 0, Reverse(digits), m, v);
  }

  /** At most one digit completes a given prefix to a sequence with check value 0. */
  lemma CheckDigitUnique(body: seq<Digit>, x: Digit, y: Digit)
    requires Checksum(body + [x]) == 0 && Checksum(body + [y]) == 0
    ensures x == y
  {
    assert (body + [x])[..|body|] == body;
    assert (body + [y])[..|body|] == body;
    FoldSeparatesConverse(x, y, 1, Reverse(body));
  }

  lemma DRightInverse(c: Digit, a: Digit)
    ensures D[D[c][Inv[a]]][a] == c
  {
    var x := D[c][Inv[a]];
    assert 0 <= x < 10;
  }

  /** The running value before a step, given the value after it. */
  function StepBack(c: Digit, i: nat, v: Digit): (r: Digit)
    ensures Step(r, i, v) == c
  {
    DRightInverse(c, P[i % 8][v]);
    D[c][Inv[P[i % 8][v]]]
  }

  /** Undoing a step gives the value before it. */
  lemma StepBackOfStep(c: Digit, i: nat, v: Digit)
    ensures StepBack(Step(c, i, v), i, v) == c
  {
    var b := StepBack(Step(c, i, v), i, v);
    if b != c {
      StepInjectiveInValue(b, c, i, v);
    }
  }

  /** The starting value from which consuming `vs` at position `i` ends at `target`. */
  function FoldBack(target: Digit, i: nat, vs: seq<Digit>): (r: Digit)
    decreases |vs|
  {
    if vs == [] then target else StepBack(FoldBack(target, i + 1, vs[1..]), i, vs[0])
  }

  lemma {:induction false} FoldBackIsInverse(target: Digit, i: nat, vs: seq<Digit>)
    ensures Fold(FoldBack(target, i, vs), i, vs) == target
    decreases |vs|
  {
    if vs != [] {
      FoldBackIsInverse(target, i + 1, vs[1..]);
    }
  }

  /**
   * Every digit sequence has exactly one check digit: the digit that, put
   * last, makes the check value 0 (the one the Verhoeff scheme computes
   * with the inverse table).
   */
  lemma CheckDigitExists(body: seq<Digit>)
    ensures exists x: Digit :: Checksum(body + [x]) == 0
  {
    var x := FoldBack(0, 1, Reverse(body));
    FoldBackIsInverse(0, 1, Reverse(body));
    assert (body + [x])[..|body|] == body;
    assert Checksum(body + [x]) == 0;
  }

  // ---------------------------------------------------------------------
  // Properties of the check on raw input.
  // ---------------------------------------------------------------------

  /**
   * Replacing the digit at `j` by another digit replaces one element of the
   * stripped text, the one at index `k` (the number of digits before `j`).
   */
  lemma StripAfterDigitUpdate(s: JsString, j: nat, x: CodeUnit) returns (k: nat)
    requires j < |s| && IsDigit(s[j]) && IsDigit(x)
    ensures k < |StripNonDigits(s)| && StripNonDigits(s)[k] == s[j]
    ensures StripNonDigits(s[j := x]) == StripNonDigits(s)[k := x]
  {
    var pre, post := s[..j], s[j + 1..];
    assert s == (pre + [s[j]]) + post;
    assert s[j := x] == (pre + [x]) + post;
    assert StripNonDigits([s[j]]) == [s[j]];
    assert StripNonDigits([x]) == [x];
    StripConcat(pre + [s[j]], post);
    StripConcat(pre, [s[j]]);
    StripConcat(pre + [x], post);
    StripConcat(pre, [x]);
    k := |StripNonDigits(pre)|;
  }

  /**
   * Changing one digit of a valid Aadhaar number into another digit always
   * makes it invalid, wherever separators stand in the input.
   */
  lemma SingleDigitErrorDetected(aadhaar: JsString, j: nat, x: CodeUnit)
    requires IsValidAadhaar(aadhaar)
    requires j < |aadhaar| && IsDigit(aadhaar[j]) && IsDigit(x) && x != aadhaar[j]
    ensures !IsValidAadhaar(aadhaar[j := x])
  {
    var k := StripAfterDigitUpdate(aadhaar, j, x);
    var clean := StripNonDigits(aadhaar);
    var ds := DigitValues(clean);
    assert DigitValues(clean[k := x]) == ds[k := x - Zero];
    ChecksumDetectsSubstitution(ds, k, x - Zero);
    assert Checksum(DigitValues(StripNonDigits(aadhaar[j := x]))) != 0;
  }

  /** Inserting a non-digit leaves the stripped text as it was. */
  lemma StripAfterInsertion(s: JsString, j: nat, x: CodeUnit)
    requires j <= |s| && !IsDigit(x)
    ensures StripNonDigits(s[..j] + [x] + s[j..]) == StripNonDigits(s)
  {
    var pre, post := s[..j], s[j..];
    assert s == pre + post;
    assert StripNonDigits([x]) == [];
    StripConcat(pre + [x], post);
    StripConcat(pre, [x]);
    StripConcat(pre, post);
  }

  /**
   * Validity depends only on the digits: inserting a non-digit anywhere
   * (equivalently, removing one) never changes the answer.
   */
  lemma NonDigitIgnored(aadhaar: JsString, j: nat, x: CodeUnit)
    requires j <= |aadhaar| && !IsDigit(x)
    ensures IsValidAadhaar(aadhaar[..j] + [x] + aadhaar[j..]) <==> IsValidAadhaar(aadhaar)
  {
    StripAfterInsertion(aadhaar, j, x);
  }

  /** Input whose digit count is not twelve is rejected whatever its checksum. */
  lemma WrongLengthRejected(aadhaar: JsString)
    requires |StripNonDigits(aadhaar)| != 12
    ensures !IsValidAadhaar(aadhaar)
  {
  }

  // ---------------------------------------------------------------------
  // Worked values: the running value `c` after each digit, least
  // significant digit first.
  // ---------------------------------------------------------------------

  /** 1234 5678 9012 has check value 2, so it is not a valid number. */
  lemma ChecksumOfSequentialDigits()
    ensures Checksum([1, 2, 3, 4, 5, 6, 7, 8, 9, 0, 1, 2]) == 2
  {
    ReverseOfSequentialDigits([1, 2, 3, 4, 5, 6, 7, 8, 9, 0, 1, 2]);
    FoldTraceOfSequentialDigits();
  }

  lemma ReverseOfSequentialDigits(x: seq<Digit>)
    requires x == [1, 2, 3, 4, 5, 6, 7, 8, 9, 0, 1, 2]
    ensures Reverse(x) == [2, 1, 0, 9, 8, 7, 6, 5, 4, 3, 2, 1]
  {
  }

  lemma FoldTraceOfSequentialDigits()
    ensures Fold(0, 0, [2, 1, 0, 9, 8, 7, 6, 5, 4, 3, 2, 1]) == 2
  {
    FoldTraceOfSequentialDigitsTail();
    calc {
      Fold(0, 0, [2, 1, 0, 9, 8, 7, 6, 5, 4, 3, 2, 1]);
      Fold(2, 1, [1, 0, 9, 8, 7, 6, 5, 4, 3, 2, 1]);
      Fold(7, 2, [0, 9, 8, 7, 6, 5, 4, 3, 2, 1]);
      Fold(2, 3, [9, 8, 7, 6, 5, 4, 3, 2, 1]);
      Fold(9, 4, [8, 7, 6, 5, 4, 3, 2, 1]);
      Fold(2, 5, [7, 6, 5, 4, 3, 2, 1]);
      Fold(6, 6, [6, 5, 4, 3, 2, 1]);
    }
  }

  lemma FoldTraceOfSequentialDigitsTail()
    ensures Fold(6, 6, [6, 5, 4, 3, 2, 1]) == 2
  {
    assert 8 % 8 == 0 && 9 % 8 == 1 && 10 % 8 == 2 && 11 % 8 == 3;
    calc {
      Fold(6, 6, [6, 5, 4, 3, 2, 1]);
      Fold(0, 7, [5, 4, 3, 2, 1]);
      Fold(1, 8, [4, 3, 2, 1]);
      Fold(0, 9, [3, 2, 1]);
      Fold(6, 10, [2, 1]);
      Fold(6, 11, [1]);
      Fold(2, 12, []);
    }
  }

  /** 2341 2341 2346 has check value 0, so it is a valid number. */
  lemma ChecksumOfValidNumber()
    ensures Checksum([2, 3, 4, 1, 2, 3, 4, 1, 2, 3, 4, 6]) == 0
  {
    ReverseOfValidNumber([2, 3, 4, 1, 2, 3, 4, 1, 2, 3, 4, 6]);
    FoldTraceOfValidNumber();
  }

  lemma ReverseOfValidNumber(x: seq<Digit>)
    requires x == [2, 3, 4, 1, 2, 3, 4, 1, 2, 3, 4, 6]
    ensures Reverse(x) == [6, 4, 3, 2, 1, 4, 3, 2, 1, 4, 3, 2]
  {
  }

  lemma FoldTraceOfValidNumber()
    ensures Fold(0, 0, [6, 4, 3, 2, 1, 4, 3, 2, 1, 4, 3, 2]) == 0
  {
    FoldTraceOfValidNumberTail();
    calc {
      Fold(0, 0, [6, 4, 3, 2, 1, 4, 3, 2, 1, 4, 3, 2]);
      Fold(6, 1, [4, 3, 2, 1, 4, 3, 2, 1, 4, 3, 2]);
      Fold(9, 2, [3, 2, 1, 4, 3, 2, 1, 4, 3, 2]);
      Fold(6, 3, [2, 1, 4, 3, 2, 1, 4, 3, 2]);
      Fold(5, 4, [1, 4, 3, 2, 1, 4, 3, 2]);
      Fold(6, 5, [4, 3, 2, 1, 4, 3, 2]);
      Fold(1, 6, [3, 2, 1, 4, 3, 2]);
    }
  }

  lemma FoldTraceOfValidNumberTail()
    ensures Fold(1, 6, [3, 2, 1, 4, 3, 2]) == 0
  {
    assert 8 % 8 == 0 && 9 % 8 == 1 && 10 % 8 == 2 && 11 % 8 == 3;
    calc {
      Fold(1, 6, [3, 2, 1, 4, 3, 2]);
      Fold(4, 7, [2, 1, 4, 3, 2]);
      Fold(3, 8, [1, 4, 3, 2]);
      Fold(4, 9, [4, 3, 2]);
      Fold(1, 10, [3, 2]);
      Fold(4, 11, [2]);
      Fold(0, 12, []);
    }
  }

}
