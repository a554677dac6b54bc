/** `AuthorTestData.getValidRandomIsbn`: a random ISBN-13 whose last digit is
    the check digit of ISO 2108, weights 1 and 3 alternating, modulo 10. The
    two random draws are the inputs `prefixChoice` (`nextInt(2)`) and `body`
    (the nine `nextInt(10)` draws). */
module IsbnGenerator {
  import opened Text
  import opened BookRequest
  import opened Wrappers

  /** The weight of position `i`: 1 at even positions, 3 at odd ones. */
  function Weight(i: nat): (w: int)
    ensures w == 1 || w == 3
    ensures w == 1 <==> i % 2 == 0
  {
    if i % 2 == 0 then 1 else 3
  }

  /** The weighted digit sum of ISO 2108 over all of `d`. */
  function WeightedSum(d: seq<int>): int {
    if |d| == 0 then 0 else WeightedSum(d[..|d| - 1]) + d[|d| - 1] * Weight(|d| - 1)
  }

  /** The digit that completes a non-negative weighted sum to a multiple of ten. */
  function CheckDigit(sum: int): (c: int)
    requires sum >= 0
    ensures 0 <= c <= 9
    ensures (sum + c) % 10 == 0
  {
    var c := 10 - sum % 10;
    if c == 10 then 0 else c
  }

  /** No other digit completes the sum. */
  lemma CheckDigitUnique(sum: int, c: int)
    requires sum >= 0 && 0 <= c <= 9 && (sum + c) % 10 == 0
    ensures c == CheckDigit(sum)
  {
    var k := CheckDigit(sum);
    assert (c - k) % 10 == 0 by {
      assert c - k == (sum + c) - (sum + k);
    }
  }

  predicate AreDigits(d: seq<int>) {
    forall i :: 0 <= i < |d| ==> 0 <= d[i] <= 9
  }

  lemma WeightedSumNonNegative(d: seq<int>)
    requires AreDigits(d)
    ensures WeightedSum(d) >= 0
  {
    if |d| > 0 {
      WeightedSumNonNegative(d[..|d| - 1]);
    }
  }

  /** The thirteen digit values the generator builds from its draws. */
  function IsbnDigits(prefixChoice: int, body: seq<int>): (d: seq<int>)
    requires 0 <= prefixChoice < 2
    requires |body| == 9 && AreDigits(body)
    ensures |d| == 13 && AreDigits(d)
    ensures d[..12] == [9, 7, 8 + prefixChoice] + body
  {
    var first := [9, 7, 8 + prefixChoice] + body;
    WeightedSumNonNegative(first);
    first + [CheckDigit(WeightedSum(first))]
  }

  /** `StringBuilder.append(int)` for each value in turn. */
  function DigitsText(d: seq<int>): string {
    if |d| == 0 then "" else DigitsText(d[..|d| - 1]) + DecimalString(d[|d| - 1])
  }

  /** The digit values of a string of decimal digits. */
  function DigitValues(s: string): (d: seq<int>)
    requires forall i :: 0 <= i < |s| ==> IsDigit(s[i])
    ensures |d| == |s| && AreDigits(d)
    ensures forall i :: 0 <= i < |s| ==> DigitChar(d[i]) == s[i]
  {
    if |s| == 0 then [] else DigitValues(s[..|s| - 1]) + [DigitValue(s[|s| - 1])]
  }

  /** The ISO 2108 checksum of a digit string; a valid ISBN-13 has it
      divisible by ten. */
  function Checksum(s: string): int
    requires forall i :: 0 <= i < |s| ==> IsDigit(s[i])
  {
    WeightedSum(DigitValues(s))
  }

  /** Single digits are written one character each. */
  lemma {:induction false} DigitsTextChars(d: seq<int>)
    requires AreDigits(d)
    ensures |DigitsText(d)| == |d|
    ensures forall i :: 0 <= i < |d| ==> DigitsText(d)[i] == DigitChar(d[i])
  {
    if |d| > 0 {
      var init := d[..|d| - 1];
      DigitsTextChars(init);
      SingleDigitText(d[|d| - 1]);
      assert DigitsText(d) == DigitsText(init) + [DigitChar(d[|d| - 1])];
    }
  }

  /** The text of single digits reads back as those digits. */
  lemma DigitsTextRoundTrip(d: seq<int>)
    requires AreDigits(d)
    ensures |DigitsText(d)| == |d|
    ensures forall i :: 0 <= i < |d| ==> IsDigit(DigitsText(d)[i])
    ensures DigitValues(DigitsText(d)) == d
  {
    DigitsTextChars(d);
    var s := DigitsText(d);
    var back := DigitValues(s);
    forall i | 0 <= i < |d| ensures back[i] == d[i] {
      assert DigitChar(back[i]) == DigitChar(d[i]);
    }
  }

  /** Appending a digit adds it at its position's weight. */
  lemma WeightedSumSnoc(d: seq<int>, x: int)
    ensures WeightedSum(d + [x]) == WeightedSum(d) + x * Weight(|d|)
  {
    assert (d + [x])[..|d|] == d;
  }

  /** A table of running sums, each adding one weighted digit, agrees with
      `WeightedSum` on every prefix. */
  lemma {:induction false} RunningSums(d: seq<int>, sums: seq<int>, k: nat)
    requires |sums| == |d| + 1 && k <= |d| && sums[0] == 0
    requires forall j :: 0 <= j < |d| ==> sums[j + 1] == sums[j] + d[j] * Weight(j)
    ensures WeightedSum(d[..k]) == sums[k]
  {
    if k > 0 {
      RunningSums(d, sums, k - 1);
      assert d[..k][..k - 1] == d[..k - 1];
    }
  }

  /** The generated text has the shape `^97[89][0-9]{10}$`, carries the draws
      in place, and has an ISO 2108 checksum divisible by ten. */
  lemma GeneratedText(prefixChoice: int, body: seq<int>)
    requires 0 <= prefixChoice < 2
    requires |body| == 9 && AreDigits(body)
    ensures var s := DigitsText(IsbnDigits(prefixChoice, body));
            && IsbnShape(s)
            && IsbnPatternValid(Some(s))
            && s[2] == DigitChar(8 + prefixChoice)
            && (forall i :: 3 <= i < 12 ==> s[i] == DigitChar(body[i - 3]))
            && Checksum(s) % 10 == 0
  {
    var d := IsbnDigits(prefixChoice, body);
    var s := DigitsText(d);
    DigitsTextChars(d);
    DigitsTextRoundTrip(d);
    IsbnPatternIsShape(s);
    var first := d[..12];
    assert d == first + [d[12]];
    WeightedSumSnoc(first, d[12]);
    WeightedSumNonNegative(first);
    assert forall i :: 3 <= i < 12 ==> d[i] == body[i - 3] by {
      forall i | 3 <= i < 12 ensures d[i] == body[i - 3] {
        assert d[i] == d[..12][i];
      }
    }
  }

  /** Every well-formed ISBN-13 of that shape with a valid check digit is
      something the generator can produce. */
  lemma EveryValidIsbnGenerated(s: string)
    requires IsbnShape(s)
    requires Checksum(s) % 10 == 0
    ensures exists p, body :: 0 <= p < 2 && |body| == 9 && AreDigits(body)
                            && DigitsText(IsbnDigits(p, body)) == s
  {
    assert forall i :: 0 <= i < 13 ==> IsDigit(s[i]);
    var d := DigitValues(s);
    assert DigitChar(d[0]) == '9' && DigitChar(d[1]) == '7';
    assert DigitChar(d[2]) == '8' || DigitChar(d[2]) == '9';
    var p := d[2] - 8;
    var body := d[3..12];
    var first := d[..12];
    assert d == first + [d[12]];
    WeightedSumSnoc(first, d[12]);
    WeightedSumNonNegative(first);
    CheckDigitUnique(WeightedSum(first), d[12]);
    assert first == [9, 7, 8 + p] + body by {
      assert d[..3] == [9, 7, 8 + p];
      assert first == d[..3] + d[3..12];
    }
    var g := IsbnDigits(p, body);
    assert g == d;
    DigitsTextRoundTrip(d);
  }

  /** The weighted sum of the fixture's digits is 133. */
  lemma FixtureWeightedSum()
    ensures WeightedSum([9, 7, 8, 1, 2, 3, 4, 5, 6, 7, 8, 9, 0]) == 133
  {
    var d := [9, 7, 8, 1, 2, 3, 4, 5, 6, 7, 8, 9, 0];
    var sums := [0, 9, 30, 38, 41, 43, 52, 56, 71, 77, 98, 106, 133, 133];
    RunningSums(d, sums, 13);
    assert d[..13] == d;
  }

  /** The fixture `9781234567890` has the accepted shape although its check
      digit is wrong (7 is expected), so the pattern checks shape only. */
  lemma FixtureChecksumNotValid()
    ensures IsbnPatternValid(Some(ValidIsbn)) && IsbnShape(ValidIsbn)
    ensures Checksum(ValidIsbn) % 10 != 0
  {
    ValidIsbnAccepted();
    IsbnPatternIsShape(ValidIsbn);
    FixtureDigits();
    FixtureWeightedSum();
  }

  /** The digit values of the fixture text. */
  lemma FixtureDigits()
    ensures forall i :: 0 <= i < |ValidIsbn| ==> IsDigit(ValidIsbn[i])
    ensures DigitValues(ValidIsbn) == [9, 7, 8, 1, 2, 3, 4, 5, 6, 7, 8, 9, 0]
  {
    assert ValidIsbn == DigitsText([9, 7, 8, 1, 2, 3, 4, 5, 6, 7, 8, 9, 0]) by {
      DigitsTextChars([9, 7, 8, 1, 2, 3, 4, 5, 6, 7, 8, 9, 0]);
    }
    DigitsTextRoundTrip([9, 7, 8, 1, 2, 3, 4, 5, 6, 7, 8, 9, 0]);
  }

  /** `getValidRandomIsbn`: fill the digits, sum them with weights, patch the
      check digit, then append each digit to the text. What the text then
      holds, position by position, is `GeneratedText`. */
  method ValidRandomIsbn(prefixChoice: int, body: seq<int>) returns (isbn: string)
    requires 0 <= prefixChoice < 2
    requires |body| == 9 && AreDigits(body)
    ensures isbn == DigitsText(IsbnDigits(prefixChoice, body))
    ensures IsbnPatternValid(Some(isbn))
  {
    ghost var first := [9, 7, 8 + prefixChoice] + body;
    var digits := new int[13];
    digits[0] := 9;
    digits[1] := 7;
    digits[2] := prefixChoice + 8;
    var i := 3;
    while i < 12
      invariant 3 <= i <= 12
      invariant forall j :: 0 <= j < i ==> digits[j] == first[j]
    {
      digits[i] := body[i - 3];
      i := i + 1;
    }

    var sum := 0;
    i := 0;
    while i < 12
      invariant 0 <= i <= 12
      invariant forall j :: 0 <= j < 12 ==> digits[j] == first[j]
      invariant sum == WeightedSum(first[..i])
    {
      assert first[..i + 1] == first[..i] + [first[i]];
      WeightedSumSnoc(first[..i], first[i]);
      sum := sum + digits[i] * (if i % 2 == 0 then 1 else 3);
      i := i + 1;
    }
    assert first[..12] == first;
    var checkDigit := 10 - sum % 10;
    if checkDigit == 10 {
      checkDigit := 0;
    }
    digits[12] := checkDigit;
    ghost var all := IsbnDigits(prefixChoice, body);
    assert all == first + [checkDigit] by {
      WeightedSumNonNegative(first);
    }

    var sb := "";
    i := 0;
    while i < 13
      invariant 0 <= i <= 13
      invariant forall j :: 0 <= j < 13 ==> digits[j] == all[j]
      invariant sb == DigitsText(all[..i])
    {
      assert all[..i + 1][..i] == all[..i];
      sb := sb + DecimalString(digits[i]);
      i := i + 1;
    }
    assert all[..13] == all;
    isbn := sb;
    GeneratedText(prefixChoice, body);
  }
}
