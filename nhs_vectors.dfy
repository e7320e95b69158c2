/** The concrete cases of the package's unit tests, stated against the model. */
module NhsVectors {
  import opened PhpStrings
  import opened Nhs

  /** The ten numbers the tests list as valid. */
  const ValidNumbers: seq<string> := [
    "9077844449", "4698651433", "5835160933", "5462903022", "1032640960",
    "1740296788", "9278462608", "7448556886", "0372104223", "8416367035"
  ]

  /** The weighted sum over all ten digits, written out. */
  lemma WeightedSumUnrolled(s: string)
    requires TenDigits(s)
    ensures WeightedSum(s, 10) ==
      10 * DigitValue(s[0]) + 9 * DigitValue(s[1]) + 8 * DigitValue(s[2]) + 7 * DigitValue(s[3]) +
      6 * DigitValue(s[4]) + 5 * DigitValue(s[5]) + 4 * DigitValue(s[6]) + 3 * DigitValue(s[7]) +
      2 * DigitValue(s[8]) + DigitValue(s[9])
  {
    assert WeightedSum(s, 1) == 10 * DigitValue(s[0]);
    assert WeightedSum(s, 3) == WeightedSum(s, 1) + 9 * DigitValue(s[1]) + 8 * DigitValue(s[2]);
    assert WeightedSum(s, 5) == WeightedSum(s, 3) + 7 * DigitValue(s[3]) + 6 * DigitValue(s[4]);
    assert WeightedSum(s, 7) == WeightedSum(s, 5) + 5 * DigitValue(s[5]) + 4 * DigitValue(s[6]);
    assert WeightedSum(s, 9) == WeightedSum(s, 7) + 3 * DigitValue(s[7]) + 2 * DigitValue(s[8]);
  }

  /** A ten-digit string whose full weighted sum is a multiple of 11 passes
      `validate`. */
  lemma ValidWhenSumDivides(s: string, sum: int)
    requires TenDigits(s)
    requires sum == 10 * DigitValue(s[0]) + 9 * DigitValue(s[1]) + 8 * DigitValue(s[2]) + 7 * DigitValue(s[3]) +
      6 * DigitValue(s[4]) + 5 * DigitValue(s[5]) + 4 * DigitValue(s[6]) + 3 * DigitValue(s[7]) +
      2 * DigitValue(s[8]) + DigitValue(s[9])
    requires sum % 11 == 0
    ensures Validation(s) == Valid
  {
    WeightedSumUnrolled(s);
    ValidIffModulus11(s);
  }

  lemma Listed9077844449()
    ensures IsTrimmed("9077844449") && Validation("9077844449") == Valid
  {
    ValidWhenSumDivides("9077844449", 308);
  }

  lemma Listed4698651433()
    ensures IsTrimmed("4698651433") && Validation("4698651433") == Valid
  {
    ValidWhenSumDivides("4698651433", 308);
  }

  lemma Listed5835160933()
    ensures IsTrimmed("5835160933") && Validation("5835160933") == Valid
  {
    ValidWhenSumDivides("5835160933", 253);
  }

  lemma Listed5462903022()
    ensures IsTrimmed("5462903022") && Validation("5462903022") == Valid
  {
    ValidWhenSumDivides("5462903022", 220);
  }

  lemma Listed1032640960()
    ensures IsTrimmed("1032640960") && Validation("1032640960") == Valid
  {
    ValidWhenSumDivides("1032640960", 143);
  }

  lemma Listed1740296788()
    ensures IsTrimmed("1740296788") && Validation("1740296788") == Valid
  {
    ValidWhenSumDivides("1740296788", 231);
  }

  lemma Listed9278462608()
    ensures IsTrimmed("9278462608") && Validation("9278462608") == Valid
  {
    ValidWhenSumDivides("9278462608", 308);
  }

  lemma Listed7448556886()
    ensures IsTrimmed("7448556886") && Validation("7448556886") == Valid
  {
    ValidWhenSumDivides("7448556886", 319);
  }

  lemma Listed0372104223()
    ensures IsTrimmed("0372104223") && Validation("0372104223") == Valid
  {
    ValidWhenSumDivides("0372104223", 132);
  }

  lemma Listed8416367035()
    ensures IsTrimmed("8416367035") && Validation("8416367035") == Valid
  {
    ValidWhenSumDivides("8416367035", 253);
  }

  lemma ListedAt(k: nat)
    requires k < |ValidNumbers|
    ensures IsTrimmed(ValidNumbers[k]) && Validation(ValidNumbers[k]) == Valid
  {
    if k == 0 { Listed9077844449(); }
    else if k == 1 { Listed4698651433(); }
    else if k == 2 { Listed5835160933(); }
    else if k == 3 { Listed5462903022(); }
    else if k == 4 { Listed1032640960(); }
    else if k == 5 { Listed1740296788(); }
    else if k == 6 { Listed9278462608(); }
    else if k == 7 { Listed7448556886(); }
    else if k == 8 { Listed0372104223(); }
    else { Listed8416367035(); }
  }

  /** Each of the ten listed numbers is stored as given (trimming leaves it
      alone) and passes `validate`. */
  lemma ListedNumbersAreValid()
    ensures forall k :: 0 <= k < |ValidNumbers| ==> IsTrimmed(ValidNumbers[k]) && Validation(ValidNumbers[k]) == Valid
  {
    forall k | 0 <= k < |ValidNumbers| {
      ListedAt(k);
    }
  }

  /** A sentence fails with the format error. */
  lemma SentenceRejected()
    ensures IsTrimmed("Hello world.") && Validation("Hello world.") == Invalid(InvalidFormat)
  {
  }

  /** An integer of five digits fails with the format error. */
  lemma ShortIntegerRejected()
    ensures IsTrimmed(IntToString(12345)) && Validation(IntToString(12345)) == Invalid(InvalidFormat)
  {
    IntToStringPlain(12345);
    DecimalLengthBounds(12345);
    assert Pow10(5) == 100000;
  }

  /** `isValid` is false for a four-digit string. */
  lemma FourDigitsNotValid()
    ensures Validation(Trim("1000")) != Valid
  {
  }

  /** Ten digits with the wrong check digit fail with the checksum error. */
  lemma WrongCheckDigitRejected()
    ensures IsTrimmed("1234567890") && Validation("1234567890") == Invalid(ChecksumMismatch)
  {
    assert TenDigits("1234567890");
    assert WeightedSum("1234567890", 9) == 210;
  }

  /** The display form of the tests' example. */
  lemma FormatExample()
    ensures Grouped("9077844449") == "907 784 4449"
  {
  }
}
