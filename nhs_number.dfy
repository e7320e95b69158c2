/** UK NHS numbers: the modulus-11 check digit, the two-way failure
    classification of `validate`, the 3-3-4 display format, and the
    accept/reject loop that collects generated numbers. */
module Nhs {
  import opened PhpStrings
  import opened Collecting

  datatype ValidationError = InvalidFormat | ChecksumMismatch

  /** What `validate` produces: success, or the kind of
      `InvalidNhsNumberException` it throws. */
  datatype Outcome = Valid | Invalid(error: ValidationError)

  datatype Option<T> = None | Some(value: T)

  /** The multiplier for each logical position 1..9 of the first nine digits. */
  const Multipliers: map<int, int> := map[1 := 10, 2 := 9, 3 := 8, 4 := 7, 5 := 6, 6 := 5, 7 := 4, 8 := 3, 9 := 2]

  /** Weight of the digit at string index `i`: 10 for index 0 down to 2 for
      index 8 (and 1 for index 9, the check digit itself). */
  function Weight(i: nat): int {
    10 - i
  }

  lemma MultipliersAreWeights()
    ensures forall p :: p in Multipliers <==> 1 <= p <= 9
    ensures forall p :: 1 <= p <= 9 ==> Multipliers[p] == Weight(p - 1)
  {
  }

  /** Exactly ten ASCII digits. */
  predicate TenDigits(s: string) {
    |s| == 10 && AllDigits(s)
  }

  /** PHP `preg_match('/^[0-9]{10}$/', s)`: without the D modifier `$` also
      matches just before a final newline. */
  predicate PatternMatches(s: string): (b: bool)
    ensures TenDigits(s) ==> b
    ensures b ==> |s| >= 10 && FirstNineDigits(s) && IsDigit(s[9])
  {
    TenDigits(s) || (|s| == 11 && TenDigits(s[..10]) && s[10] == '\n')
  }

  predicate FirstNineDigits(s: string) {
    |s| >= 9 && forall k :: 0 <= k < 9 ==> IsDigit(s[k])
  }

  /** Sum of the first `n` digits, each times its weight. */
  function WeightedSum(s: string, n: nat): (r: int)
    requires n <= |s| && forall k :: 0 <= k < n ==> IsDigit(s[k])
    ensures r <= 90 * n
    ensures n <= 10 ==> 0 <= r
  {
    if n == 0 then 0 else WeightedSum(s, n - 1) + DigitValue(s[n - 1]) * Weight(n - 1)
  }

  /** The check value: 11 minus the weighted sum modulo 11, with 11 read as 0. */
  function CheckValue(s: string): (t: int)
    requires FirstNineDigits(s)
    ensures 0 <= t <= 10
    ensures (WeightedSum(s, 9) + t) % 11 == 0
  {
    var total := 11 - WeightedSum(s, 9) % 11;
    if total == 11 then 0 else total
  }

  /** `validate` on the stored string: the format check comes first, then
      the check value is compared with the digit at index 9. */
  function Validation(s: string): (r: Outcome)
    ensures r == Invalid(InvalidFormat) <==> !PatternMatches(s)
    ensures r == Valid ==> (WeightedSum(s, 9) + DigitValue(s[9])) % 11 == 0
    ensures r == Valid ==> CheckValue(s) <= 9
  {
    if !PatternMatches(s) then Invalid(InvalidFormat)
    else if CheckValue(s) != DigitValue(s[9]) then Invalid(ChecksumMismatch)
    else Valid
  }

  /** The 3-3-4 display form. */
  function Grouped(s: string): (g: string)
    requires |s| == 10
    ensures |g| == 12 && g[3] == ' ' && g[7] == ' '
    ensures forall k :: 0 <= k < 10 ==> g[k + (if k < 3 then 0 else if k < 6 then 1 else 2)] == s[k]
  {
    s[..3] + " " + s[3..6] + " " + s[6..]
  }

  // ---------------------------------------------------------------------
  // Properties of the check value and of validation

  /** `v` is a possible check value for weighted sum `w`. */
  predicate Completes(w: int, v: int) {
    0 <= v <= 10 && (w + v) % 11 == 0
  }

  /** The check value is the unique value in 0..10 that makes the weighted
      sum plus itself a multiple of 11. */
  lemma CheckValueCharacterised(s: string)
    requires FirstNineDigits(s)
    ensures Completes(WeightedSum(s, 9), CheckValue(s))
    ensures forall v :: Completes(WeightedSum(s, 9), v) ==> v == CheckValue(s)
  {
    var w := WeightedSum(s, 9);
    var q := w / 11;
    var m := w % 11;
    assert w == 11 * q + m;
    forall v | Completes(w, v)
      ensures v == CheckValue(s)
    {
      var q' := (w + v) / 11;
      assert w + v == 11 * q';
      assert 11 * (q' - q) == m + v;
      assert 0 <= m + v <= 20;
      if m + v == 0 {
        assert CheckValue(s) == 0;
      } else {
        assert q' - q == 1;
      }
    }
  }

  /** On a trimmed string (what the constructor stores) the pattern means
      exactly ten digits: the trailing-newline case of `$` cannot arise. */
  lemma PatternOnTrimmed(s: string)
    requires IsTrimmed(s)
    ensures PatternMatches(s) <==> TenDigits(s)
  {
  }

  /** Success and checksum mismatch, both directions. */
  lemma ValidationCases(s: string)
    ensures Validation(s) == Valid <==> PatternMatches(s) && CheckValue(s) == DigitValue(s[9])
    ensures Validation(s) == Invalid(ChecksumMismatch) <==> PatternMatches(s) && CheckValue(s) != DigitValue(s[9])
  {
  }

  /** A check value of 10 has no digit to match, so such a number always
      fails with the checksum error and never succeeds. */
  lemma CheckValueTenRejected(s: string)
    requires PatternMatches(s) && CheckValue(s) == 10
    ensures Validation(s) == Invalid(ChecksumMismatch)
  {
  }

  /** The modulus-11 rule in its usual form: ten digits whose weighted sum,
      with weights 10 down to 1, is a multiple of 11. */
  lemma ValidIffModulus11(s: string)
    requires TenDigits(s)
    ensures Validation(s) == Valid <==> WeightedSum(s, 10) % 11 == 0
  {
    CheckValueCharacterised(s);
    var d := DigitValue(s[9]);
    assert WeightedSum(s, 10) == WeightedSum(s, 9) + d;
  }

  /** Around its two spaces the display form holds the digit groups 3-3-4
      in order. */
  lemma GroupedShape(s: string)
    requires |s| == 10
    ensures Grouped(s)[..3] == s[..3] && Grouped(s)[4..7] == s[3..6] && Grouped(s)[8..] == s[6..]
  {
  }

  /** Removing the spaces from the display form gives the number back. */
  lemma GroupedUngroups(s: string)
    requires TenDigits(s)
    ensures RemoveSpaces(Grouped(s)) == s
  {
    var a, b, c := s[..3], s[3..6], s[6..];
    RemoveSpacesOfSpaceFree(a);
    RemoveSpacesOfSpaceFree(b);
    RemoveSpacesOfSpaceFree(c);
    assert RemoveSpaces(" ") == [];
    var x := a + " ";
    var y := x + b;
    var z := y + " ";
    assert Grouped(s) == z + c;
    RemoveSpacesConcat(a, " ");
    RemoveSpacesConcat(x, b);
    RemoveSpacesConcat(y, " ");
    RemoveSpacesConcat(z, c);
    assert s == a + b + c;
  }

  // ---------------------------------------------------------------------
  // The generator's accept/reject loop, as a function of the draws

  /** Whether `validate` succeeds on `new NhsNumber($number)` for an integer
      draw: the integer is cast to a string and trimmed first. */
  predicate Accepts(n: int): (b: bool)
    ensures b ==> TenDigits(Trim(IntToString(n)))
  {
    PatternOnTrimmed(Trim(IntToString(n)));
    Validation(Trim(IntToString(n))) == Valid
  }

  predicate InNhsRange(n: int) {
    1000000000 <= n <= 9999999999
  }

  /** An accepted draw is a ten-digit numeral, so it lies in the range
      `mt_rand` is asked for. */
  lemma AcceptedInRange(n: int)
    requires Accepts(n)
    ensures InNhsRange(n)
  {
    var s := IntToString(n);
    IntToStringPlain(n);
    TrimOfTrimmed(s);
    PatternOnTrimmed(s);
    assert TenDigits(s);
    DecimalLengthBounds(n);
    assert Pow10(9) == 1000000000;
  }

  /** An accepted draw, as a string, is ten digits and passes `validate`
      untrimmed. */
  lemma AcceptedIsTenDigits(n: int)
    requires Accepts(n)
    ensures TenDigits(IntToString(n)) && Validation(IntToString(n)) == Valid
  {
    AcceptedInRange(n);
    IntToStringPlain(n);
    TrimOfTrimmed(IntToString(n));
    PatternOnTrimmed(IntToString(n));
  }

  /** Every number the generator's loop collects lies in the NHS range. */
  lemma GeneratedInRange(count: int, unique: bool, draws: seq<int>)
    ensures var r := Collect(Accepts, draws, count, unique, []);
      forall k :: 0 <= k < |r| ==> InNhsRange(r[k])
  {
    var r := Collect(Accepts, draws, count, unique, []);
    CollectAccepted(Accepts, draws, count, unique, []);
    forall k | 0 <= k < |r|
      ensures InNhsRange(r[k])
    {
      AcceptedInRange(r[k]);
    }
  }

  // ---------------------------------------------------------------------
  // The class

  class NhsNumber {
    /** The trimmed input, fixed at construction. */
    const number: Trimmed

    constructor (input: string)
      ensures number == Trim(input)
    {
      number := Trim(input);
    }

    /** Returns the stored number untouched; constructing anew from it
        stores the same string. */
    function GetNumber(): (r: string)
      ensures r == number && Trim(r) == r
    {
      TrimOfTrimmed(number);
      number
    }

    /** The `for` loop over indices 0..8 summing digit times multiplier. */
    method GetChecksum() returns (sum: int)
      requires FirstNineDigits(number)
      ensures sum == WeightedSum(number, 9)
    {
      MultipliersAreWeights();
      var currentSum := 0;
      for i := 0 to 9
        invariant currentSum == WeightedSum(number, i)
      {
        var currentNumber := DigitValue(number[i]);
        var currentMultiplier := Multipliers[i + 1];
        currentSum := currentSum + currentNumber * currentMultiplier;
      }
      sum := currentSum;
    }

    method GetChecksumTotal() returns (total: int)
      requires FirstNineDigits(number)
      ensures total == CheckValue(number)
      ensures 0 <= total <= 10
      ensures (WeightedSum(number, 9) + total) % 11 == 0
    {
      var checksum := GetChecksum();
      var remainder := checksum % 11;
      total := 11 - remainder;
      if total == 11 {
        total := 0;
      }
      CheckValueCharacterised(number);
    }

    method Validate() returns (r: Outcome)
      ensures r == Validation(number)
      ensures r == Invalid(InvalidFormat) <==> !TenDigits(number)
      ensures r == Valid <==> TenDigits(number) && CheckValue(number) == DigitValue(number[9])
    {
      PatternOnTrimmed(number);
      if !PatternMatches(number) {
        return Invalid(InvalidFormat);
      }
      var total := GetChecksumTotal();
      var checkNumber := DigitValue(number[9]);
      if total != checkNumber {
        return Invalid(ChecksumMismatch);
      }
      return Valid;
    }

    /** `validate` with both failure kinds collapsed to `false`. */
    method IsValid() returns (b: bool)
      ensures b <==> Validation(number) == Valid
      ensures b <==> TenDigits(number) && WeightedSum(number, 10) % 11 == 0
    {
      var r := Validate();
      b := r == Valid;
      if TenDigits(number) {
        ValidIffModulus11(number);
      }
    }

    /** Two `substr_replace` insertions: at 3, then at 7 of the already
        extended string, which is original index 6. */
    method Format() returns (f: string)
      requires |number| == 10
      ensures f == Grouped(number)
      ensures |f| == 12 && f[3] == ' ' && f[7] == ' '
      ensures TenDigits(number) ==> RemoveSpaces(f) == number
    {
      var formattedNumber := number;
      formattedNumber := InsertAt(formattedNumber, " ", 3);
      formattedNumber := InsertAt(formattedNumber, " ", 7);
      assert formattedNumber == Grouped(number);
      GroupedShape(number);
      if TenDigits(number) {
        GroupedUngroups(number);
      }
      f := formattedNumber;
    }

    /** `__toString`: the formatted number. */
    method ToString() returns (f: string)
      requires |number| == 10
      ensures f == Grouped(number)
    {
      f := Format();
    }

    /** `getRandomNumbers`, drawing from `draws` instead of `mt_rand`. */
    static method GetRandomNumbers(count: int, unique: bool, draws: seq<int>) returns (numbers: seq<int>)
      ensures numbers == Collect(Accepts, draws, count, unique, [])
      ensures forall k :: 0 <= k < |numbers| ==> Accepts(numbers[k]) && InNhsRange(numbers[k])
      ensures unique ==> Distinct(numbers)
      ensures |numbers| <= if count < 0 then 0 else count
      ensures |numbers| < count ==> forall k :: 0 <= k < |draws| && Accepts(draws[k]) ==> draws[k] in numbers
      ensures IsSubsequence(numbers, draws)
      ensures !unique ==> numbers == Take(Filter(Accepts, draws), count)
      ensures unique ==> numbers == Take(FirstNew(Filter(Accepts, draws), []), count)
    {
      numbers := [];
      var i := 0;
      while |numbers| < count && i < |draws|
        invariant 0 <= i <= |draws|
        invariant Collect(Accepts, draws[i..], count, unique, numbers) == Collect(Accepts, draws, count, unique, [])
      {
        var number := draws[i];
        assert draws[i..][1..] == draws[i + 1..];
        i := i + 1;
        var candidate := new NhsNumber(IntToString(number));
        var outcome := candidate.Validate();
        assert outcome == Valid <==> Accepts(number);
        if outcome != Valid {
          continue;
        }
        if unique && number in numbers {
          continue;
        }
        numbers := numbers + [number];
      }
      CollectFromEmpty(Accepts, draws, count, unique);
      GeneratedInRange(count, unique, draws);
    }

    /** `getRandomNumber`: the first element of a one-number list, as a string. */
    static method GetRandomNumber(draws: seq<int>) returns (r: Option<string>)
      ensures r.None? <==> Filter(Accepts, draws) == []
      ensures r.Some? ==> r.value == IntToString(Filter(Accepts, draws)[0])
      ensures r.Some? ==> TenDigits(r.value) && Validation(r.value) == Valid
    {
      var numbers := GetRandomNumbers(1, true, draws);
      CollectOne(Accepts, draws, true);
      if |numbers| == 0 {
        r := None;
      } else {
        var s := IntToString(numbers[0]);
        AcceptedInRange(numbers[0]);
        AcceptedIsTenDigits(numbers[0]);
        r := Some(s);
      }
    }

  }
}
