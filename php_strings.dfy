/** The few PHP string primitives the NHS number class relies on:
    `trim`, the `(string)` cast of an integer, the `(int)` cast of a
    one-digit string and `substr_replace` with length 0 (an insertion). */
module PhpStrings {

  /** The characters PHP's `trim` strips by default: space, tab, newline,
      carriage return, NUL and vertical tab. */
  predicate IsTrimChar(c: char) {
    c == ' ' || c == '\t' || c == '\n' || c == '\r' || c == '\0' || c == '\U{000B}'
  }

  /** A string that `trim` leaves alone: empty, or neither end is a trim character. */
  predicate IsTrimmed(s: string) {
    s == [] || (!IsTrimChar(s[0]) && !IsTrimChar(s[|s| - 1]))
  }

  type Trimmed = s: string | IsTrimmed(s) witness ""

  /** Index of the first character that is not a trim character (|s| if
      there is none). */
  function TrimStart(s: string): (i: nat)
    ensures i <= |s|
    ensures forall k :: 0 <= k < i ==> IsTrimChar(s[k])
    ensures i < |s| ==> !IsTrimChar(s[i])
  {
    if s == [] || !IsTrimChar(s[0]) then 0 else 1 + TrimStart(s[1..])
  }

  /** End of `s[lo..hi]` once trailing trim characters are dropped. */
  function TrimEnd(s: string, lo: nat, hi: nat): (j: nat)
    requires lo <= hi <= |s|
    ensures lo <= j <= hi
    ensures forall k :: j <= k < hi ==> IsTrimChar(s[k])
    ensures j > lo ==> !IsTrimChar(s[j - 1])
    decreases hi
  {
    if hi > lo && IsTrimChar(s[hi - 1]) then TrimEnd(s, lo, hi - 1) else hi
  }

  /** PHP `trim`: strip trim characters from both ends; the result is
      itself trimmed. */
  function Trim(s: string): (r: Trimmed)
    ensures |r| <= |s|
  {
    var i := TrimStart(s);
    s[i..TrimEnd(s, i, |s|)]
  }

  /** `trim` removes only trim characters, and only at the ends: its result
      is the infix of `s` between a run of leading and a run of trailing
      trim characters. */
  lemma TrimIsInfix(s: string)
    ensures var i := TrimStart(s);
      i + |Trim(s)| <= |s| && Trim(s) == s[i..i + |Trim(s)|] &&
      (forall k :: 0 <= k < i ==> IsTrimChar(s[k])) &&
      (forall k :: i + |Trim(s)| <= k < |s| ==> IsTrimChar(s[k]))
  {
  }

  /** `trim` leaves a trimmed string unchanged, so `trim(trim(x)) == trim(x)`. */
  lemma TrimOfTrimmed(s: string)
    ensures Trim(s) == s <==> IsTrimmed(s)
  {
    if IsTrimmed(s) && s != [] {
      assert TrimStart(s) == 0;
      assert TrimEnd(s, 0, |s|) == |s|;
    }
  }

  lemma TrimIdempotent(s: string)
    ensures Trim(Trim(s)) == Trim(s)
  {
    TrimOfTrimmed(Trim(s));
  }

  predicate IsDigit(c: char) {
    '0' <= c <= '9'
  }

  predicate AllDigits(s: string) {
    forall k :: 0 <= k < |s| ==> IsDigit(s[k])
  }

  /** PHP `(int)` applied to a one-character digit string. */
  function DigitValue(c: char): (d: nat)
    requires IsDigit(c)
    ensures d <= 9
  {
    c as int - '0' as int
  }

  function DigitChar(d: nat): (c: char)
    requires d <= 9
    ensures IsDigit(c) && DigitValue(c) == d
  {
    ('0' as int + d) as char
  }

  /** Decimal numeral of a natural number, without leading zeros. */
  function NatToDecimal(n: nat): (r: string)
    ensures |r| >= 1 && AllDigits(r)
    ensures r[0] == '0' ==> n == 0
  {
    if n < 10 then [DigitChar(n)] else NatToDecimal(n / 10) + [DigitChar(n % 10)]
  }

  /** PHP's `(string)` cast of an integer: a minus sign for negative values. */
  function IntToString(n: int): string
  {
    if n < 0 then "-" + NatToDecimal(-n) else NatToDecimal(n)
  }

  /** The value a digit string denotes, most significant digit first. */
  function DecimalValue(s: string): nat
    requires AllDigits(s)
  {
    if s == [] then 0 else DecimalValue(s[..|s| - 1]) * 10 + DigitValue(s[|s| - 1])
  }

  function Pow10(k: nat): (p: nat)
    ensures p >= 1
  {
    if k == 0 then 1 else 10 * Pow10(k - 1)
  }

  /** Reading the numeral back gives the number. */
  lemma {:induction false} DecimalRoundTrip(n: nat)
    ensures DecimalValue(NatToDecimal(n)) == n
  {
    if n >= 10 {
      var p := NatToDecimal(n / 10);
      var r := NatToDecimal(n);
      assert r == p + [DigitChar(n % 10)];
      assert r[..|r| - 1] == p;
      DecimalRoundTrip(n / 10);
    }
  }

  /** What the cast means: a non-negative integer becomes digits denoting
      it; a negative one becomes a minus sign followed by digits denoting
      its magnitude. */
  lemma IntToStringDenotes(n: int)
    ensures n >= 0 ==> AllDigits(IntToString(n)) && DecimalValue(IntToString(n)) == n
    ensures n < 0 ==>
      IntToString(n)[0] == '-' && AllDigits(IntToString(n)[1..]) && DecimalValue(IntToString(n)[1..]) == -n
  {
    if n >= 0 {
      DecimalRoundTrip(n);
    } else {
      assert IntToString(n)[1..] == NatToDecimal(-n);
      DecimalRoundTrip(-n);
    }
  }

  /** A numeral of `k` digits denotes a number below 10^k, and at least
      10^(k-1) when it has more than one digit. */
  lemma {:induction false} DecimalLengthBounds(n: nat)
    ensures n < Pow10(|NatToDecimal(n)|)
    ensures |NatToDecimal(n)| > 1 ==> Pow10(|NatToDecimal(n)| - 1) <= n
  {
    if n >= 10 {
      DecimalLengthBounds(n / 10);
      var k := |NatToDecimal(n / 10)|;
      assert |NatToDecimal(n)| == k + 1;
      assert n == 10 * (n / 10) + n % 10;
      if k > 1 {
        assert Pow10(k) == 10 * Pow10(k - 1);
      }
    }
  }

  /** PHP `substr_replace(s, ins, off, 0)` for an offset inside the string:
      `ins` is inserted before position `off`. */
  function InsertAt(s: string, ins: string, off: nat): (r: string)
    requires off <= |s|
    ensures |r| == |s| + |ins|
    ensures r[..off] == s[..off] && r[off..off + |ins|] == ins && r[off + |ins|..] == s[off..]
  {
    s[..off] + ins + s[off..]
  }

  /** An integer's numeral holds no trim character, and a negative one does
      not start with a digit. */
  lemma IntToStringPlain(n: int)
    ensures forall k :: 0 <= k < |IntToString(n)| ==> !IsTrimChar(IntToString(n)[k])
    ensures n < 0 ==> !IsDigit(IntToString(n)[0])
  {
    var s := IntToString(n);
    if n < 0 {
      assert s[0] == '-';
      assert forall k :: 1 <= k < |s| ==> s[k] == NatToDecimal(-n)[k - 1];
    }
  }

  /** Removes every space; undoes the grouping done by `format`. */
  function RemoveSpaces(s: string): (r: string)
    ensures |r| <= |s|
    ensures forall k :: 0 <= k < |r| ==> r[k] != ' '
  {
    if s == [] then []
    else if s[0] == ' ' then RemoveSpaces(s[1..])
    else [s[0]] + RemoveSpaces(s[1..])
  }

  /** A string without spaces is left as it is. */
  lemma {:induction false} RemoveSpacesOfSpaceFree(s: string)
    requires forall k :: 0 <= k < |s| ==> s[k] != ' '
    ensures RemoveSpaces(s) == s
  {
    if s != [] {
      RemoveSpacesOfSpaceFree(s[1..]);
    }
  }

  lemma {:induction false} RemoveSpacesConcat(a: string, b: string)
    ensures RemoveSpaces(a + b) == RemoveSpaces(a) + RemoveSpaces(b)
  {
    if a == [] {
      assert a + b == b;
    } else {
      assert (a + b)[0] == a[0];
      assert (a + b)[1..] == a[1..] + b;
      RemoveSpacesConcat(a[1..], b);
    }
  }
}
