/**
 * Decimal conversion between integers and text, as the guest-list script uses
 * it: `strconv.Atoi` reads the priority cell and `strconv.Itoa` writes the
 * spreadsheet row number of a link cell. Integers are mathematical here; the
 * clamping of out-of-range values that Go's Atoi performs is not modelled.
 */
module Strconv {

  predicate IsDigit(c: char) {
    '0' <= c <= '9'
  }

  function DigitValue(c: char): (d: nat)
    requires IsDigit(c)
    ensures d < 10
  {
    (c as int) - ('0' as int)
  }

  function DigitChar(d: nat): (c: char)
    requires d < 10
    ensures IsDigit(c) && DigitValue(c) == d
  {
    (('0' as int) + d) as char
  }

  predicate AllDigits(s: string) {
    forall i :: 0 <= i < |s| ==> IsDigit(s[i])
  }

  /** The value of a string of decimal digits, most significant digit first. */
  function DigitsValue(ds: string): nat
    requires AllDigits(ds)
  {
    if ds == [] then 0 else DigitsValue(ds[..|ds| - 1]) * 10 + DigitValue(ds[|ds| - 1])
  }

  predicate IsSign(c: char) {
    c == '+' || c == '-'
  }

  /** The text Atoi accepts: an optional sign followed by at least one digit. */
  predicate IsDecimal(s: string) {
    |s| > 0 &&
    if IsSign(s[0]) then |s| > 1 && AllDigits(s[1..]) else AllDigits(s)
  }

  function DecimalValue(s: string): int
    requires IsDecimal(s)
  {
    if s[0] == '-' then -(DigitsValue(s[1..]) as int)
    else if s[0] == '+' then DigitsValue(s[1..])
    else DigitsValue(s)
  }

  /**
   * Go's `strconv.Atoi`: strip one optional sign, then accumulate the digits
   * from left to right. Any other text is a syntax error, reported with the
   * value 0 (`ok` is false where Go returns a non-nil error).
   */
  method Atoi(s: string) returns (n: int, ok: bool)
    ensures ok <==> IsDecimal(s)
    ensures n == (if ok then DecimalValue(s) else 0)
  {
    if |s| == 0 {
      return 0, false;
    }
    var start := 0;
    if IsSign(s[0]) {
      start := 1;
      if |s| < 2 {
        return 0, false;
      }
    }
    var acc := 0;
    var i := start;
    while i < |s|
      invariant start <= i <= |s|
      invariant AllDigits(s[start..i])
      invariant acc == DigitsValue(s[start..i])
    {
      if !IsDigit(s[i]) {
        assert s[start..][i - start] == s[i];
        return 0, false;
      }
      assert s[start..i + 1] == s[start..i] + [s[i]];
      assert s[start..i + 1][..i - start] == s[start..i];
      acc := acc * 10 + DigitValue(s[i]);
      i := i + 1;
    }
    assert s[start..] == s[start..i];
    if s[0] == '-' {
      acc := -acc;
    }
    return acc, true;
  }

  /** The digits of a natural number, without leading zeros. */
  function NatDigits(n: nat): (s: string)
    ensures |s| > 0 && AllDigits(s)
    ensures s[0] == '0' ==> n == 0
  {
    if n < 10 then [DigitChar(n)] else NatDigits(n / 10) + [DigitChar(n % 10)]
  }

  /** Go's `strconv.Itoa`: a minus sign for negative values, then the digits. */
  function Itoa(n: int): string {
    if n < 0 then "-" + NatDigits(-n) else NatDigits(n)
  }

  /** The text Itoa produces: no plus sign, no leading zero and no "-0". */
  predicate IsCanonical(s: string) {
    IsDecimal(s) && s[0] != '+' &&
    (s[0] == '-' ==> s[1] != '0') &&
    (s[0] == '0' ==> |s| == 1)
  }

  lemma {:induction false} NatDigitsValue(n: nat)
    ensures DigitsValue(NatDigits(n)) == n
  {
    if n >= 10 {
      var s := NatDigits(n);
      assert s[..|s| - 1] == NatDigits(n / 10);
      NatDigitsValue(n / 10);
    }
  }

  /** Reading back what Itoa wrote gives the original number. */
  lemma ItoaRoundTrip(n: int)
    ensures IsCanonical(Itoa(n))
    ensures DecimalValue(Itoa(n)) == n
  {
    var s := Itoa(n);
    if n < 0 {
      assert s[1..] == NatDigits(-n);
      NatDigitsValue(-n);
    } else {
      NatDigitsValue(n);
    }
  }

  /** Distinct numbers are written as distinct text. */
  lemma ItoaInjective(a: int, b: int)
    requires Itoa(a) == Itoa(b)
    ensures a == b
  {
    ItoaRoundTrip(a);
    ItoaRoundTrip(b);
  }

  lemma {:induction false} LeadingDigitPositive(ds: string)
    requires |ds| > 0 && AllDigits(ds) && ds[0] != '0'
    ensures DigitsValue(ds) > 0
  {
    if |ds| > 1 {
      LeadingDigitPositive(ds[..|ds| - 1]);
    }
  }

  lemma {:induction false} DigitsRoundTrip(ds: string)
    requires |ds| > 0 && AllDigits(ds)
    requires ds[0] == '0' ==> |ds| == 1
    ensures NatDigits(DigitsValue(ds)) == ds
  {
    if |ds| > 1 {
      var p := ds[..|ds| - 1];
      LeadingDigitPositive(p);
      DigitsRoundTrip(p);
    }
  }

  /** Writing back what Atoi read gives the original text, when it was canonical. */
  lemma CanonicalRoundTrip(s: string)
    requires IsCanonical(s)
    ensures Itoa(DecimalValue(s)) == s
  {
    if s[0] == '-' {
      DigitsRoundTrip(s[1..]);
      LeadingDigitPositive(s[1..]);
      assert s == "-" + s[1..];
    } else {
      DigitsRoundTrip(s);
    }
  }
}
