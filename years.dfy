/**
 * The text form of a `java.time.Year`: `toString` writes the value as
 * `Integer.toString` does, and JDK 8's `Year.parse` reads it with the strict ISO
 * pattern of four to ten digits whose sign rule is "exceeds pad": a year
 * written with more than four digits needs an explicit sign, a `+` is
 * refused before exactly four digits, and minus zero is refused.
 *
 * The conference dialog pre-fills its year field with `toString` and reads it
 * back with `parse`; `YearTextRoundTrip` says for which years that round trip
 * succeeds.
 */
module Years {
  import opened Wrappers
  import opened Domain

  predicate AllDigits(s: string) {
    forall i :: 0 <= i < |s| ==> '0' <= s[i] <= '9'
  }

  /** The number that a string of decimal digits denotes. */
  function DigitsValue(s: string): nat
    requires AllDigits(s)
  {
    if s == [] then 0 else 10 * DigitsValue(s[..|s| - 1]) + (s[|s| - 1] as int - '0' as int)
  }

  /** Reading the digits that `Decimal` writes gives the number back. */
  lemma {:induction false} DigitsValueOfDecimal(n: nat)
    ensures AllDigits(Decimal(n))
    ensures DigitsValue(Decimal(n)) == n
  {
    var s := Decimal(n);
    if n >= 10 {
      assert s[..|s| - 1] == Decimal(n / 10);
      DigitsValueOfDecimal(n / 10);
    }
  }

  function Pow10(k: nat): (p: nat)
    ensures p >= 1
  {
    if k == 0 then 1 else 10 * Pow10(k - 1)
  }

  /** `Decimal(n)` has more than `k` digits exactly when `n` is at least `10^k`. */
  lemma {:induction false} DecimalWidth(n: nat, k: nat)
    requires k >= 1
    ensures |Decimal(n)| > k <==> n >= Pow10(k)
  {
    if k > 1 && n >= 10 {
      DecimalWidth(n / 10, k - 1);
      assert |Decimal(n)| == |Decimal(n / 10)| + 1;
    }
  }

  /** `Year.toString`: the value in decimal, with a leading `-` when negative. */
  function YearText(y: Year): (s: string)
    ensures y >= 0 ==> s == Decimal(y)
    ensures y < 0 ==> s == "-" + Decimal(-y)
    ensures |s| >= 1 && forall i :: 0 <= i < |s| ==> s[i] == '-' || '0' <= s[i] <= '9'
  {
    if y < 0 then "-" + Decimal(-y) else Decimal(y)
  }

  /**
   * `Year.parse`. Every refusal is a `DateTimeParseException`, a value
   * outside the range of `Year` included.
   */
  function ParseYear(text: string): (r: Result<Year, Failure>)
    ensures r.Err? ==> r.error == DateTimeParse
    // no sign: exactly four digits
    ensures |text| > 0 && '0' <= text[0] <= '9' ==> (r.Ok? <==> |text| == 4 && AllDigits(text))
    ensures |text| > 0 && '0' <= text[0] <= '9' && r.Ok? ==> r.value == DigitsValue(text) <= 9999
    // `+`: five to ten digits, the value within range
    ensures |text| > 0 && text[0] == '+' ==>
      (r.Ok? <==> 6 <= |text| <= 11 && AllDigits(text[1..]) && DigitsValue(text[1..]) <= MAX_YEAR)
    ensures |text| > 0 && text[0] == '+' && r.Ok? ==> r.value == DigitsValue(text[1..])
    // `-`: four to ten digits, not all zero, the value within range
    ensures |text| > 0 && text[0] == '-' ==>
      (r.Ok? <==> 5 <= |text| <= 11 && AllDigits(text[1..]) && 0 < DigitsValue(text[1..]) <= -MIN_YEAR)
    ensures |text| > 0 && text[0] == '-' && r.Ok? ==> r.value == -(DigitsValue(text[1..]) as int)
    // anything else is refused
    ensures r.Ok? ==> |text| > 0 && (text[0] == '+' || text[0] == '-' || '0' <= text[0] <= '9')
  {
    var signed := |text| > 0 && (text[0] == '-' || text[0] == '+');
    var digits := if signed then text[1..] else text;
    if !(4 <= |digits| <= 10) || !AllDigits(digits) then Err(DateTimeParse)
    else if signed && text[0] == '+' && |digits| == 4 then Err(DateTimeParse)
    else if !signed && |digits| > 4 then Err(DateTimeParse)
    else
      var magnitude: int := DigitsValue(digits);
      assert !signed ==> digits == text && magnitude < Pow10(4) by {
        if !signed {
          DigitsValueBelow(digits);
        }
      }
      if signed && text[0] == '-' && magnitude == 0 then Err(DateTimeParse)
      else
        var value := if signed && text[0] == '-' then -magnitude else magnitude;
        if value < MIN_YEAR || MAX_YEAR < value then Err(DateTimeParse)
        else Ok(value)
  }

  /** A string of `k` digits denotes a number below `10^k`. */
  lemma {:induction false} DigitsValueBelow(s: string)
    requires AllDigits(s)
    ensures DigitsValue(s) < Pow10(|s|)
  {
    if s != [] {
      DigitsValueBelow(s[..|s| - 1]);
    }
  }

  /**
   * Reading back the text `toString` writes gives the same year for the
   * years from 1000 to 9999 and for those at or below -1000, and fails with
   * a parse error for every other year (fewer than four digits, or more than
   * four with no sign).
   */
  lemma {:induction false} YearTextRoundTrip(y: Year)
    ensures ParseYear(YearText(y)).Ok? <==> (1000 <= y <= 9999 || y <= -1000)
    ensures ParseYear(YearText(y)).Ok? ==> ParseYear(YearText(y)).value == y
  {
    var m: nat := if y < 0 then -y else y;
    DecimalWidth(m, 3);
    DecimalWidth(m, 4);
    DecimalWidth(m, 10);
    DigitsValueOfDecimal(m);
    var text := YearText(y);
    if y < 0 {
      assert text[1..] == Decimal(m);
    } else {
      assert text == Decimal(m);
      assert '0' <= text[0] <= '9';
    }
  }
}
