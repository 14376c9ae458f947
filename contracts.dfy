/**
 * The second copy of the amount helpers (src/lib/contracts.ts). Its
 * `formatMNEE` always prints the '.', so a whole number of tokens is printed
 * with a trailing point ("1.", "0."); its `parseMNEE` is the same as the one in
 * src/lib/utils.ts.
 */
module Contracts {
  import opened JsString
  import opened Decimal
  import Utils

  /** formatMNEE: whole units, '.', then the fraction digits without trailing zeros. */
  function FormatMNEE(value: nat): (r: string)
    ensures |Split(r, '.')| == 2
    ensures Split(r, '.')[0] == DecimalString(value / Utils.Scale)
    ensures var t := Split(r, '.')[1];
      && AllDigits(t) && |t| <= Utils.Decimals
      && (t == [] <==> value % Utils.Scale == 0)
      && (t == [] || t[|t| - 1] != '0')
    ensures r[|r| - 1] == '.' <==> value % Utils.Scale == 0
  {
    var whole := DecimalString(value / Utils.Scale);
    var trimmed := Utils.FractionDigits(value);
    DigitsExclude(whole, '.');
    DigitsExclude(trimmed, '.');
    SplitAt(whole, trimmed, '.');
    whole + "." + trimmed
  }

  /** parseMNEE: the same expression as in src/lib/utils.ts. */
  function ParseMNEE(amount: string): (r: nat)
    requires Utils.ParsableAmount(amount)
    ensures r / Utils.Scale == DigitsValue(Utils.WholeText(amount))
    ensures r % Utils.Scale == DigitsValue(Utils.FractionText(amount))
  {
    Utils.ScaleIsPow10();
    Utils.DivModScale(DigitsValue(Utils.WholeText(amount)), DigitsValue(Utils.FractionText(amount)));
    DigitsValue(Utils.WholeText(amount)) * Utils.Scale + DigitsValue(Utils.FractionText(amount))
  }

  /** The two parseMNEE copies agree on every input. */
  lemma ParsersAgree(amount: string)
    requires Utils.ParsableAmount(amount)
    ensures ParseMNEE(amount) == Utils.ParseMNEE(amount)
  {
  }

  /** The two formatMNEE copies differ only in the '.' this one prints after a whole number. */
  lemma FormattersAgree(value: nat)
    ensures FormatMNEE(value) ==
      if value % Utils.Scale == 0 then Utils.FormatMNEE(value) + "." else Utils.FormatMNEE(value)
  {
    var t := Utils.FractionDigits(value);
    if t == "" {
      assert FormatMNEE(value) == DecimalString(value / Utils.Scale) + ".";
    }
  }

  /** Formatting and then parsing gives back the amount, also when the output ends in '.'. */
  lemma FormatParseRoundTrip(value: nat)
    ensures Utils.ParsableAmount(FormatMNEE(value))
    ensures ParseMNEE(FormatMNEE(value)) == value
  {
    var t := Utils.FractionDigits(value);
    FormattersAgree(value);
    Utils.FormatParseRoundTrip(value);
    if t == "" {
      var whole := DecimalString(value / Utils.Scale);
      Utils.ParseWithoutFraction(whole);
    }
  }

  /** One token prints as "1." and zero as "0.". */
  lemma WholeAmountsEndInPoint()
    ensures FormatMNEE(Utils.Scale) == "1."
    ensures FormatMNEE(0) == "0."
  {
    var one := Utils.Scale;
    assert one / Utils.Scale == 1 && one % Utils.Scale == 0;
    assert Utils.FractionDigits(one) == "";
    assert Utils.FractionDigits(0) == "";
    assert DecimalString(1) == "1" && DecimalString(0) == "0";
  }
}
