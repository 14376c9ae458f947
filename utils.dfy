/**
 * The front end's MNEE amount helpers (src/lib/utils.ts): `formatMNEE` prints a
 * base-unit amount (an integer scaled by 10^18, as the ERC-20 token stores it)
 * as a decimal string, `parseMNEE` reads such a string back into base units, and
 * `formatAddress` / `formatTxHash` shorten hex strings for display.
 */
module Utils {
  import opened JsString
  import opened Decimal

  /** MNEE has 18 decimals. */
  const Decimals: nat := 18

  /** `BigInt(10 ** 18)`: 10^18 is exactly representable as a JavaScript number. */
  const Scale: nat := 1_000_000_000_000_000_000

  lemma ScaleIsPow10()
    ensures Scale == Pow10(Decimals)
  {
    assert Pow10(6) == 1_000_000;
    assert Pow10(12) == 1_000_000_000_000;
    assert Pow10(18) == 1_000_000_000_000_000_000;
  }

  /** The fraction digits a formatted amount may carry: 1 to 18 digits, no trailing '0'. */
  predicate IsFractionText(t: string)
  {
    AllDigits(t) && 1 <= |t| <= Decimals && t[|t| - 1] != '0'
  }

  /**
   * `fraction.toString().padStart(18, '0').replace(/0+$/, '')` for
   * `fraction = value % 10^18`: the fractional digits with trailing zeros dropped.
   * Read as the first digits after the point, they give back the fraction exactly.
   */
  function FractionDigits(value: nat): (t: string)
    ensures AllDigits(t) && |t| <= Decimals
    ensures t == [] || t[|t| - 1] != '0'
    ensures t == [] <==> value % Scale == 0
    ensures DigitsValue(t) * Pow10(Decimals - |t|) == value % Scale
  {
    var fraction := value % Scale;
    ScaleIsPow10();
    PadDecimalString(fraction, Decimals);
    FixedDigitsValue(fraction, Decimals);
    var padded := PadStart(DecimalString(fraction), Decimals, '0');
    var t := TrimTrailingZeros(padded);
    TrimZerosSplit(padded);
    ZerosValue(Decimals - |t|);
    DigitsValueAppend(t, Repeat('0', Decimals - |t|));
    FixedDigitsZero(Decimals);
    t
  }

  /**
   * formatMNEE: the whole units, then a '.' and the fraction digits only when
   * the fraction is not zero.
   */
  function FormatMNEE(value: nat): (r: string)
    ensures Split(r, '.')[0] == DecimalString(value / Scale)
    ensures '.' in r <==> value % Scale != 0
    ensures '.' in r ==> |Split(r, '.')| == 2 && IsFractionText(Split(r, '.')[1])
  {
    var whole := DecimalString(value / Scale);
    var trimmed := FractionDigits(value);
    DigitsExclude(whole, '.');
    DigitsExclude(trimmed, '.');
    SplitAt(whole, trimmed, '.');
    if trimmed != "" then whole + "." + trimmed else whole
  }

  /** `parts[0] || '0'` with `parts = amount.split('.')`: the text read as whole units. */
  function WholeText(amount: string): (w: string)
    ensures w != "" && '.' !in w
    ensures w == Split(amount, '.')[0] || (Split(amount, '.')[0] == "" && w == "0")
    ensures '.' !in amount && amount != "" ==> w == amount
  {
    var part := Split(amount, '.')[0];
    if part != "" then part else "0"
  }

  /**
   * `parts[1]?.padEnd(18, '0').slice(0, 18) || '0'`: the text read as the
   * fraction, cut or zero-filled to exactly 18 digits ("0" without a '.').
   */
  function FractionText(amount: string): (f: string)
    ensures |f| == Decimals || f == "0"
    ensures f == "0" <==> |Split(amount, '.')| == 1
  {
    var parts := Split(amount, '.');
    if |parts| > 1 then
      var f := Slice(PadEnd(parts[1], Decimals, '0'), 0, Decimals);
      if f != "" then f else "0"
    else "0"
  }

  /** The two strings parseMNEE hands to BigInt are plain decimal digits. */
  predicate ParsableAmount(amount: string)
  {
    AllDigits(WholeText(amount)) && AllDigits(FractionText(amount))
  }

  /**
   * parseMNEE: whole units times 10^18 plus the fraction digits. The fraction
   * never carries into the whole units.
   */
  function ParseMNEE(amount: string): (r: nat)
    requires ParsableAmount(amount)
    ensures r / Scale == DigitsValue(WholeText(amount))
    ensures r % Scale == DigitsValue(FractionText(amount))
  {
    ScaleIsPow10();
    DivModScale(DigitsValue(WholeText(amount)), DigitsValue(FractionText(amount)));
    DigitsValue(WholeText(amount)) * Scale + DigitsValue(FractionText(amount))
  }

  lemma DivModScale(q: nat, f: nat)
    requires f < Scale
    ensures (q * Scale + f) / Scale == q && (q * Scale + f) % Scale == f
  {
  }

  // ---------------------------------------------------------------------------
  // What parseMNEE computes
  // ---------------------------------------------------------------------------

  /** The fraction text of "w.f" with at most 18 digits: `f` followed by zeros. */
  lemma FractionTextOf(w: string, f: string)
    requires AllDigits(w) && AllDigits(f) && |f| <= Decimals
    ensures Split(w + "." + f, '.') == [w, f]
    ensures WholeText(w + "." + f) == (if w == "" then "0" else w)
    ensures FractionText(w + "." + f) == f + Repeat('0', Decimals - |f|)
  {
    DigitsExclude(w, '.');
    DigitsExclude(f, '.');
    SplitAt(w, f, '.');
    var padded := PadEnd(f, Decimals, '0');
    assert Slice(padded, 0, Decimals) == padded[0..Decimals];
    assert padded[0..Decimals] == padded;
  }

  /** `parseMNEE("w.f")` with at most 18 fraction digits is w·10^18 + f·10^(18-|f|). */
  lemma ParseWithFraction(w: string, f: string)
    requires AllDigits(w) && AllDigits(f) && |f| <= Decimals
    ensures ParsableAmount(w + "." + f)
    ensures ParseMNEE(w + "." + f) == DigitsValue(w) * Scale + DigitsValue(f) * Pow10(Decimals - |f|)
  {
    var amount, zeros := w + "." + f, Repeat('0', Decimals - |f|);
    FractionTextOf(w, f);
    ZerosValue(Decimals - |f|);
    DigitsValueAppend(f, zeros);
    ZeroWholeText(w);
    ParseValue(amount);
  }

  /** parseMNEE's sum, for the lemmas that reason about it as an expression. */
  lemma ParseValue(amount: string)
    requires ParsableAmount(amount)
    ensures ParseMNEE(amount) == DigitsValue(WholeText(amount)) * Scale + DigitsValue(FractionText(amount))
  {
  }

  /** An empty whole part reads like "0". */
  lemma ZeroWholeText(w: string)
    requires AllDigits(w)
    ensures AllDigits(if w == "" then "0" else w)
    ensures DigitsValue(if w == "" then "0" else w) == DigitsValue(w)
  {
    if w == "" {
      assert "0"[..0] == "";
    }
  }

  /** Without a fraction ("w" or "w.") the fraction contributes nothing. */
  lemma ParseWithoutFraction(w: string)
    requires AllDigits(w)
    ensures ParsableAmount(w) && ParsableAmount(w + ".")
    ensures ParseMNEE(w) == DigitsValue(w) * Scale
    ensures ParseMNEE(w + ".") == DigitsValue(w) * Scale
  {
    DigitsExclude(w, '.');
    assert Split(w, '.') == [w];
    assert DigitsValue("0") == 0 by {
      assert "0"[..0] == "";
    }
    ZeroWholeText(w);
    ParseValue(w);
    ParseWithFraction(w, "");
    assert w + "." + "" == w + ".";
  }

  /** An empty whole part ("." + f) parses like "0." + f. */
  lemma ParseEmptyWhole(f: string)
    requires AllDigits(f) && |f| <= Decimals
    ensures ParsableAmount("." + f) && ParsableAmount("0." + f)
    ensures ParseMNEE("." + f) == ParseMNEE("0." + f)
  {
    var x := DigitsValue(f) * Pow10(Decimals - |f|);
    assert ParsableAmount("." + f) && ParseMNEE("." + f) == x by {
      ParseWithFraction("", f);
      assert "" + "." + f == "." + f;
    }
    assert ParsableAmount("0." + f) && ParseMNEE("0." + f) == x by {
      ParseWithFraction("0", f);
      assert "0" + "." + f == "0." + f;
      assert "0"[..0] == "";
    }
  }

  /**
   * parseMNEE reads at most 18 fraction digits: whatever follows the 18th
   * (further digits, another '.', anything) does not change the result.
   */
  lemma ParseTruncates(w: string, f: string, rest: string)
    requires AllDigits(w) && AllDigits(f) && |f| == Decimals
    ensures ParsableAmount(w + "." + f + rest) && ParsableAmount(w + "." + f)
    ensures ParseMNEE(w + "." + f + rest) == ParseMNEE(w + "." + f)
  {
    FractionTextOf(w, f);
    DigitsExclude(w, '.');
    DigitsExclude(f, '.');
    SplitPrefix(f, rest, '.');
    assert w + "." + f + rest == w + [ '.' ] + (f + rest);
    SplitAt(w, f + rest, '.');
    var p1 := f + Split(rest, '.')[0];
    assert Split(w + "." + f + rest, '.')[1] == p1;
    assert PadEnd(p1, Decimals, '0') == p1;
    assert Slice(p1, 0, Decimals) == p1[0..Decimals] == f;
    assert Repeat('0', 0) == "";
    assert f + Repeat('0', Decimals - |f|) == f;
  }

  /** Formatting and then parsing gives back the amount. */
  lemma FormatParseRoundTrip(value: nat)
    ensures ParsableAmount(FormatMNEE(value))
    ensures ParseMNEE(FormatMNEE(value)) == value
  {
    var whole := DecimalString(value / Scale);
    var t := FractionDigits(value);
    ScaleIsPow10();
    DecimalStringValue(value / Scale);
    if t != "" {
      ParseWithFraction(whole, t);
      assert FormatMNEE(value) == whole + "." + t;
    } else {
      ParseWithoutFraction(whole);
    }
  }

  /** The strings formatMNEE prints: canonical whole units, then optionally '.' and fraction text. */
  predicate IsCanonicalAmount(s: string)
  {
    var parts := Split(s, '.');
    IsCanonical(parts[0]) && (|parts| == 1 || (|parts| == 2 && IsFractionText(parts[1])))
  }

  /** formatMNEE prints exactly the canonical amount strings, and each of them parses back. */
  lemma ParseFormatRoundTrip(s: string)
    requires IsCanonicalAmount(s)
    ensures ParsableAmount(s)
    ensures FormatMNEE(ParseMNEE(s)) == s
  {
    var parts := Split(s, '.');
    var w := parts[0];
    if |parts| == 1 {
      assert s == w by {
        JoinSplit(s, '.');
      }
      FormatParseWhole(w);
    } else {
      var f := parts[1];
      assert s == w + "." + f by {
        JoinSplit(s, '.');
        assert parts[1..] == [f];
      }
      FormatParseFraction(w, f);
    }
  }

  /** A canonical whole number of tokens parses and prints back unchanged. */
  lemma FormatParseWhole(w: string)
    requires IsCanonical(w)
    ensures ParsableAmount(w) && FormatMNEE(ParseMNEE(w)) == w
  {
    CanonicalRoundTrip(w);
    assert FractionText(w) == "0" by {
      DigitsExclude(w, '.');
    }
    assert DigitsValue("0") == 0 by {
      assert "0"[..0] == "";
    }
    var r := ParseMNEE(w);
    assert r / Scale == DigitsValue(w) && r % Scale == 0;
    assert FractionDigits(r) == "";
  }

  /** Canonical whole units and fraction text, joined by '.', parse and print back unchanged. */
  lemma FormatParseFraction(w: string, f: string)
    requires IsCanonical(w) && IsFractionText(f)
    ensures ParsableAmount(w + "." + f) && FormatMNEE(ParseMNEE(w + "." + f)) == w + "." + f
  {
    var s, zeros := w + "." + f, Repeat('0', Decimals - |f|);
    CanonicalRoundTrip(w);
    assert ParsableAmount(s) && WholeText(s) == w && FractionText(s) == f + zeros by {
      FractionTextOf(w, f);
    }
    assert DigitsValue(f + zeros) == DigitsValue(f) * Pow10(Decimals - |f|) by {
      ZerosValue(Decimals - |f|);
      DigitsValueAppend(f, zeros);
    }
    var r := ParseMNEE(s);
    assert r % Scale == DigitsValue(f) * Pow10(Decimals - |f|);
    assert DecimalString(r / Scale) == w;
    FormatWithFractionText(r, f);
  }

  /** An amount whose fraction is `f` read after the point is printed with `f` after the point. */
  lemma FormatWithFractionText(value: nat, f: string)
    requires IsFractionText(f)
    requires value % Scale == DigitsValue(f) * Pow10(Decimals - |f|)
    ensures FormatMNEE(value) == DecimalString(value / Scale) + "." + f
  {
    FractionDigitsOfScaled(value, f);
  }

  /** The fraction digits of an amount whose fraction is `f` read after the point. */
  lemma FractionDigitsOfScaled(value: nat, f: string)
    requires IsFractionText(f)
    requires value % Scale == DigitsValue(f) * Pow10(Decimals - |f|)
    ensures FractionDigits(value) == f
  {
    var k := Decimals - |f|;
    var zeros := Repeat('0', k);
    var g := value % Scale;
    ScaleIsPow10();
    ZerosValue(k);
    DigitsValueAppend(f, zeros);
    assert DigitsValue(f + zeros) == g;
    FixedDigitsOfValue(f + zeros);
    assert FixedDigits(g, Decimals) == f + zeros;
    PadDecimalString(g, Decimals);
    assert PadStart(DecimalString(g), Decimals, '0') == f + zeros;
    TrimAppendedZeros(f, k);
  }

  // ---------------------------------------------------------------------------
  // Display truncation
  // ---------------------------------------------------------------------------

  function Min(a: nat, b: nat): nat
  {
    if a < b then a else b
  }

  /** formatAddress: the first 6 characters, "...", the last 4 ("" for ""). */
  function FormatAddress(address: string): (r: string)
    ensures address == "" ==> r == ""
    ensures address != "" ==>
      r == address[..Min(6, |address|)] + "..." + address[|address| - Min(4, |address|)..]
  {
    if address == "" then "" else Slice(address, 0, 6) + "..." + SliceFrom(address, -4)
  }

  /** formatTxHash: the first 10 characters, "...", the last 8 ("" for ""). */
  function FormatTxHash(txHash: string): (r: string)
    ensures txHash == "" ==> r == ""
    ensures txHash != "" ==>
      r == txHash[..Min(10, |txHash|)] + "..." + txHash[|txHash| - Min(8, |txHash|)..]
  {
    if txHash == "" then "" else Slice(txHash, 0, 10) + "..." + SliceFrom(txHash, -8)
  }
}
