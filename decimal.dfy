/**
 * Decimal digit strings as JavaScript's BigInt reads and writes them:
 * `BigInt(s)` for a string of digits, `n.toString()` for a non-negative
 * bigint, and the `replace(/0+$/, '')` that strips trailing zeros.
 */
module Decimal {
  import opened JsString

  function Pow10(k: nat): (p: nat)
    ensures p >= 1
  {
    if k == 0 then 1 else 10 * Pow10(k - 1)
  }

  predicate IsDigit(c: char)
  {
    '0' <= c <= '9'
  }

  predicate AllDigits(s: string)
  {
    forall i :: 0 <= i < |s| ==> IsDigit(s[i])
  }

  function DigitValue(c: char): (d: nat)
    requires IsDigit(c)
    ensures d < 10
  {
    c as int - '0' as int
  }

  function DigitChar(d: nat): (c: char)
    requires d < 10
    ensures IsDigit(c) && DigitValue(c) == d
  {
    ('0' as int + d) as char
  }

  /** A digit string that `toString` could have printed: no leading zero except "0" itself. */
  predicate IsCanonical(s: string)
  {
    AllDigits(s) && |s| >= 1 && (s[0] == '0' ==> s == "0")
  }

  /** `BigInt(s)` for a string of decimal digits; the empty string reads as 0. */
  function DigitsValue(s: string): (v: nat)
    requires AllDigits(s)
    ensures v < Pow10(|s|)
  {
    if s == [] then 0
    else
      var v := DigitsValue(s[..|s| - 1]);
      assert v * 10 <= (Pow10(|s| - 1) - 1) * 10;
      v * 10 + DigitValue(s[|s| - 1])
  }

  /** A digit string with no leading zero is worth at least 10^(length - 1). */
  lemma {:induction false} LeadingDigitBound(s: string)
    requires AllDigits(s) && |s| >= 1 && s[0] != '0'
    ensures Pow10(|s| - 1) <= DigitsValue(s)
    decreases |s|
  {
    if |s| >= 2 {
      var front := s[..|s| - 1];
      assert front[0] == s[0];
      LeadingDigitBound(front);
    }
  }

  /** `n.toString()` for a non-negative bigint. */
  function DecimalString(n: nat): (s: string)
    ensures IsCanonical(s)
    ensures s[0] == '0' <==> n == 0
    ensures |s| == 1 <==> n < 10
  {
    if n < 10 then [DigitChar(n)] else DecimalString(n / 10) + [DigitChar(n % 10)]
  }

  /** The last `width` decimal digits of `n`, with leading zeros. */
  function FixedDigits(n: nat, width: nat): (s: string)
    ensures |s| == width && AllDigits(s)
  {
    if width == 0 then "" else FixedDigits(n / 10, width - 1) + [DigitChar(n % 10)]
  }

  /** `s.replace(/0+$/, '')`: removes the run of '0' characters at the end of `s`. */
  function TrimTrailingZeros(s: string): (r: string)
    ensures |r| <= |s| && r == s[..|r|]
    ensures forall i :: |r| <= i < |s| ==> s[i] == '0'
    ensures r == [] || r[|r| - 1] != '0'
  {
    if s != [] && s[|s| - 1] == '0' then TrimTrailingZeros(s[..|s| - 1]) else s
  }

  // ---------------------------------------------------------------------------
  // Lemmas
  // ---------------------------------------------------------------------------

  /** A digit string contains no character other than digits. */
  lemma DigitsExclude(s: string, c: char)
    requires AllDigits(s) && !IsDigit(c)
    ensures c !in s
  {
  }

  /** Reading a digit string that is split in two. */
  lemma {:induction false} DigitsValueAppend(a: string, b: string)
    requires AllDigits(a) && AllDigits(b)
    ensures AllDigits(a + b)
    ensures DigitsValue(a + b) == DigitsValue(a) * Pow10(|b|) + DigitsValue(b)
    decreases |b|
  {
    if b == [] {
      assert a + b == a;
    } else {
      var b' := b[..|b| - 1];
      var d := DigitValue(b[|b| - 1]);
      DigitsValueAppend(a, b');
      assert (a + b)[..|a + b| - 1] == a + b';
      assert (a + b)[|a + b| - 1] == b[|b| - 1];
      var x, p, y := DigitsValue(a), Pow10(|b'|), DigitsValue(b');
      assert DigitsValue(a + b) == DigitsValue(a + b') * 10 + d;
      assert DigitsValue(b) == y * 10 + d;
      assert Pow10(|b|) == p * 10;
      ShiftDigit(x, p, y, d);
    }
  }

  lemma ShiftDigit(x: nat, p: nat, y: nat, d: nat)
    ensures (x * p + y) * 10 + d == x * (p * 10) + (y * 10 + d)
  {
  }

  lemma DivMod10(q: nat, d: nat)
    requires d < 10
    ensures (q * 10 + d) / 10 == q && (q * 10 + d) % 10 == d
  {
  }

  /** A run of zeros reads as 0. */
  lemma {:induction false} ZerosValue(k: nat)
    ensures AllDigits(Repeat('0', k))
    ensures DigitsValue(Repeat('0', k)) == 0
  {
    if k > 0 {
      ZerosValue(k - 1);
      assert Repeat('0', k)[..k - 1] == Repeat('0', k - 1);
    }
  }

  /** Only a string of zeros reads as 0. */
  lemma {:induction false} ZeroValueIsZeros(s: string)
    requires AllDigits(s) && DigitsValue(s) == 0
    ensures forall i :: 0 <= i < |s| ==> s[i] == '0'
  {
    if s != [] {
      ZeroValueIsZeros(s[..|s| - 1]);
      assert forall i :: 0 <= i < |s| - 1 ==> s[i] == s[..|s| - 1][i];
    }
  }

  /** `BigInt(n.toString()) == n`. */
  lemma {:induction false} DecimalStringValue(n: nat)
    ensures DigitsValue(DecimalString(n)) == n
  {
    if n >= 10 {
      DecimalStringValue(n / 10);
      var s := DecimalString(n);
      assert s[..|s| - 1] == DecimalString(n / 10);
    }
  }

  /** A canonical digit string is printed back exactly by `toString`. */
  lemma {:induction false} CanonicalRoundTrip(s: string)
    requires IsCanonical(s)
    ensures DecimalString(DigitsValue(s)) == s
  {
    var n := DigitsValue(s);
    if |s| > 1 {
      var s' := s[..|s| - 1];
      assert s'[0] == s[0] != '0';
      assert IsCanonical(s');
      if DigitsValue(s') == 0 {
        ZeroValueIsZeros(s');
        assert false;
      }
      CanonicalRoundTrip(s');
      assert n / 10 == DigitsValue(s') && n % 10 == DigitValue(s[|s| - 1]);
      assert DigitChar(n % 10) == s[|s| - 1];
      assert s == s' + [s[|s| - 1]];
    } else {
      assert s == [DigitChar(n)];
    }
  }

  /** `n.toString()` of a value below 10^k has at most k digits. */
  lemma {:induction false} DecimalStringLength(n: nat, k: nat)
    requires k >= 1 && n < Pow10(k)
    ensures |DecimalString(n)| <= k
  {
    if n >= 10 {
      assert k >= 2;
      DecimalStringLength(n / 10, k - 1);
    }
  }

  /** `FixedDigits` of a value that fits the width reads back as that value. */
  lemma {:induction false} FixedDigitsValue(n: nat, width: nat)
    requires n < Pow10(width)
    ensures DigitsValue(FixedDigits(n, width)) == n
  {
    if width > 0 {
      FixedDigitsValue(n / 10, width - 1);
      var s := FixedDigits(n, width);
      assert s[..|s| - 1] == FixedDigits(n / 10, width - 1);
    }
  }

  /** Every digit string is the fixed-width form of its own value. */
  lemma {:induction false} FixedDigitsOfValue(s: string)
    requires AllDigits(s)
    ensures FixedDigits(DigitsValue(s), |s|) == s
  {
    if s != [] {
      var s' := s[..|s| - 1];
      FixedDigitsOfValue(s');
      DivMod10(DigitsValue(s'), DigitValue(s[|s| - 1]));
      assert s == s' + [s[|s| - 1]];
    }
  }

  /** The fixed-width form of 0 is a run of zeros. */
  lemma {:induction false} FixedDigitsZero(width: nat)
    ensures FixedDigits(0, width) == Repeat('0', width)
  {
    if width > 0 {
      FixedDigitsZero(width - 1);
    }
  }

  /** `n.toString().padStart(width, '0')` is the fixed-width form of `n`. */
  lemma {:induction false} PadDecimalString(n: nat, width: nat)
    requires width >= 1 && n < Pow10(width)
    ensures PadStart(DecimalString(n), width, '0') == FixedDigits(n, width)
  {
    if n < 10 {
      FixedDigitsZero(width - 1);
      PadStartAppend("", DigitChar(n), width, '0');
      assert "" + [DigitChar(n)] == DecimalString(n);
    } else {
      assert width >= 2;
      DecimalStringLength(n, width);
      PadDecimalString(n / 10, width - 1);
      PadStartAppend(DecimalString(n / 10), DigitChar(n % 10), width, '0');
    }
  }

  /** Stripping trailing zeros leaves the text that was in front of them. */
  lemma TrimZerosSplit(s: string)
    ensures s == TrimTrailingZeros(s) + Repeat('0', |s| - |TrimTrailingZeros(s)|)
  {
  }

  /** Zeros appended to a text that does not end in '0' are exactly what gets stripped. */
  lemma TrimAppendedZeros(t: string, k: nat)
    requires t == [] || t[|t| - 1] != '0'
    ensures TrimTrailingZeros(t + Repeat('0', k)) == t
  {
    var s := t + Repeat('0', k);
    var r := TrimTrailingZeros(s);
    assert t != [] ==> s[|t| - 1] == t[|t| - 1];
    assert forall i :: |t| <= i < |s| ==> s[i] == '0';
    assert |r| == |t|;
    assert r == s[..|t|];
    assert s[..|t|] == t;
  }
}
