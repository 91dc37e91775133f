/**
 * The fixed-point decimal of src/decimal.rs: an unsigned 128-bit magnitude,
 * the number of digits after the point (a `u8`) and a sign flag.  Only its
 * construction, parsing and display exist in the source.
 */
module Decimals {
  import opened Wrappers
  import opened Digits

  /** 2^128: the values of `u128` are the naturals below it. */
  const U128Limit: nat := 0x1_0000_0000_0000_0000_0000_0000_0000_0000

  type U128 = n: nat | n < U128Limit
  type U8 = n: nat | n < 256

  /** `value / 10^scale`, negated when `negative`. */
  datatype Decimal = Decimal(value: U128, scale: U8, negative: bool)

  datatype ParseDecimalError = ParseDecimalError

  /** `Decimal::new`: the three fields as given. */
  function New(value: U128, scale: U8, negative: bool): (d: Decimal)
    ensures d.value == value && d.scale == scale && d.negative == negative
  {
    Decimal(value, scale, negative)
  }

  /** `str::find`: the index of the first occurrence of `c`. */
  function Find(s: string, c: char): (r: Option<nat>)
    ensures r.None? <==> c !in s
    ensures r.Some? ==> r.value < |s| && s[r.value] == c && c !in s[..r.value]
  {
    if |s| == 0 then None
    else if s[0] == c then Some(0)
    else
      var r := Find(s[1..], c);
      if r.None? then None
      else
        assert s[..r.value + 1] == [s[0]] + s[1..][..r.value];
        Some(r.value + 1)
  }

  /** `s.replace(['.', '-'], "")`: the string without its dots and minus signs. */
  function Strip(s: string): (r: string)
    ensures |r| <= |s|
    ensures forall k :: 0 <= k < |r| ==> r[k] != '.' && r[k] != '-'
  {
    if |s| == 0 then []
    else (if s[0] == '.' || s[0] == '-' then [] else [s[0]]) + Strip(s[1..])
  }

  /** The digits `u128::from_str` reads: all but one leading `+`. */
  function Unsigned(s: string): string {
    if |s| > 0 && s[0] == '+' then s[1..] else s
  }

  /**
   * `u128::from_str`: an optional `+` and then a non-empty run of digits whose
   * value fits in 128 bits.
   */
  function ParseU128(s: string): (r: Option<U128>)
    ensures r.Some? <==> |Unsigned(s)| > 0 && AllDigits(Unsigned(s)) && ValueOf(Unsigned(s)) < U128Limit
    ensures r.Some? ==> r.value == ValueOf(Unsigned(s))
  {
    var t := Unsigned(s);
    if |t| > 0 && AllDigits(t) && ValueOf(t) < U128Limit then Some(ValueOf(t)) else None
  }

  /**
   * The scale `from_str` computes: the number of characters after the first
   * dot, or 0 without a dot.  With a dot, the length must fit in a `u8`.
   */
  function ScaleOf(s: string): (r: Result<U8, ParseDecimalError>)
    ensures r.Err? <==> '.' in s && |s| >= 256
    ensures '.' !in s ==> r == Ok(0)
  {
    match Find(s, '.')
    case None => Ok(0)
    case Some(i) => if |s| < 256 then Ok(|s| - i - 1) else Err(ParseDecimalError)
  }

  /**
   * `Decimal::from_str`.  The scale is the number of characters after the
   * first dot; the sign is a leading minus; the magnitude is what is left
   * once every dot and every minus sign is removed, read as a `u128`.
   */
  function FromStr(s: string): (r: Result<Decimal, ParseDecimalError>)
    ensures r.Ok? <==> ScaleOf(s).Ok? && ParseU128(Strip(s)).Some?
    ensures r.Ok? ==> r.value.negative == (|s| > 0 && s[0] == '-')
    ensures r.Ok? ==> r.value.scale == ScaleOf(s).value
  {
    var scale :- ScaleOf(s);
    var negative := |s| > 0 && s[0] == '-';
    match ParseU128(Strip(s))
    case None => Err(ParseDecimalError)
    case Some(value) => Ok(Decimal(value, scale, negative))
  }

  lemma {:induction false} StripConcat(a: string, b: string)
    ensures Strip(a + b) == Strip(a) + Strip(b)
    decreases |a|
  {
    if |a| == 0 {
      assert a + b == b;
    } else {
      assert (a + b)[1..] == a[1..] + b;
      StripConcat(a[1..], b);
    }
  }

  lemma {:induction false} StripDigits(s: string)
    requires AllDigits(s)
    ensures Strip(s) == s
    decreases |s|
  {
    if |s| > 0 {
      assert s == [s[0]] + s[1..];
      StripDigits(s[1..]);
    }
  }

  lemma FindFirst(s: string, c: char, i: nat)
    requires i < |s| && s[i] == c && c !in s[..i]
    ensures Find(s, c) == Some(i)
  {
    var r := Find(s, c);
    assert c in s;
    assert forall k :: 0 <= k < i ==> s[..i][k] == s[k];
    assert forall k :: 0 <= k < r.value ==> s[..r.value][k] == s[k];
  }

  /** The outcome of `from_str` from its three intermediate results. */
  lemma FromStrParts(s: string, scale: U8, value: U128, negative: bool)
    requires ScaleOf(s) == Ok(scale)
    requires ParseU128(Strip(s)) == Some(value)
    requires negative == (|s| > 0 && s[0] == '-')
    ensures FromStr(s) == Ok(Decimal(value, scale, negative))
  {
  }

  lemma StripSign(sign: string, whole: string)
    requires sign == "" || sign == "-"
    requires AllDigits(whole)
    ensures Strip(sign + whole) == whole
  {
    StripConcat(sign, whole);
    assert Strip(sign) == [] by {
      if sign == "-" {
        assert sign[1..] == [];
      }
    }
    StripDigits(whole);
    assert [] + whole == whole;
  }

  /** The characters a signed literal's text can hold around its digits. */
  lemma StripSignedLiteral(sign: string, whole: string, frac: string)
    requires sign == "" || sign == "-"
    requires AllDigits(whole) && AllDigits(frac)
    ensures Strip(sign + whole + "." + frac) == whole + frac
    ensures Strip(sign + whole) == whole
  {
    var p := sign + whole;
    StripSign(sign, whole);
    StripConcat(p, ".");
    assert Strip(".") == [] by {
      assert "."[1..] == [];
    }
    assert Strip(p + ".") == whole by {
      assert whole + [] == whole;
    }
    StripConcat(p + ".", frac);
    StripDigits(frac);
  }

  /** The magnitude of a literal is its digits read as one number. */
  lemma ParseDigits(digits: string)
    requires |digits| >= 1 && AllDigits(digits) && ValueOf(digits) < U128Limit
    ensures ParseU128(digits) == Some(ValueOf(digits))
  {
    assert IsDigit(digits[0]);
  }

  lemma FractionScale(sign: string, whole: string, frac: string)
    requires sign == "" || sign == "-"
    requires AllDigits(whole) && |sign| + |whole| + |frac| < 255
    ensures ScaleOf(sign + whole + "." + frac) == Ok(|frac|)
  {
    var s := sign + whole + "." + frac;
    var i := |sign| + |whole|;
    assert s[..i] == sign + whole;
    assert s[i] == '.';
    assert '.' !in sign + whole by {
      assert forall k :: 0 <= k < |whole| ==> IsDigit(whole[k]);
    }
    FindFirst(s, '.', i);
  }

  lemma FractionMagnitude(sign: string, whole: string, frac: string)
    requires sign == "" || sign == "-"
    requires AllDigits(whole + frac) && |whole| + |frac| >= 1 && ValueOf(whole + frac) < U128Limit
    ensures ParseU128(Strip(sign + whole + "." + frac)) == Some(ValueOf(whole + frac))
  {
    assert AllDigits(whole) && AllDigits(frac) by {
      assert forall k :: 0 <= k < |whole| ==> whole[k] == (whole + frac)[k];
      assert forall k :: 0 <= k < |frac| ==> frac[k] == (whole + frac)[|whole| + k];
    }
    StripSignedLiteral(sign, whole, frac);
    ParseDigits(whole + frac);
  }

  /** A literal is negative exactly when it starts with the minus sign. */
  lemma FractionSign(sign: string, whole: string, frac: string)
    requires sign == "" || sign == "-"
    requires AllDigits(whole)
    ensures |sign + whole + "." + frac| > 0
    ensures ((sign + whole + "." + frac)[0] == '-') == (sign == "-")
  {
    var rest := whole + "." + frac;
    assert sign + whole + "." + frac == sign + rest;
    assert rest[0] != '-' by {
      if |whole| > 0 {
        assert rest[0] == whole[0] && IsDigit(whole[0]);
      }
    }
  }

  /**
   * A decimal literal: digits, a dot and digits, after an optional minus,
   * parses to its digits read as one integer, with the number of digits
   * after the dot as scale and the sign it shows.
   */
  lemma FromStrFraction(sign: string, whole: string, frac: string)
    requires sign == "" || sign == "-"
    requires AllDigits(whole + frac) && |whole| + |frac| >= 1 && ValueOf(whole + frac) < U128Limit
    requires |sign| + |whole| + |frac| < 255
    ensures FromStr(sign + whole + "." + frac) == Ok(Decimal(ValueOf(whole + frac), |frac|, sign == "-"))
  {
    var s := sign + whole + "." + frac;
    assert ScaleOf(s) == Ok(|frac|) by {
      assert AllDigits(whole) by {
        assert forall k :: 0 <= k < |whole| ==> whole[k] == (whole + frac)[k];
      }
      FractionScale(sign, whole, frac);
    }
    assert ParseU128(Strip(s)) == Some(ValueOf(whole + frac)) by {
      FractionMagnitude(sign, whole, frac);
    }
    assert (|s| > 0 && s[0] == '-') == (sign == "-") by {
      assert AllDigits(whole) by {
        assert forall k :: 0 <= k < |whole| ==> whole[k] == (whole + frac)[k];
      }
      FractionSign(sign, whole, frac);
    }
    FromStrParts(s, |frac|, ValueOf(whole + frac), sign == "-");
  }

  /** An integer literal after an optional minus parses to its value, with scale 0. */
  lemma FromStrInteger(sign: string, whole: string)
    requires sign == "" || sign == "-"
    requires |whole| >= 1 && AllDigits(whole) && ValueOf(whole) < U128Limit
    ensures FromStr(sign + whole) == Ok(Decimal(ValueOf(whole), 0, sign == "-"))
  {
    var s := sign + whole;
    assert ScaleOf(s) == Ok(0) by {
      assert forall k :: 0 <= k < |whole| ==> IsDigit(whole[k]);
    }
    assert ParseU128(Strip(s)) == Some(ValueOf(whole)) by {
      StripSignedLiteral(sign, whole, "");
      ParseDigits(whole);
    }
    assert (|s| > 0 && s[0] == '-') == (sign == "-") by {
      assert IsDigit(whole[0]);
      if sign == "" {
        assert s[0] == whole[0];
      }
    }
    FromStrParts(s, 0, ValueOf(whole), sign == "-");
  }

  /** The digits before the point: `value / 10^scale`, one digit dropped at a time. */
  function IntegerPart(value: nat, scale: nat): nat
    decreases scale
  {
    if scale == 0 then value else IntegerPart(value / 10, scale - 1)
  }

  /** The digits after the point: `value % 10^scale`, built one digit at a time. */
  function FractionPart(value: nat, scale: nat): (f: nat)
    ensures f < Pow10(scale)
    decreases scale
  {
    if scale == 0 then 0 else value % 10 + 10 * FractionPart(value / 10, scale - 1)
  }

  /** The two parts put back together give the value: they are its quotient and remainder by `10^scale`. */
  lemma {:induction false} SplitValue(value: nat, scale: nat)
    ensures value == IntegerPart(value, scale) * Pow10(scale) + FractionPart(value, scale)
    ensures IntegerPart(value, scale) <= value
    decreases scale
  {
    if scale > 0 {
      SplitValue(value / 10, scale - 1);
      ShiftStep(IntegerPart(value / 10, scale - 1), FractionPart(value / 10, scale - 1), Pow10(scale - 1), value % 10);
    }
  }

  /** Of the value of a digit string, the parts at `|frac|` are the digits before and after that point. */
  lemma {:induction false} PartsOfDigits(whole: string, frac: string)
    requires AllDigits(whole + frac)
    ensures AllDigits(whole) && AllDigits(frac)
    ensures IntegerPart(ValueOf(whole + frac), |frac|) == ValueOf(whole)
    ensures FractionPart(ValueOf(whole + frac), |frac|) == ValueOf(frac)
    decreases |frac|
  {
    assert forall k :: 0 <= k < |whole| ==> (whole + frac)[k] == whole[k];
    assert forall k :: 0 <= k < |frac| ==> (whole + frac)[|whole| + k] == frac[k];
    if frac == [] {
      assert whole + frac == whole;
    } else {
      var rest := frac[..|frac| - 1];
      var x := ValueOf(whole + frac);
      assert (whole + frac)[..|whole + frac| - 1] == whole + rest;
      PartsOfDigits(whole, rest);
      var c := DigitValue(frac[|frac| - 1]);
      assert x == ValueOf(whole + rest) * 10 + c;
      assert x / 10 == ValueOf(whole + rest) && x % 10 == c;
    }
  }

  /** A digit string without redundant leading zeros. */
  predicate Canonical(s: string) {
    |s| >= 1 && AllDigits(s) && (s[0] != '0' || |s| == 1)
  }

  /**
   * `Display for Decimal`: the integer part, and for a non-zero scale a dot
   * and the remainder, each written as a plain number.  `10^scale` does not
   * fit in a `u128` from scale 39 on.  With overflow checks, as in a debug
   * build, `pow` panics there; that panic is `None`.
   */
  function Display(d: Decimal): (r: Option<string>)
    ensures r.None? <==> d.scale >= 39
    ensures r.Some? ==> |r.value| >= 1 && r.value[0] != '-'
  {
    if d.scale >= 39 then None
    else if d.scale == 0 then Some(Show(IntegerPart(d.value, d.scale)))
    else Some(Show(IntegerPart(d.value, d.scale)) + "." + Show(FractionPart(d.value, d.scale)))
  }

  lemma {:induction false} Pow10Sum(a: nat, b: nat)
    ensures Pow10(a + b) == Pow10(a) * Pow10(b)
    decreases a
  {
    if a > 0 {
      Pow10Sum(a - 1, b);
    }
  }

  /** Every `u128` has at most 39 digits. */
  lemma U128Digits(n: nat)
    requires n < U128Limit
    ensures |Show(n)| <= 39
  {
    assert Pow10(10) == 10_000_000_000 && Pow10(9) == 1_000_000_000;
    Pow10Sum(10, 10);
    Pow10Sum(20, 10);
    Pow10Sum(30, 9);
    ShowLength(n, 39);
  }

  /**
   * Where the remainder has as many digits as the scale and the sign is
   * positive, displaying and parsing again gives the same decimal.
   */
  lemma DisplayRoundTrip(d: Decimal)
    requires !d.negative && d.scale <= 38
    requires d.scale == 0 || |Show(FractionPart(d.value, d.scale))| == d.scale
    ensures Display(d).Some? && FromStr(Display(d).value) == Ok(d)
  {
    var pre, frac := IntegerPart(d.value, d.scale), FractionPart(d.value, d.scale);
    SplitValue(d.value, d.scale);
    var w := Show(pre);
    assert ValueOf(w) == pre && |w| <= 39 by {
      ValueOfShow(pre);
      U128Digits(pre);
    }
    if d.scale == 0 {
      assert "" + w == w;
      FromStrInteger("", w);
    } else {
      var f := Show(frac);
      assert ValueOf(w + f) == d.value by {
        ValueOfShow(frac);
        ValueOfConcat(w, f);
      }
      FromStrFraction("", w, f);
      assert "" + w + "." + f == w + "." + f;
    }
  }

  /**
   * The display the round trip calls for: the sign, the integer part, and the
   * remainder padded with leading zeros to exactly `scale` digits.
   */
  function DisplayCorrected(d: Decimal): (r: string)
    ensures |r| >= 1 && (r[0] == '-' <==> d.negative)
  {
    var sign := if d.negative then "-" else "";
    if d.scale == 0 then sign + Show(d.value)
    else sign + Show(IntegerPart(d.value, d.scale)) + "." + Padded(FractionPart(d.value, d.scale), d.scale)
  }

  /** The corrected display parses back when the integer part has at most 39 digits and the scale is at most 214. */
  lemma RoundTripNarrow(d: Decimal)
    requires d.scale <= 214
    ensures FromStr(DisplayCorrected(d)) == Ok(d)
  {
    var pre, frac := IntegerPart(d.value, d.scale), FractionPart(d.value, d.scale);
    var sign := if d.negative then "-" else "";
    SplitValue(d.value, d.scale);
    var w := Show(pre);
    assert ValueOf(w) == pre && |w| <= 39 by {
      ValueOfShow(pre);
      U128Digits(pre);
    }
    if d.scale == 0 {
      FromStrInteger(sign, w);
    } else {
      var f := Padded(frac, d.scale);
      assert ValueOf(w + f) == d.value by {
        ValueOfConcat(w, f);
      }
      FromStrFraction(sign, w, f);
    }
  }

  /** 2^128 is below 10^39. */
  lemma U128BelowPow10()
    ensures U128Limit < Pow10(39)
  {
    assert Pow10(10) == 10_000_000_000 && Pow10(9) == 1_000_000_000;
    Pow10Sum(10, 10);
    Pow10Sum(20, 10);
    Pow10Sum(30, 9);
  }

  /** A quotient by a divisor larger than the dividend is 0. */
  lemma QuotientZero(v: nat, q: nat, p: nat, r: nat)
    requires v == q * p + r && v < p
    ensures q == 0
  {
    MultipleAtLeast(q, p);
  }

  lemma MultipleAtLeast(q: nat, p: nat)
    ensures q == 0 || q * p >= p
  {
    if q > 0 {
      assert q * p == (q - 1) * p + p;
    }
  }

  /** `10^scale` exceeds every `u128` from scale 39 on. */
  lemma WidePow10(value: U128, scale: nat)
    requires scale >= 39
    ensures value < Pow10(scale)
  {
    U128BelowPow10();
    Pow10Sum(39, scale - 39);
  }

  /** From scale 39 on every `u128` is below `10^scale`, so the integer part is 0. */
  lemma WideIntegerPart(d: Decimal)
    requires d.scale >= 39
    ensures IntegerPart(d.value, d.scale) == 0
    ensures d.value == FractionPart(d.value, d.scale)
  {
    SplitValue(d.value, d.scale);
    WidePow10(d.value, d.scale);
    QuotientZero(d.value, IntegerPart(d.value, d.scale), Pow10(d.scale), FractionPart(d.value, d.scale));
  }

  /** Whether the corrected display of `d` is shorter than 256 characters, as `from_str` needs. */
  predicate DisplayFits(d: Decimal) {
    d.scale + (if d.negative then 1 else 0) <= 253
  }

  /**
   * The corrected display parses back to the same decimal exactly when it is
   * shorter than 256 characters; otherwise parsing it fails.  From scale 39
   * on the display is `[-]0.` and `scale` digits, so that is up to scale 253,
   * or 252 for a negative decimal.
   */
  lemma DisplayCorrectedRoundTrip(d: Decimal)
    ensures FromStr(DisplayCorrected(d)) == Ok(d) <==> DisplayFits(d)
    ensures !DisplayFits(d) ==> FromStr(DisplayCorrected(d)).Err?
  {
    if d.scale <= 214 {
      RoundTripNarrow(d);
    } else {
      var sign := if d.negative then "-" else "";
      var frac := FractionPart(d.value, d.scale);
      var f := Padded(frac, d.scale);
      WideIntegerPart(d);
      assert Show(0) == "0";
      var t := DisplayCorrected(d);
      assert t == sign + "0" + "." + f;
      if DisplayFits(d) {
        assert ValueOf("0" + f) == d.value by {
          ValueOfConcat("0", f);
          assert ValueOf("0") == 0 by {
            assert "0"[..0] == [];
          }
        }
        assert AllDigits("0" + f);
        FromStrFraction(sign, "0", f);
      } else {
        assert '.' in t by {
          assert t[|sign| + 1] == '.';
        }
        assert |t| >= 256;
      }
    }
  }

  /** The corrected display of a decimal read from digits around a point, when the integer digits have no redundant zeros. */
  lemma DisplayCorrectedOfDigits(sign: string, whole: string, frac: string)
    requires sign == "" || sign == "-"
    requires AllDigits(whole + frac) && Canonical(whole) && 1 <= |frac| < 256
    requires ValueOf(whole + frac) < U128Limit
    ensures DisplayCorrected(Decimal(ValueOf(whole + frac), |frac|, sign == "-")) == sign + whole + "." + frac
  {
    PartsOfDigits(whole, frac);
    ShowValueOf(whole);
    PaddedOfDigits(frac);
  }

  /**
   * The other direction: a literal with a dot whose integer digits have no
   * redundant zeros parses to a decimal whose corrected display is the literal.
   */
  lemma ParseThenDisplayCorrected(sign: string, whole: string, frac: string)
    requires sign == "" || sign == "-"
    requires AllDigits(whole + frac) && Canonical(whole) && 1 <= |frac|
    requires ValueOf(whole + frac) < U128Limit && |sign| + |whole| + |frac| < 255
    ensures FromStr(sign + whole + "." + frac).Ok?
    ensures DisplayCorrected(FromStr(sign + whole + "." + frac).value) == sign + whole + "." + frac
  {
    FromStrFraction(sign, whole, frac);
    DisplayCorrectedOfDigits(sign, whole, frac);
  }

  // ---------------------------------------------------------------------
  // The literals of the unit tests, and where the display goes wrong

  /** A positive literal with a dot, given its digits and their value. */
  lemma ParsesAsFraction(s: string, whole: string, frac: string, digits: string)
    requires s == whole + "." + frac && digits == whole + frac
    requires |digits| >= 1 && AllDigits(digits) && ValueOf(digits) < U128Limit && |s| < 256
    ensures FromStr(s) == Ok(Decimal(ValueOf(digits), |frac|, false))
  {
    assert "" + whole == whole;
    FromStrFraction("", whole, frac);
  }

  /** The digit strings of the tests and their values. */
  lemma Numerals()
    ensures AllDigits("11") && ValueOf("11") == 11 && AllDigits("15") && ValueOf("15") == 15
    ensures AllDigits("105") && ValueOf("105") == 105
    ensures AllDigits("1111") && ValueOf("1111") == 1111
    ensures AllDigits("11111") && ValueOf("11111") == 11111
    ensures AllDigits("12345") && ValueOf("12345") == 12345
  {
    ShortNumerals();
    assert "1111"[..3] == "111" && "111"[..2] == "11";
    assert "11111"[..4] == "1111";
    assert "12345"[..4] == "1234" && "1234"[..3] == "123" && "123"[..2] == "12" && "12"[..1] == "1";
  }

  lemma ShortNumerals()
    ensures AllDigits("1") && ValueOf("1") == 1
    ensures AllDigits("11") && ValueOf("11") == 11 && AllDigits("15") && ValueOf("15") == 15
    ensures AllDigits("105") && ValueOf("105") == 105
  {
    assert "11"[..1] == "1" && "15"[..1] == "1" && "1"[..0] == "";
    assert "105"[..2] == "10" && "10"[..1] == "1";
  }

  /** A positive literal without a dot, given its value. */
  lemma ParsesAsInteger(s: string)
    requires |s| >= 1 && AllDigits(s) && ValueOf(s) < U128Limit
    ensures FromStr(s) == Ok(Decimal(ValueOf(s), 0, false))
  {
    assert "" + s == s;
    FromStrInteger("", s);
  }

  /** The display of a decimal read from digits around a point, when neither side has redundant zeros. */
  lemma DisplaysDigits(whole: string, frac: string, negative: bool)
    requires AllDigits(whole + frac) && Canonical(whole) && Canonical(frac) && |frac| <= 38
    requires ValueOf(whole + frac) < U128Limit
    ensures Display(Decimal(ValueOf(whole + frac), |frac|, negative)) == Some(whole + "." + frac)
  {
    PartsOfDigits(whole, frac);
    ShowValueOf(whole);
    ShowValueOf(frac);
  }

  /** How the literals of the tests are put together. */
  lemma Spellings()
    ensures "1.1" == "1" + "." + "1" && "11" == "1" + "1"
    ensures "11.11" == "11" + "." + "11" && "1111" == "11" + "11"
    ensures "11.111" == "11" + "." + "111" && "11111" == "11" + "111"
    ensures "1.2345" == "1" + "." + "2345" && "12345" == "1" + "2345"
    ensures "1.05" == "1" + "." + "05" && "105" == "1" + "05"
    ensures "1.5" == "1" + "." + "5" && "15" == "1" + "5"
    ensures "-1.5" == "-" + "1" + "." + "5"
  {
  }

  /** The six literals of the parse test and the decimals they stand for. */
  lemma ParseTests()
    ensures FromStr("0") == Ok(Decimal(0, 0, false))
    ensures FromStr("1") == Ok(Decimal(1, 0, false))
    ensures FromStr("1.1") == Ok(Decimal(11, 1, false))
    ensures FromStr("11.11") == Ok(Decimal(1111, 2, false))
    ensures FromStr("11.111") == Ok(Decimal(11111, 3, false))
    ensures FromStr("1.2345") == Ok(Decimal(12345, 4, false))
  {
    Numerals();
    Spellings();
    assert "0"[..0] == "" && "1"[..0] == "";
    ParsesAsInteger("0");
    ParsesAsInteger("1");
    ParsesAsFraction("1.1", "1", "1", "11");
    ParsesAsFraction("11.11", "11", "11", "1111");
    ParsesAsFraction("11.111", "11", "111", "11111");
    ParsesAsFraction("1.2345", "1", "2345", "12345");
  }

  /** The display test: each of those decimals is displayed as the literal it came from. */
  lemma DisplayTests()
    ensures Display(Decimal(0, 0, false)) == Some("0")
    ensures Display(Decimal(1, 0, false)) == Some("1")
    ensures Display(Decimal(11, 1, false)) == Some("1.1")
    ensures Display(Decimal(1111, 2, false)) == Some("11.11")
    ensures Display(Decimal(11111, 3, false)) == Some("11.111")
    ensures Display(Decimal(12345, 4, false)) == Some("1.2345")
  {
    Numerals();
    Spellings();
    assert Show(0) == "0" && Show(1) == "1";
    DisplaysDigits("1", "1", false);
    DisplaysDigits("11", "11", false);
    DisplaysDigits("11", "111", false);
    DisplaysDigits("1", "2345", false);
  }

  /**
   * The display leaves out the zeros that start the fraction: 1.05 is shown
   * as 1.5, which parses to another decimal.
   */
  lemma DisplayDropsFractionZeros()
    ensures FromStr("1.05") == Ok(Decimal(105, 2, false))
    ensures Display(Decimal(105, 2, false)) == Some("1.5")
    ensures FromStr("1.5") == Ok(Decimal(15, 1, false))
  {
    Numerals();
    Spellings();
    ParsesAsFraction("1.05", "1", "05", "105");
    ParsesAsFraction("1.5", "1", "5", "15");
    PartsOfDigits("1", "05");
    assert ValueOf("05") == 5 by {
      assert "05"[..1] == "0" && "0"[..0] == "";
    }
    assert ValueOf("1") == 1 && Show(1) == "1" && Show(5) == "5";
  }

  /** The display leaves out the sign: -1.5 is shown as 1.5. */
  lemma DisplayDropsSign()
    ensures FromStr("-1.5") == Ok(Decimal(15, 1, true))
    ensures Display(Decimal(15, 1, true)) == Some("1.5")
  {
    Numerals();
    Spellings();
    FromStrFraction("-", "1", "5");
    DisplaysDigits("1", "5", true);
    assert "1" + "." + "5" == "1.5";
  }

  /** A literal with 39 digits after the dot parses, but its display overflows `10^scale` (a panic with overflow checks). */
  lemma DisplayOverflows()
    ensures FromStr("0." + Zeros(38) + "1") == Ok(Decimal(1, 39, false))
    ensures Display(Decimal(1, 39, false)).None?
  {
    var frac := Zeros(38) + "1";
    ValueOfConcat(Zeros(38), "1");
    ValueOfConcat("0", frac);
    FromStrFraction("", "0", frac);
    assert "" + "0" + "." + frac == "0." + Zeros(38) + "1";
  }

  /** The corrected display on the same decimals keeps the zero and the sign. */
  lemma DisplayCorrectedExamples()
    ensures DisplayCorrected(Decimal(105, 2, false)) == "1.05"
    ensures DisplayCorrected(Decimal(15, 1, true)) == "-1.5"
  {
    Numerals();
    Spellings();
    assert "" + "1" == "1";
    DisplayCorrectedOfDigits("", "1", "05");
    DisplayCorrectedOfDigits("-", "1", "5");
  }
}
