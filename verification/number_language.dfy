/**
 The number tokens of section 6 of RFC 8259 and the numbers they stand for, stated production by
 production and by the place value of the digits, without the cutting, reading and scaling the
 program uses; and the proof that both agree on every token.
 */
module NumberLanguage {
  import opened DecimalNumbers
  import opened Wrappers

  // ---------------------------------------------------------------- the productions

  predicate OneOrMoreDigits(s: string) {
    s != "" && forall c <- s :: c in "0123456789"
  }

  predicate IsInt(s: string) {
    OneOrMoreDigits(s) && (s[0] == '0' ==> s == "0")
  }

  /** `frac` around its digits; no digits stand for no fraction. */
  predicate IsFrac(s: string, digits: string) {
    (s == "" && digits == "") || (OneOrMoreDigits(digits) && s == "." + digits)
  }

  /** `exp` around its sign and digits; no digits stand for no exponent. */
  predicate IsExp(s: string, below: bool, digits: string) {
    || (s == "" && digits == "" && !below)
    || (OneOrMoreDigits(digits) && s in {"e-" + digits, "E-" + digits} && below)
    || (OneOrMoreDigits(digits) && s in {"e" + digits, "E" + digits, "e+" + digits, "E+" + digits} && !below)
  }

  /** What a token says: a sign, digits before and after the point, and an exponent. */
  datatype Reading = Reading(minus: bool, before: string, after: string, below: bool, exponent: string) {
    /** Where the pieces end; `frac` and `exp` are what stands between and behind. */
    predicate Of(token: string, frac: string, exp: string) {
      && IsInt(before) && IsFrac(frac, after) && IsExp(exp, below, exponent)
      && token == (if minus then "-" else "") + before + frac + exp
    }
  }

  /** The grammar's reading of a token. */
  ghost predicate Reads(token: string, r: Reading) {
    exists frac: string, exp: string :: r.Of(token, frac, exp)
  }

  // ---------------------------------------------------------------- the numbers

  function Ten(n: nat): real {
    if n == 0 then 1.0 else 10.0 * Ten(n - 1)
  }

  function Weight(c: char): real {
    match c
    case '1' => 1.0
    case '2' => 2.0
    case '3' => 3.0
    case '4' => 4.0
    case '5' => 5.0
    case '6' => 6.0
    case '7' => 7.0
    case '8' => 8.0
    case '9' => 9.0
    case _ => 0.0
  }

  /** Every digit times the power of ten of its place. */
  function Numeral(digits: string): real {
    if digits == "" then 0.0 else Weight(digits[0]) * Ten(|digits| - 1) + Numeral(digits[1..])
  }

  // ---------------------------------------------------------------- the readings agree

  lemma DigitsAgree(s: string)
    ensures OneOrMoreDigits(s) <==> s != "" && AllDigits(s)
  {
    if s != "" && AllDigits(s) {
      forall c | c in s
        ensures c in "0123456789"
      {
        assert IsDigit(c);
        DigitIsListed(c);
      }
    } else if OneOrMoreDigits(s) {
      forall i | 0 <= i < |s|
        ensures IsDigit(s[i])
      {
        assert s[i] in s;
        DigitIsListed(s[i]);
      }
    }
  }

  lemma DigitIsListed(c: char)
    ensures IsDigit(c) <==> c in "0123456789"
  {
    assert IsDigit(c) ==> "0123456789"[c as int - '0' as int] == c;
  }

  /** The pieces the program cuts a token into, as a reading. */
  function ReadingOf(p: Parts): Reading {
    Reading(p.negative, p.integer, p.Decimals(), p.ExponentSigned(), p.ExponentDigits())
  }

  lemma CutIsReading(p: Parts)
    requires p.WellFormed()
    ensures ReadingOf(p).Of(p.Text(), p.fraction, p.exponent)
  {
    IntOfParts(p);
    FracOfParts(p);
    ExpOfParts(p);
    hide IsInt, IsFrac, IsExp, Parts.WellFormed, Parts.Decimals, Parts.ExponentSigned, Parts.ExponentDigits;
    TextOfParts(p);
  }

  lemma TextOfParts(p: Parts)
    ensures p.Text() == (if p.negative then "-" else "") + p.integer + p.fraction + p.exponent
  {
    var u := p.Unsigned();
    assert u == "" + p.integer + p.fraction + p.exponent;
    assert "-" + u == "-" + p.integer + p.fraction + p.exponent;
  }

  lemma IntOfParts(p: Parts)
    requires p.WellFormed()
    ensures IsInt(p.integer)
  {
    DigitsAgree(p.integer);
    assert p.integer[0] == '0' ==> p.integer == "0";
  }

  lemma FracOfParts(p: Parts)
    requires p.WellFormed()
    ensures IsFrac(p.fraction, p.Decimals())
  {
    DigitsAgree(p.Decimals());
    assert p.fraction == "" || p.fraction == "." + p.Decimals();
  }

  lemma ExpOfParts(p: Parts)
    requires p.WellFormed()
    ensures IsExp(p.exponent, p.ExponentSigned(), p.ExponentDigits())
  {
    DigitsAgree(p.ExponentDigits());
    var x := p.exponent;
    if x != "" {
      var d := p.ExponentDigits();
      if x[1] == '-' {
        assert x == "e-" + d || x == "E-" + d;
      } else if x[1] == '+' {
        assert x == "e+" + d || x == "E+" + d;
      } else {
        assert x == "e" + d || x == "E" + d;
      }
    }
  }

  lemma ReadingIsCut(r: Reading, token: string, frac: string, exp: string)
    requires r.Of(token, frac, exp)
    ensures Parts(r.minus, r.before, frac, exp).WellFormed() && Split(token) == Parts(r.minus, r.before, frac, exp)
    ensures ReadingOf(Split(token)) == r
  {
    var p := Parts(r.minus, r.before, frac, exp);
    ReadingFormed(r, token, frac, exp);
    FractionRead(r, token, frac, exp);
    ExponentRead(r, token, frac, exp);
    hide IsInt, IsFrac, IsExp, Parts.WellFormed, Parts.Decimals, Parts.ExponentSigned, Parts.ExponentDigits, Split;
    TextOfParts(p);
    SplitText(p);
  }

  lemma ReadingFormed(r: Reading, token: string, frac: string, exp: string)
    requires r.Of(token, frac, exp)
    ensures Parts(r.minus, r.before, frac, exp).WellFormed()
  {
    DigitsAgree(r.before);
    DigitsAgree(r.after);
    DigitsAgree(r.exponent);
    ExponentRead(r, token, frac, exp);
    hide OneOrMoreDigits, IsExp;
    assert frac == "" || frac[1..] == r.after;
  }

  lemma FractionRead(r: Reading, token: string, frac: string, exp: string)
    requires r.Of(token, frac, exp)
    ensures Parts(r.minus, r.before, frac, exp).Decimals() == r.after
  {
    hide IsInt, IsExp, OneOrMoreDigits;
    assert frac == "" || frac[1..] == r.after;
  }

  lemma ExponentRead(r: Reading, token: string, frac: string, exp: string)
    requires r.Of(token, frac, exp)
    ensures exp != "" ==> exp[0] == 'e' || exp[0] == 'E'
    ensures var p := Parts(r.minus, r.before, frac, exp); p.ExponentSigned() == r.below && p.ExponentDigits() == r.exponent
  {
    hide IsFrac, IsInt;
    if exp != "" {
      assert r.exponent[0] in r.exponent;
      if r.below {
        assert exp[1] == '-' && exp[2..] == r.exponent;
      } else if |exp| == |r.exponent| + 2 {
        assert exp[1] == '+' && exp[2..] == r.exponent;
      } else {
        assert exp[1] == r.exponent[0] && exp[1..] == r.exponent;
      }
    }
  }

  /** The program accepts exactly the tokens the grammar can read, and cuts them as the grammar does. */
  lemma NumberExactly(token: string, r: Reading)
    ensures Reads(token, r) <==> IsNumber(token) && ReadingOf(Split(token)) == r
  {
    if Reads(token, r) {
      var frac, exp :| r.Of(token, frac, exp);
      ReadingIsCut(r, token, frac, exp);
    } else if IsNumber(token) {
      CutIsReading(Split(token));
    }
  }

  // ---------------------------------------------------------------- the values agree

  lemma {:induction false} NumeralLast(s: string, c: char)
    ensures Numeral(s + [c]) == 10.0 * Numeral(s) + Weight(c)
  {
    if s == "" {
      assert s + [c] == [c] && [c][1..] == "";
      assert Ten(0) == 1.0 && Numeral("") == 0.0;
    } else {
      assert (s + [c])[1..] == s[1..] + [c];
      NumeralLast(s[1..], c);
      Tenfold(Weight(s[0]), |s| - 1);
    }
  }

  lemma Tenfold(w: real, n: nat)
    ensures w * Ten(n + 1) == 10.0 * (w * Ten(n))
  {
  }

  lemma {:induction false} NumeralIs(s: string)
    requires AllDigits(s)
    ensures Numeral(s) == NatOf(s) as real
  {
    if s != "" {
      var n := |s| - 1;
      NumeralIs(s[..n]);
      NumeralLast(s[..n], s[n]);
      assert s == s[..n] + [s[n]];
      WeightIs(s[n]);
    }
  }

  lemma WeightIs(c: char)
    requires IsDigit(c)
    ensures Weight(c) == DigitValue(c) as real
  {
  }

  lemma {:induction false} ScaledUp(m: int, e: nat)
    ensures Scaled(m, e) == m as real * Ten(e)
    decreases e
  {
    if e > 0 {
      ScaledUp(10 * m, e - 1);
      Tenfold(m as real, e - 1);
      assert (10 * m) as real == 10.0 * m as real;
    }
  }

  /** A mantissa moved up `up` places and down `down` places. */
  lemma {:induction false} ScaledExactly(m: int, up: nat, down: nat)
    ensures Scaled(m, up - down) * Ten(down) == m as real * Ten(up)
    decreases down
  {
    if down == 0 {
      ScaledUp(m, up);
    } else if up == 0 {
      ScaledExactly(m, 0, down - 1);
      var e: int := 0 - down;
      assert Scaled(m, e) == Scaled(m, e + 1) / 10.0;
      Tenfold(Scaled(m, e), down - 1);
      TenthOf(Scaled(m, e + 1), Ten(down - 1));
    } else {
      ScaledExactly(m, up - 1, down - 1);
      Tenfold(Scaled(m, up - down), down - 1);
      Tenfold(m as real, up - 1);
    }
  }

  lemma TenthOf(v: real, t: real)
    ensures 10.0 * (v / 10.0 * t) == v * t
  {
  }

  lemma ScaledByParts(m: int, below: bool, exponent: nat, after: nat)
    ensures var v := Scaled(m, Signed(below, exponent) - after);
      if below then v * Ten(after + exponent) == m as real else v * Ten(after) == m as real * Ten(exponent)
  {
    if below {
      ScaledExactly(m, 0, after + exponent);
      TimesOne(m as real);
    } else {
      ScaledExactly(m, exponent, after);
    }
  }

  lemma TimesOne(v: real)
    ensures v * Ten(0) == v
  {
    assert Ten(0) == 1.0;
  }

  lemma PartsValue(p: Parts, exponent: nat)
    requires p.WellFormed() && Numeral(p.ExponentDigits()) == exponent as real
    ensures p.Value() == Scaled(Signed(p.negative, NatOf(p.Digits())), Signed(p.ExponentSigned(), exponent) - |p.Decimals()|)
  {
    NumeralIs(p.ExponentDigits());
  }

  lemma SignedNumeral(negative: bool, s: string)
    requires AllDigits(s)
    ensures Signed(negative, NatOf(s)) as real == if negative then -Numeral(s) else Numeral(s)
  {
    NumeralIs(s);
  }

  /**
   The number of a token: its digits as one numeral, moved down by the digits after the point and
   up or down by the exponent.
   */
  lemma ValueExactly(token: string, r: Reading, exponent: nat)
    requires Reads(token, r) && Numeral(r.exponent) == exponent as real
    ensures IsNumber(token)
    ensures var digits := if r.minus then -Numeral(r.before + r.after) else Numeral(r.before + r.after);
      if r.below then TokenValue(token) * Ten(|r.after| + exponent) == digits
      else TokenValue(token) * Ten(|r.after|) == digits * Ten(exponent)
  {
    hide Reads, Numeral, NatOf, Ten, Scaled, Parts.ExponentSigned, Parts.ExponentDigits, Parts.Decimals, Parts.WellFormed, Signed, Parts.Value, Split;
    NumberExactly(token, r);
    var p := Split(token);
    PartsValue(p, exponent);
    SignedNumeral(p.negative, p.Digits());
    ScaledByParts(Signed(p.negative, NatOf(p.Digits())), p.ExponentSigned(), exponent, |p.Decimals()|);
  }

  // ---------------------------------------------------------------- the canonical text

  /** The canonical tokens: no exponent, no zero at the end of a fraction, no negative zero. */
  lemma CanonicalExactly(token: string, r: Reading)
    requires Reads(token, r)
    ensures IsCanonicalNumber(token) <==>
              && r.exponent == ""
              && (r.after != "" ==> r.after[|r.after| - 1] != '0')
              && (r.before == "0" && r.after == "" ==> !r.minus)
  {
    NumberExactly(token, r);
    var p := Split(token);
    assert p.exponent == "" <==> p.ExponentDigits() == "";
    assert p.fraction != "" ==> p.fraction[|p.fraction| - 1] == p.Decimals()[|p.Decimals()| - 1];
  }

  /** A canonical token of the value, of at most one mebibyte. */
  predicate ShortText(text: string, value: real) {
    IsCanonicalNumber(text) && TokenValue(text) == value && |text| <= 0x10_0000
  }

  /** A number other than zero is accepted exactly when its value has a short canonical text, and gets that text. */
  lemma AcceptedByText(token: string, text: string)
    requires IsNumber(token) && |token| <= I64_MAX / 2 && TokenValue(token) != 0.0
    ensures Normalize(token) == Success(text) <==> ShortText(text, TokenValue(token))
  {
    if Normalize(token) == Success(text) {
      NormalizeKeepsValue(token);
      FixedPointsAreCanonical(text);
    }
    if ShortText(text, TokenValue(token)) {
      FixedPointsAreCanonical(text);
      SameNormalForm(token, text);
      AcceptedExactly(token);
    }
  }

  lemma SameNormalForm(token: string, text: string)
    requires IsNumber(token) && IsNumber(text) && TokenValue(token) == TokenValue(text) != 0.0
    requires Normalize(text) == Success(text)
    ensures NormalOf(Split(token)).Some? && NormalOf(Split(token)).value.Render().Text() == text
    ensures Normalize(token).Success? ==> Normalize(token).value == text
  {
    hide NormalOf, NatOf, PlacesPoint, Parts.Value;
    NormalKeepsValue(Split(token));
    NormalKeepsValue(Split(text));
    NormalUnique(NormalOf(Split(token)).value, NormalOf(Split(text)).value);
  }
}
