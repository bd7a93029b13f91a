/**
 Exact decimal numbers: the number tokens of RFC 8259 section 6, the rational value they denote and
 the one text the canonical form gives to each value.
 */
module DecimalNumbers {
  import opened Wrappers

  const I64_MAX: int := 0x7fff_ffff_ffff_ffff
  const I64_MIN: int := -0x8000_0000_0000_0000
  const MAX_CANONICAL_NUMBER_BYTES: nat := 1024 * 1024

  // ---------------------------------------------------------------- digits

  predicate IsDigit(c: char) { '0' <= c <= '9' }

  predicate AllDigits(s: string) {
    forall i :: 0 <= i < |s| ==> IsDigit(s[i])
  }

  function DigitValue(c: char): nat
    requires IsDigit(c)
  {
    c as int - '0' as int
  }

  /** The natural number a digit string spells; the empty string spells zero. */
  function NatOf(s: string): nat
    requires AllDigits(s)
  {
    if s == "" then 0 else 10 * NatOf(s[..|s| - 1]) + DigitValue(s[|s| - 1])
  }

  function Signed(negative: bool, n: int): int {
    if negative then -n else n
  }

  function Zeros(n: nat): (s: string)
    ensures |s| == n && AllDigits(s) && forall i :: 0 <= i < n ==> s[i] == '0'
  {
    seq(n, _ => '0')
  }

  function Power10(n: nat): (p: nat)
    ensures p > 0
  {
    if n == 0 then 1 else 10 * Power10(n - 1)
  }

  /** `m * 10^e`, exactly. */
  function Scaled(m: int, e: int): real
    decreases if e < 0 then -e else e
  {
    if e == 0 then m as real else if e > 0 then Scaled(10 * m, e - 1) else Scaled(m, e + 1) / 10.0
  }

  lemma {:induction false} ScaledShift(m: int, e: int)
    ensures Scaled(10 * m, e) == Scaled(m, e + 1)
    decreases if e < 0 then -e else 0
  {
    if e < 0 { ScaledShift(m, e + 1); }
  }

  lemma {:induction false} ScaledSign(m: int, e: int)
    ensures m > 0 ==> Scaled(m, e) > 0.0
    ensures m == 0 ==> Scaled(m, e) == 0.0
    ensures m < 0 ==> Scaled(m, e) < 0.0
    decreases if e < 0 then -e else e
  {
    if e > 0 { ScaledSign(10 * m, e - 1); }
    if e < 0 { ScaledSign(m, e + 1); }
  }

  lemma {:induction false} ScaledInjective(m: int, n: int, e: int)
    requires Scaled(m, e) == Scaled(n, e)
    ensures m == n
    decreases if e < 0 then -e else e
  {
    if e > 0 { ScaledInjective(10 * m, 10 * n, e - 1); }
    if e < 0 { ScaledInjective(m, n, e + 1); }
  }

  /** Of two mantissas with one value, the one at the smaller scale is a multiple of ten. */
  lemma {:induction false} ScaledApart(m: int, d: int, n: int, e: int)
    requires d < e && Scaled(m, d) == Scaled(n, e)
    ensures m % 10 == 0
    decreases e - d
  {
    ScaledShift(n, e - 1);
    if d == e - 1 { ScaledInjective(m, 10 * n, d); } else { ScaledApart(m, d, 10 * n, e - 1); }
  }

  lemma {:induction false} PowerOrder(m: nat, n: nat)
    requires Power10(m) < Power10(n)
    ensures m < n
  {
    if m > 0 && n > 0 { PowerOrder(m - 1, n - 1); }
  }

  /** Zeros in front change nothing. */
  lemma {:induction false} NatOfLeading(n: nat, s: string)
    requires AllDigits(s)
    ensures NatOf(Zeros(n) + s) == NatOf(s)
  {
    var t := Zeros(n) + s;
    if s != "" {
      NatOfLeading(n, s[..|s| - 1]);
      assert t[..|t| - 1] == Zeros(n) + s[..|s| - 1];
    } else if n > 0 {
      NatOfLeading(n - 1, s);
      assert t[..n - 1] == Zeros(n - 1) + s;
    }
  }

  /** Zeros at the end move the scale. */
  lemma {:induction false} NatOfTrailing(negative: bool, s: string, n: nat, e: int)
    requires AllDigits(s)
    ensures Scaled(Signed(negative, NatOf(s + Zeros(n))), e) == Scaled(Signed(negative, NatOf(s)), e + n)
  {
    var t := s + Zeros(n);
    if n == 0 {
      assert t == s;
    } else {
      assert t[..|t| - 1] == s + Zeros(n - 1);
      ScaledShift(Signed(negative, NatOf(t[..|t| - 1])), e);
      NatOfTrailing(negative, s, n - 1, e + 1);
    }
  }

  lemma {:induction false} NatOfBelow(s: string)
    requires AllDigits(s)
    ensures NatOf(s) < Power10(|s|)
  {
    if s != "" { NatOfBelow(s[..|s| - 1]); }
  }

  /** Without a leading zero, the length of a digit string is the magnitude of its number. */
  lemma {:induction false} NatOfAbove(s: string)
    requires AllDigits(s) && s != "" && s[0] != '0'
    ensures NatOf(s) >= Power10(|s| - 1)
  {
    if |s| > 1 { NatOfAbove(s[..|s| - 1]); }
  }

  lemma LastDigits(m: nat, c: nat, n: nat, d: nat)
    requires c < 10 && d < 10 && 10 * m + c == 10 * n + d
    ensures m == n && c == d
  {
  }

  /** Digit strings of one length are determined by their number. */
  lemma {:induction false} NatOfInjective(a: string, b: string)
    requires AllDigits(a) && AllDigits(b) && |a| == |b| && NatOf(a) == NatOf(b)
    ensures a == b
  {
    if a != "" {
      var n := |a| - 1;
      assert NatOf(a) == 10 * NatOf(a[..n]) + DigitValue(a[n]);
      assert NatOf(b) == 10 * NatOf(b[..n]) + DigitValue(b[n]);
      LastDigits(NatOf(a[..n]), DigitValue(a[n]), NatOf(b[..n]), DigitValue(b[n]));
      NatOfInjective(a[..n], b[..n]);
      assert a == a[..n] + [a[n]] && b == b[..n] + [b[n]];
    }
  }

  // ---------------------------------------------------------------- tokens

  /** The first place of `a` or `b` from `from` on, or the end. */
  function Find(s: string, a: char, b: char, from: nat): (i: nat)
    requires from <= |s|
    ensures from <= i <= |s|
    decreases |s| - from
  {
    if from == |s| || s[from] == a || s[from] == b then from else Find(s, a, b, from + 1)
  }

  lemma {:induction false} FindIs(s: string, a: char, b: char, from: nat, i: nat)
    requires from <= i <= |s| && (forall k :: from <= k < i ==> s[k] != a && s[k] != b)
    requires i < |s| ==> s[i] == a || s[i] == b
    ensures Find(s, a, b, from) == i
    decreases i - from
  {
    if from < i { FindIs(s, a, b, from + 1, i); }
  }

  /** A number token cut at its sign, its point and its exponent mark. */
  datatype Parts = Parts(negative: bool, integer: string, fraction: string, exponent: string) {
    function Unsigned(): string {
      integer + fraction + exponent
    }

    function Text(): string {
      if negative then "-" + Unsigned() else Unsigned()
    }

    /** The digits after the point. */
    function Decimals(): string {
      if fraction == "" then "" else fraction[1..]
    }

    function ExponentSigned(): bool {
      |exponent| > 1 && exponent[1] == '-'
    }

    function ExponentDigits(): string {
      if |exponent| > 1 && (exponent[1] == '+' || exponent[1] == '-') then exponent[2..]
      else if exponent == "" then ""
      else exponent[1..]
    }

    /** The productions `int`, `frac` and `exp` of RFC 8259 section 6. */
    predicate WellFormed() {
      && AllDigits(integer) && integer != "" && (integer[0] == '0' ==> |integer| == 1)
      && (fraction == "" || (fraction[0] == '.' && |fraction| > 1 && AllDigits(fraction[1..])))
      && (exponent == "" || ((exponent[0] == 'e' || exponent[0] == 'E') && AllDigits(ExponentDigits()) && ExponentDigits() != ""))
    }

    function Digits(): (s: string)
      ensures WellFormed() ==> AllDigits(s)
    {
      integer + Decimals()
    }

    /** No exponent, no redundant zero before the integer or after the fraction, no negative zero. */
    predicate Canonical()
      requires WellFormed()
    {
      && exponent == ""
      && (fraction != "" ==> fraction[|fraction| - 1] != '0')
      && (integer == "0" && fraction == "" ==> !negative)
    }

    function Exponent(): int
      requires WellFormed()
    {
      Signed(ExponentSigned(), NatOf(ExponentDigits()))
    }

    /** The number the token stands for. */
    function Value(): real
      requires WellFormed()
    {
      Scaled(Signed(negative, NatOf(Digits())), Exponent() - |Decimals()|)
    }
  }

  lemma NoExponent(p: Parts)
    requires p.WellFormed() && p.exponent == ""
    ensures p.ExponentDigits() == "" && p.Exponent() == 0
  {
  }

  lemma DigitCount(p: Parts)
    requires p.WellFormed()
    ensures |p.Digits()| == |p.integer| + |p.Decimals()|
  {
  }

  /** Cuts at the first `e` or `E` and at the first point before it. */
  function Cut(negative: bool, unsigned: string): (p: Parts)
    ensures p.negative == negative && p.Unsigned() == unsigned
  {
    var mark := Find(unsigned, 'e', 'E', 0);
    var point := Find(unsigned[..mark], '.', '.', 0);
    Parts(negative, unsigned[..point], unsigned[point..mark], unsigned[mark..])
  }

  /** How the program cuts a token, at a leading minus first. */
  function Split(token: string): (p: Parts)
    ensures p.Text() == token
  {
    if token != "" && token[0] == '-' then Cut(true, token[1..]) else Cut(false, token)
  }

  predicate IsNumber(token: string) {
    Split(token).WellFormed()
  }

  lemma CutText(p: Parts)
    requires p.WellFormed()
    ensures Cut(p.negative, p.Unsigned()) == p
  {
    var mantissa := p.integer + p.fraction;
    var unsigned := mantissa + p.exponent;
    assert p.fraction != "" ==> p.fraction == "." + p.fraction[1..];
    assert forall k :: 0 <= k < |mantissa| && k != |p.integer| ==> IsDigit(mantissa[k]);
    FindIs(unsigned, 'e', 'E', 0, |mantissa|);
    assert unsigned[..|mantissa|] == mantissa;
    FindIs(mantissa, '.', '.', 0, |p.integer|);
  }

  /** Cutting finds the one way in which a token follows the grammar. */
  lemma SplitText(p: Parts)
    requires p.WellFormed()
    ensures Split(p.Text()) == p
  {
    CutText(p);
    if p.negative {
      assert p.Text()[1..] == p.Unsigned();
    } else {
      assert p.Unsigned()[0] == p.integer[0];
    }
  }

  lemma GrammarIsUnambiguous(token: string)
    ensures IsNumber(token) <==> exists p: Parts :: p.WellFormed() && p.Text() == token
  {
    if p: Parts :| p.WellFormed() && p.Text() == token { SplitText(p); }
  }

  function TokenValue(token: string): real
    requires IsNumber(token)
  {
    Split(token).Value()
  }

  // ---------------------------------------------------------------- normal forms

  /**
   A number other than zero in one way: its sign, its significant digits without zeros at either
   end, and the place of the decimal point relative to the first significant digit.
   */
  datatype Normal = Normal(negative: bool, digits: string, position: int) {
    predicate Valid() {
      AllDigits(digits) && digits != "" && digits[0] != '0' && digits[|digits| - 1] != '0'
    }

    function Value(): real
      requires Valid()
    {
      Scaled(Signed(negative, NatOf(digits)), position - |digits|)
    }

    /** The canonical text: no exponent, no zero that could be left out. */
    function Render(): Parts
      requires Valid()
    {
      if position <= 0 then Parts(negative, "0", "." + Zeros(-position) + digits, "")
      else if position >= |digits| then Parts(negative, digits + Zeros(position - |digits|), "", "")
      else Parts(negative, digits[..position], "." + digits[position..], "")
    }
  }

  lemma NormalSign(n: Normal)
    requires n.Valid()
    ensures NatOf(n.digits) > 0 && (if n.negative then n.Value() < 0.0 else n.Value() > 0.0)
  {
    NatOfAbove(n.digits);
    ScaledSign(Signed(n.negative, NatOf(n.digits)), n.position - |n.digits|);
  }

  /** A normal form is determined by its value. */
  lemma NormalUnique(a: Normal, b: Normal)
    requires a.Valid() && b.Valid() && a.Value() == b.Value()
    ensures a == b
  {
    NormalSign(a);
    NormalSign(b);
    var d, e := a.position - |a.digits|, b.position - |b.digits|;
    var m, n := Signed(a.negative, NatOf(a.digits)), Signed(b.negative, NatOf(b.digits));
    LastDigit(a);
    LastDigit(b);
    if d < e { ScaledApart(m, d, n, e); }
    if e < d { ScaledApart(n, e, m, d); }
    ScaledInjective(m, n, d);
    SameLength(a.digits, b.digits);
    NatOfInjective(a.digits, b.digits);
  }

  lemma LastDigit(n: Normal)
    requires n.Valid()
    ensures Signed(n.negative, NatOf(n.digits)) % 10 != 0
  {
    var s := n.digits;
    NotTenfold(NatOf(s[..|s| - 1]), DigitValue(s[|s| - 1]));
  }

  lemma NotTenfold(m: int, d: int)
    requires 0 < d < 10
    ensures (10 * m + d) % 10 != 0 && (-(10 * m + d)) % 10 != 0
  {
  }

  lemma SameLength(a: string, b: string)
    requires AllDigits(a) && a != "" && a[0] != '0' && AllDigits(b) && b != "" && b[0] != '0'
    requires NatOf(a) == NatOf(b)
    ensures |a| == |b|
  {
    NatOfAbove(a);
    NatOfAbove(b);
    NatOfBelow(a);
    NatOfBelow(b);
    PowerOrder(|a| - 1, |b|);
    PowerOrder(|b| - 1, |a|);
  }

  // ---------------------------------------------------------------- normalization

  /** The first place from `from` on without a zero, or the end. */
  function NonZeroFrom(s: string, from: nat): (i: nat)
    requires from <= |s|
    ensures from <= i <= |s| && (i < |s| ==> s[i] != '0')
    decreases |s| - from
  {
    if from == |s| || s[from] != '0' then from else NonZeroFrom(s, from + 1)
  }

  lemma {:induction false} NonZeroFromIs(s: string, from: nat, i: nat)
    requires from <= i <= |s| && (forall k :: from <= k < i ==> s[k] == '0') && (i < |s| ==> s[i] != '0')
    ensures NonZeroFrom(s, from) == i
    decreases i - from
  {
    if from < i { NonZeroFromIs(s, from + 1, i); }
  }

  lemma {:induction false} ZerosBefore(s: string, from: nat)
    requires from <= |s|
    ensures forall k :: from <= k < NonZeroFrom(s, from) ==> s[k] == '0'
    decreases |s| - from
  {
    if from < |s| && s[from] == '0' { ZerosBefore(s, from + 1); }
  }

  function LeadingZeros(s: string): (i: nat)
    ensures i <= |s| && (i < |s| ==> s[i] != '0')
  {
    NonZeroFrom(s, 0)
  }

  /** The length of `s[..n]` without the zeros at its end. */
  function TrimmedLength(s: string, n: nat): (m: nat)
    requires n <= |s|
    ensures m <= n && (m > 0 ==> s[m - 1] != '0')
  {
    if n > 0 && s[n - 1] == '0' then TrimmedLength(s, n - 1) else n
  }

  lemma {:induction false} TrimmedLengthIs(s: string, n: nat, m: nat)
    requires m <= n <= |s| && (m > 0 ==> s[m - 1] != '0') && (forall k :: m <= k < n ==> s[k] == '0')
    ensures TrimmedLength(s, n) == m
  {
    if m < n { TrimmedLengthIs(s, n - 1, m); }
  }

  lemma {:induction false} ZerosAfter(s: string, n: nat)
    requires n <= |s|
    ensures forall k :: TrimmedLength(s, n) <= k < n ==> s[k] == '0'
  {
    if n > 0 && s[n - 1] == '0' { ZerosAfter(s, n - 1); }
  }

  /** `s` without the zeros at its end. */
  function TrimZeros(s: string): (t: string)
    ensures |t| <= |s| && (t != "" ==> t[|t| - 1] != '0')
  {
    s[..TrimmedLength(s, |s|)]
  }

  /**
   The normal form of digits with the point after the first `point` of them, or nothing if all the
   digits are zeros.
   */
  function NormalFrom(negative: bool, digits: string, point: int): (n: Option<Normal>)
    requires AllDigits(digits)
    ensures n.Some? ==> n.value.Valid()
  {
    var leading := LeadingZeros(digits);
    if leading == |digits| then None else Some(Significant(negative, digits[leading..], point - leading))
  }

  function Significant(negative: bool, s: string, point: int): (n: Normal)
    requires AllDigits(s) && s != "" && s[0] != '0'
    ensures n.Valid() && n.position == point
  {
    ZerosAfter(s, |s|);
    Normal(negative, TrimZeros(s), point)
  }

  /** The normal form of a token. */
  function NormalOf(p: Parts): (n: Option<Normal>)
    requires p.WellFormed()
    ensures n.Some? ==> n.value.Valid()
  {
    NormalFrom(p.negative, p.Digits(), |p.integer| + p.Exponent())
  }

  lemma NatOfWithoutLeading(s: string)
    requires AllDigits(s)
    ensures NatOf(s) == NatOf(s[LeadingZeros(s)..])
  {
    var leading := LeadingZeros(s);
    ZerosBefore(s, 0);
    assert s == Zeros(leading) + s[leading..];
    NatOfLeading(leading, s[leading..]);
  }

  lemma SignificantValue(negative: bool, s: string, point: int)
    requires AllDigits(s) && s != "" && s[0] != '0'
    ensures Scaled(Signed(negative, NatOf(s)), point - |s|) == Significant(negative, s, point).Value()
  {
    var t := TrimZeros(s);
    ZerosAfter(s, |s|);
    assert s == t + Zeros(|s| - |t|);
    NatOfTrailing(negative, t, |s| - |t|, point - |s|);
  }

  lemma NormalFromValue(negative: bool, digits: string, point: int)
    requires AllDigits(digits)
    ensures var n, v := NormalFrom(negative, digits, point), Scaled(Signed(negative, NatOf(digits)), point - |digits|);
            (n.None? <==> v == 0.0) && (n.Some? ==> n.value.Value() == v)
  {
    var leading := LeadingZeros(digits);
    NatOfWithoutLeading(digits);
    if leading == |digits| {
      assert NatOf(digits[leading..]) == 0;
      ScaledSign(0, point - |digits|);
    } else {
      SignificantValue(negative, digits[leading..], point - leading);
      NormalSign(Significant(negative, digits[leading..], point - leading));
    }
  }

  /** Finding the normal form keeps the exact value. */
  lemma NormalKeepsValue(p: Parts)
    requires p.WellFormed()
    ensures NormalOf(p).None? <==> p.Value() == 0.0
    ensures NormalOf(p).Some? ==> NormalOf(p).value.Value() == p.Value()
  {
    hide NormalFrom, Scaled, NatOf;
    var n := NormalFrom(p.negative, p.Digits(), |p.integer| + p.Exponent());
    NormalFromValue(p.negative, p.Digits(), |p.integer| + p.Exponent());
    ValueFromPoint(p);
    assert NormalOf(p) == n;
  }

  lemma ValueFromPoint(p: Parts)
    requires p.WellFormed()
    ensures p.Value() == Scaled(Signed(p.negative, NatOf(p.Digits())), |p.integer| + p.Exponent() - |p.Digits()|)
  {
    DigitCount(p);
  }

  lemma NormalFromPadded(n: Normal, digits: string, leading: nat, back: nat)
    requires n.Valid() && digits == Zeros(leading) + n.digits + Zeros(back)
    ensures AllDigits(digits) && NormalFrom(n.negative, digits, n.position + leading) == Some(n)
  {
    var rest := n.digits + Zeros(back);
    NonZeroFromIs(digits, 0, leading);
    assert digits[leading..] == rest;
    TrimmedLengthIs(rest, |rest|, |n.digits|);
    assert rest[..|n.digits|] == n.digits;
  }

  lemma NormalOfPadded(n: Normal, p: Parts, leading: nat, back: nat)
    requires n.Valid() && p.WellFormed() && p.exponent == "" && p.negative == n.negative
    requires p.Digits() == Zeros(leading) + n.digits + Zeros(back) && |p.integer| == n.position + leading
    ensures NormalOf(p) == Some(n)
  {
    hide NormalFrom, NatOf, Zeros;
    NoExponent(p);
    NormalFromPadded(n, p.Digits(), leading, back);
  }

  /** The canonical text follows the grammar and has the number's own normal form. */
  lemma RenderedIsNormal(n: Normal)
    requires n.Valid()
    ensures n.Render().WellFormed() && NormalOf(n.Render()) == Some(n)
  {
    var leading := if n.position <= 0 then 1 - n.position else 0;
    var back := if n.position > |n.digits| then n.position - |n.digits| else 0;
    RenderedWellFormed(n);
    RenderedDigits(n, leading, back);
    NormalOfPadded(n, n.Render(), leading, back);
  }

  lemma RenderedWellFormed(n: Normal)
    requires n.Valid()
    ensures n.Render().WellFormed()
  {
  }

  lemma RenderedDigits(n: Normal, leading: nat, back: nat)
    requires n.Valid()
    requires leading == (if n.position <= 0 then 1 - n.position else 0)
    requires back == (if n.position > |n.digits| then n.position - |n.digits| else 0)
    ensures n.Render().Digits() == Zeros(leading) + n.digits + Zeros(back)
    ensures |n.Render().integer| == n.position + leading
  {
    if n.position <= 0 { SmallDigits(n); } else if n.position < |n.digits| { MixedDigits(n); } else { LargeDigits(n, back); }
  }

  lemma SmallDigits(n: Normal)
    requires n.Valid() && n.position <= 0
    ensures n.Render().Digits() == Zeros(1 - n.position) + n.digits + Zeros(0) && |n.Render().integer| == 1
  {
    hide NatOf;
    assert n.Render().Decimals() == Zeros(-n.position) + n.digits;
    assert Zeros(1 - n.position) == "0" + Zeros(-n.position);
    Joined("", "0", Zeros(-n.position), n.digits);
    NothingAdded("0" + Zeros(-n.position) + n.digits);
    NothingAdded("0" + (Zeros(-n.position) + n.digits));
  }

  lemma MixedDigits(n: Normal)
    requires n.Valid() && 0 < n.position < |n.digits|
    ensures n.Render().Digits() == Zeros(0) + n.digits + Zeros(0) && |n.Render().integer| == n.position
  {
    var p := MixedParts(n);
    Halves(n.digits, n.position);
    NoZeros(n.digits);
  }

  lemma MixedParts(n: Normal) returns (p: Parts)
    requires n.Valid() && 0 < n.position < |n.digits|
    ensures p == n.Render() && p.integer == n.digits[..n.position] && p.Decimals() == n.digits[n.position..]
  {
    hide AllDigits;
    p := n.Render();
  }

  lemma Halves(s: string, i: nat)
    requires i <= |s|
    ensures s[..i] + s[i..] == s
  {
  }

  lemma NoZeros(s: string)
    ensures Zeros(0) + s + Zeros(0) == s
  {
  }

  lemma LargeDigits(n: Normal, back: nat)
    requires n.Valid() && n.position == |n.digits| + back
    ensures n.Render().Digits() == Zeros(0) + n.digits + Zeros(back) && |n.Render().integer| == n.position
  {
    NothingAdded(n.digits);
    NothingAdded(n.digits + Zeros(back));
  }

  /** Why a number is not written; `Stopped` is the end of a program built with overflow checks. */
  datatype NumberError = NumberExpansionLimit | Stopped

  predicate FitsI64(n: int) { I64_MIN <= n <= I64_MAX }

  /** The sums that place the decimal point stay in 64 bits. */
  predicate SumsFit(digits: string, width: nat, exponent: int) {
    && width <= I64_MAX
    && FitsI64(width + exponent)
    && LeadingZeros(digits) <= I64_MAX
    && FitsI64(width + exponent - LeadingZeros(digits))
  }

  predicate PlacesPoint(p: Parts)
    requires p.WellFormed()
  {
    SumsFit(p.Digits(), |p.integer|, p.Exponent())
  }

  const ZERO := "0"

  /** The canonical text if it is at most one mebibyte long. */
  function RenderWithin(n: Normal): Result<string, NumberError>
    requires n.Valid()
  {
    if |n.Render().Text()| > MAX_CANONICAL_NUMBER_BYTES then Failure(NumberExpansionLimit) else Success(n.Render().Text())
  }

  function NormalizeParts(p: Parts): (r: Result<string, NumberError>)
    requires p.WellFormed()
  {
    if NatOf(p.ExponentDigits()) > I64_MAX then Failure(NumberExpansionLimit)
    else if NormalOf(p).None? then Success(ZERO)
    else if !PlacesPoint(p) then Failure(NumberExpansionLimit)
    else RenderWithin(NormalOf(p).value)
  }

  /** The canonical text of a number token. */
  function Normalize(token: string): (r: Result<string, NumberError>)
    requires IsNumber(token)
  {
    NormalizeParts(Split(token))
  }

  /** The same, in a build with or without overflow checks. */
  function NormalizeIn(token: string, overflowChecks: bool): Result<string, NumberError>
    requires IsNumber(token)
  {
    if overflowChecks && NegatesSmallest(Split(token)) then Failure(Stopped) else Normalize(token)
  }

  lemma ZeroToken()
    ensures IsNumber(ZERO) && Split(ZERO) == Parts(false, "0", "", "")
    ensures TokenValue(ZERO) == 0.0 && Normalize(ZERO) == Success(ZERO)
  {
    var p := Parts(false, "0", "", "");
    assert p.WellFormed() && p.Text() == ZERO;
    SplitText(p);
    NormalKeepsValue(p);
    NonZeroFromIs(p.Digits(), 0, 1);
  }

  /**
   Normalization keeps the exact value, its output is at most one mebibyte long, and the output is
   a token that normalization leaves alone.
   */
  lemma NormalizeKeepsValue(token: string)
    requires IsNumber(token) && Normalize(token).Success?
    ensures var text := Normalize(token).value;
            && IsNumber(text) && TokenValue(text) == TokenValue(token)
            && |text| <= MAX_CANONICAL_NUMBER_BYTES
            && Normalize(text) == Success(text)
  {
    hide NormalOf, NatOf, PlacesPoint;
    var p := Split(token);
    NormalKeepsValue(p);
    ZeroToken();
    if NormalOf(p).Some? {
      var n := NormalOf(p).value;
      var q := n.Render();
      RenderedIsNormal(n);
      SplitText(q);
      NormalKeepsValue(q);
      RenderedPlacesPoint(n);
    }
  }

  lemma RenderedPlacesPoint(n: Normal)
    requires n.Valid() && n.Render().WellFormed() && |n.Render().Text()| <= MAX_CANONICAL_NUMBER_BYTES
    ensures NatOf(n.Render().ExponentDigits()) == 0 && PlacesPoint(n.Render())
  {
    var p := n.Render();
    NoExponent(p);
    assert |p.integer| <= |p.Text()| && |p.Digits()| <= |p.Text()|;
  }

  /** Two accepted tokens have one canonical text exactly when they are the same rational number. */
  lemma NormalizeDecidesEquality(a: string, b: string)
    requires IsNumber(a) && IsNumber(b) && Normalize(a).Success? && Normalize(b).Success?
    ensures Normalize(a) == Normalize(b) <==> TokenValue(a) == TokenValue(b)
  {
    NormalizeKeepsValue(a);
    NormalizeKeepsValue(b);
    if TokenValue(a) == TokenValue(b) {
      NormalKeepsValue(Split(a));
      NormalKeepsValue(Split(b));
      if NormalOf(Split(a)).Some? { NormalUnique(NormalOf(Split(a)).value, NormalOf(Split(b)).value); }
    }
  }

  predicate IsCanonicalNumber(token: string) {
    Split(token).WellFormed() && Split(token).Canonical()
  }

  /** The texts normalization leaves alone are exactly the canonical ones of at most one mebibyte. */
  lemma FixedPointsAreCanonical(token: string)
    requires IsNumber(token)
    ensures Normalize(token) == Success(token) <==> IsCanonicalNumber(token) && |token| <= MAX_CANONICAL_NUMBER_BYTES
  {
    if Normalize(token) == Success(token) {
      NormalizeKeepsValue(token);
      ZeroToken();
      if NormalOf(Split(token)).Some? { FixedIsCanonical(token); }
    }
    if IsCanonicalNumber(token) && |token| <= MAX_CANONICAL_NUMBER_BYTES { CanonicalIsFixed(token); }
  }

  lemma FixedIsCanonical(token: string)
    requires IsNumber(token) && Normalize(token) == Success(token) && NormalOf(Split(token)).Some?
    ensures IsCanonicalNumber(token)
  {
    var n := NormalOf(Split(token)).value;
    RenderedIsCanonical(n);
    SplitText(n.Render());
  }

  lemma RenderedIsCanonical(n: Normal)
    requires n.Valid()
    ensures n.Render().WellFormed() && n.Render().Canonical()
  {
    RenderedWellFormed(n);
    if n.position > 0 { assert n.Render().integer[0] == n.digits[0]; }
  }

  lemma CanonicalIsFixed(token: string)
    requires IsCanonicalNumber(token) && |token| <= MAX_CANONICAL_NUMBER_BYTES
    ensures Normalize(token) == Success(token)
  {
    var p := Split(token);
    NoExponent(p);
    if NormalOf(p).None? {
      CanonicalZero(p);
      ZeroToken();
    } else {
      if p.fraction == "" { CanonicalInteger(p); } else { CanonicalFraction(p); }
      RenderedPlacesPoint(NormalOf(p).value);
    }
  }

  /** A canonical token without a significant digit is the single zero. */
  lemma CanonicalZero(p: Parts)
    requires p.WellFormed() && p.Canonical() && NormalOf(p).None?
    ensures p == Parts(false, "0", "", "")
  {
    ZerosBefore(p.Digits(), 0);
    assert p.Digits()[0] == p.integer[0];
    DigitsEnd(p);
  }

  lemma DigitsEnd(p: Parts)
    requires p.WellFormed()
    ensures p.fraction != "" ==> p.Digits()[|p.Digits()| - 1] == p.fraction[|p.fraction| - 1]
  {
  }

  lemma CanonicalInteger(p: Parts)
    requires p.WellFormed() && p.Canonical() && NormalOf(p).Some? && p.fraction == ""
    ensures NormalOf(p).value.Render() == p
  {
    var n := NormalOf(p).value;
    var digits := p.Digits();
    NoExponent(p);
    assert digits == p.integer;
    ZerosBefore(digits, 0);
    assert LeadingZeros(digits) == 0 && digits[0..] == digits;
    ZerosAfter(digits, |digits|);
    assert digits == n.digits + Zeros(|digits| - |n.digits|);
  }

  lemma CanonicalFraction(p: Parts)
    requires p.WellFormed() && p.Canonical() && NormalOf(p).Some? && p.fraction != ""
    ensures NormalOf(p).value.Render() == p
  {
    hide NatOf, LeadingZeros, NonZeroFrom, AllDigits, TrimZeros;
    NoExponent(p);
    FractionDigits(p);
    if p.integer[0] == '0' {
      FractionZeros(p);
      RenderSmall(NormalOf(p).value, p.Decimals());
    } else {
      assert p.Digits()[0..] == p.Digits();
      RenderHalves(NormalOf(p).value, p.integer, p.Decimals());
    }
  }

  lemma RenderSmall(n: Normal, decimals: string)
    requires n.Valid() && n.position <= 0 && decimals == Zeros(-n.position) + n.digits
    ensures n.Render() == Parts(n.negative, "0", "." + decimals, "")
  {
    Regrouped(".", Zeros(-n.position), n.digits);
  }

  lemma Regrouped(a: string, b: string, c: string)
    ensures a + b + c == a + (b + c)
  {
  }

  lemma RenderHalves(n: Normal, a: string, b: string)
    requires n.Valid() && n.digits == a + b && n.position == |a| > 0 && b != ""
    ensures n.Render() == Parts(n.negative, a, "." + b, "")
  {
  }

  lemma FractionZeros(p: Parts)
    requires p.WellFormed() && p.integer[0] == '0' && LeadingZeros(p.Digits()) > 0
    ensures p.integer == "0" && p.Decimals() == Zeros(LeadingZeros(p.Digits()) - 1) + p.Digits()[LeadingZeros(p.Digits())..]
  {
    ZerosBefore(p.Digits(), 0);
    assert p.Decimals() == p.Digits()[1..];
  }

  lemma FractionDigits(p: Parts)
    requires p.WellFormed() && p.Canonical() && NormalOf(p).Some? && p.fraction != ""
    ensures NormalOf(p).value.digits == p.Digits()[LeadingZeros(p.Digits())..]
    ensures LeadingZeros(p.Digits()) > 0 <==> p.integer[0] == '0'
    ensures p.fraction == "." + p.Decimals()
  {
    var rest := p.Digits()[LeadingZeros(p.Digits())..];
    DigitsEnd(p);
    assert p.Digits()[0] == p.integer[0];
    ZerosBefore(p.Digits(), 0);
    assert rest[|rest| - 1] == p.Digits()[|p.Digits()| - 1];
    TrimmedLengthIs(rest, |rest|, |rest|);
  }

  /**
   When normalization succeeds: the exponent fits 64 bits, and the number is zero or the point can
   be placed and the canonical text is no longer than one mebibyte. A zero with an exponent beyond
   64 bits is refused although its text would be a single digit.
   */
  lemma AcceptedTokens(token: string)
    requires IsNumber(token)
    ensures Normalize(token).Success? <==>
              && -I64_MAX <= Split(token).Exponent() <= I64_MAX
              && (TokenValue(token) == 0.0 || FitsCanonically(token))
  {
    NormalKeepsValue(Split(token));
  }

  /** The number is not zero, its point can be placed and its canonical text is short enough. */
  predicate FitsCanonically(token: string)
    requires IsNumber(token)
  {
    var p := Split(token);
    NormalOf(p).Some? && PlacesPoint(p) && |NormalOf(p).value.Render().Text()| <= MAX_CANONICAL_NUMBER_BYTES
  }

  /** Below 2^62 characters the 64-bit sums refuse no number whose canonical text is short enough. */
  lemma PointIsAlwaysPlaced(token: string)
    requires IsNumber(token) && |token| <= I64_MAX / 2 && NormalOf(Split(token)).Some?
    requires |NormalOf(Split(token)).value.Render().Text()| <= MAX_CANONICAL_NUMBER_BYTES
    ensures PlacesPoint(Split(token))
  {
    var p := Split(token);
    assert |p.Digits()| <= |token| && |p.integer| <= |token|;
    PositionBounded(NormalOf(p).value);
  }

  lemma PositionBounded(n: Normal)
    requires n.Valid()
    ensures -|n.Render().Text()| <= n.position <= |n.Render().Text()|
  {
  }

  /**
   Below 2^62 characters nothing is refused without need but zeros: any other number is accepted exactly
   when its plain text is at most one mebibyte long, a zero exactly when its exponent fits 64 bits.
   */
  lemma AcceptedExactly(token: string)
    requires IsNumber(token) && |token| <= I64_MAX / 2
    ensures Normalize(token).Success? <==>
              if NormalOf(Split(token)).None? then -I64_MAX <= Split(token).Exponent() <= I64_MAX
              else |NormalOf(Split(token)).value.Render().Text()| <= MAX_CANONICAL_NUMBER_BYTES
    ensures NormalOf(Split(token)).None? <==> TokenValue(token) == 0.0
  {
    var p := Split(token);
    NormalKeepsValue(p);
    if NormalOf(p).Some? && |NormalOf(p).value.Render().Text()| <= MAX_CANONICAL_NUMBER_BYTES {
      PointIsAlwaysPlaced(token);
      assert |p.Digits()| <= |token| && |p.integer| <= |token|;
      PositionBounded(NormalOf(p).value);
    }
  }

  /** A zero that is refused: its text would be the single digit. */
  lemma RefusedZero()
    ensures var token := "0e9223372036854775808";
            IsNumber(token) && TokenValue(token) == 0.0 && Normalize(token) == Failure(NumberExpansionLimit)
  {
    hide NatOf, IsNumber, TokenValue, Normalize;
    var d := "922337203685477580" + ['8'];
    Largest(d, '8');
    RefusedZeros(d);
    assert "0e" + d == "0e9223372036854775808";
  }

  lemma RefusedZeros(d: string)
    requires AllDigits(d) && d != "" && NatOf(d) > I64_MAX
    ensures IsNumber("0e" + d) && TokenValue("0e" + d) == 0.0 && Normalize("0e" + d) == Failure(NumberExpansionLimit)
  {
    hide NatOf, NormalOf;
    var p := ZeroParts(d);
    SplitText(p);
  }

  lemma ZeroParts(d: string) returns (p: Parts)
    requires AllDigits(d) && d != ""
    ensures p.WellFormed() && p.Text() == "0e" + d && p.ExponentDigits() == d && p.Value() == 0.0
  {
    p := Parts(false, "0", "", "e" + d);
    assert p.ExponentDigits() == d;
    assert p.Digits() == "0";
    NonZeroFromIs(p.Digits(), 0, 1);
    NormalKeepsValue(p);
  }

  // ---------------------------------------------------------------- the smallest position

  /**
   The program comes to negate the smallest 64-bit integer: it has read the exponent, found a digit that
   is not zero and placed the point, and the point stands exactly there.
   */
  predicate NegatesSmallest(p: Parts)
    requires p.WellFormed()
  {
    && NatOf(p.ExponentDigits()) <= I64_MAX && NormalOf(p).Some? && PlacesPoint(p)
    && NormalOf(p).value.position == I64_MIN
  }

  /** `v` has its first digit at position `q`: it lies between two neighbouring powers of ten. */
  ghost predicate InDecade(v: real, q: int) {
    Scaled(1, q - 1) <= (if v < 0.0 then -v else v) < Scaled(1, q)
  }

  lemma {:induction false} ScaledOrder(m: int, n: int, e: int)
    requires m < n
    ensures Scaled(m, e) < Scaled(n, e)
    decreases if e < 0 then -e else e
  {
    if e > 0 { ScaledOrder(10 * m, 10 * n, e - 1); }
    if e < 0 { ScaledOrder(m, n, e + 1); }
  }

  lemma {:induction false} ScaledNegated(m: int, e: int)
    ensures Scaled(-m, e) == -Scaled(m, e)
    decreases if e < 0 then -e else e
  {
    if e > 0 { ScaledNegated(10 * m, e - 1); }
    if e < 0 { ScaledNegated(m, e + 1); }
  }

  lemma {:induction false} ScaledPower(k: nat, e: int)
    ensures Scaled(Power10(k), e) == Scaled(1, e + k)
  {
    if k > 0 {
      ScaledShift(Power10(k - 1), e);
      ScaledPower(k - 1, e + 1);
    }
  }

  lemma {:induction false} ScaledRises(d: int, e: int)
    requires d <= e
    ensures Scaled(1, d) <= Scaled(1, e)
    decreases e - d
  {
    if d < e {
      ScaledShift(1, e - 1);
      ScaledOrder(1, 10, e - 1);
      ScaledRises(d, e - 1);
    }
  }

  /** A normal form stands in the decade its position names, and in no other. */
  lemma NormalDecade(n: Normal, q: int)
    requires n.Valid()
    ensures InDecade(n.Value(), q) <==> n.position == q
  {
    var m, e := NatOf(n.digits), n.position - |n.digits|;
    NatOfAbove(n.digits);
    NatOfBelow(n.digits);
    NormalSign(n);
    ScaledNegated(m, e);
    ScaledPower(|n.digits| - 1, e);
    ScaledPower(|n.digits|, e);
    if Power10(|n.digits| - 1) < m { ScaledOrder(Power10(|n.digits| - 1), m, e); }
    ScaledOrder(m, Power10(|n.digits|), e);
    if q < n.position { ScaledRises(q, n.position - 1); }
    if q > n.position { ScaledRises(n.position, q - 1); }
  }

  /**
   Exactly which tokens come to negate the smallest 64-bit integer: those whose exponent is read and whose
   value lies in the decade below ten to the power of it. All of them are too long to write out.
   */
  lemma NegatesSmallestExactly(token: string)
    requires IsNumber(token) && |token| <= I64_MAX / 2
    ensures NegatesSmallest(Split(token)) <==>
              && -I64_MAX <= Split(token).Exponent() <= I64_MAX
              && NormalOf(Split(token)).Some? && NormalOf(Split(token)).value.position == I64_MIN
    ensures NegatesSmallest(Split(token)) <==>
              -I64_MAX <= Split(token).Exponent() <= I64_MAX && InDecade(TokenValue(token), I64_MIN)
    ensures NegatesSmallest(Split(token)) ==> Normalize(token) == Failure(NumberExpansionLimit)
  {
    hide Scaled, NormalOf, NatOf, InDecade;
    SmallestDecade(token);
    SmallestReached(token);
  }

  lemma SmallestDecade(token: string)
    requires IsNumber(token)
    ensures InDecade(TokenValue(token), I64_MIN) <==> NormalOf(Split(token)).Some? && NormalOf(Split(token)).value.position == I64_MIN
  {
    hide Scaled, NormalOf, NatOf, InDecade;
    NormalKeepsValue(Split(token));
    if NormalOf(Split(token)).Some? {
      NormalDecade(NormalOf(Split(token)).value, I64_MIN);
    } else {
      ZeroHasNoDecade(I64_MIN);
    }
  }

  lemma SmallestReached(token: string)
    requires IsNumber(token) && |token| <= I64_MAX / 2
    ensures NegatesSmallest(Split(token)) <==>
              && -I64_MAX <= Split(token).Exponent() <= I64_MAX
              && NormalOf(Split(token)).Some? && NormalOf(Split(token)).value.position == I64_MIN
    ensures NegatesSmallest(Split(token)) ==> Normalize(token) == Failure(NumberExpansionLimit)
  {
    hide NormalOf, NatOf, RenderWithin;
    var p := Split(token);
    assert |p.Digits()| <= |token| && |p.integer| <= |token|;
    if NormalOf(p).Some? {
      SmallestTooLong(NormalOf(p).value);
      PositionSum(p);
    }
  }

  lemma SmallestTooLong(n: Normal)
    requires n.Valid()
    ensures n.position == I64_MIN ==> RenderWithin(n) == Failure(NumberExpansionLimit)
  {
    PositionBounded(n);
  }

  lemma PositionSum(p: Parts)
    requires p.WellFormed() && NormalOf(p).Some?
    ensures NormalOf(p).value.position == |p.integer| + p.Exponent() - LeadingZeros(p.Digits())
  {
  }

  lemma ZeroHasNoDecade(q: int)
    ensures !InDecade(0.0, q)
  {
    ScaledSign(1, q - 1);
  }

  /** The token `0.01e-9223372036854775807` does, and a build with overflow checks stops there. */
  lemma SmallestPosition()
    ensures var token := "0.01e-9223372036854775807";
            && IsNumber(token) && NegatesSmallest(Split(token))
            && NormalizeIn(token, false) == Failure(NumberExpansionLimit) && NormalizeIn(token, true) == Failure(Stopped)
  {
    hide NatOf, IsNumber, NegatesSmallest, Split, NormalizeIn;
    var d := "922337203685477580" + ['7'];
    Largest(d, '7');
    SmallestPositions(d);
    assert "0.01e-" + d == "0.01e-9223372036854775807";
  }

  lemma SmallestPositions(d: string)
    requires AllDigits(d) && d != "" && NatOf(d) == I64_MAX
    ensures var token := "0.01e-" + d;
            && IsNumber(token) && NegatesSmallest(Split(token))
            && NormalizeIn(token, false) == Failure(NumberExpansionLimit) && NormalizeIn(token, true) == Failure(Stopped)
  {
    hide NatOf, NormalOf;
    var p := SmallestParts(d);
    SmallestPoint(p);
    SplitText(p);
    PositionBounded(Normal(false, "1", I64_MIN));
  }

  /** The number a digit string spells, read from the left. */
  function ReadFrom(s: string, i: nat, read: nat): nat
    requires AllDigits(s) && i <= |s|
    decreases |s| - i
  {
    if i == |s| then read else ReadFrom(s, i + 1, 10 * read + DigitValue(s[i]))
  }

  lemma {:induction false} ReadsNatOf(s: string, i: nat)
    requires AllDigits(s) && i <= |s|
    ensures ReadFrom(s, i, NatOf(s[..i])) == NatOf(s)
    decreases |s| - i
  {
    if i == |s| {
      assert s[..i] == s;
    } else {
      assert s[..i + 1][..i] == s[..i];
      ReadsNatOf(s, i + 1);
    }
  }

  /** Four digits further. */
  lemma ReadsFour(s: string, i: nat, read: nat)
    requires AllDigits(s) && i + 4 <= |s|
    ensures ReadFrom(s, i, read) ==
      ReadFrom(s, i + 4, 10000 * read + 1000 * DigitValue(s[i]) + 100 * DigitValue(s[i + 1]) + 10 * DigitValue(s[i + 2])
                         + DigitValue(s[i + 3]))
  {
    var first := 10 * read + DigitValue(s[i]);
    var second := 10 * first + DigitValue(s[i + 1]);
    assert ReadFrom(s, i, read) == ReadFrom(s, i + 1, first) == ReadFrom(s, i + 2, second);
    assert ReadFrom(s, i + 2, second) == ReadFrom(s, i + 3, 10 * second + DigitValue(s[i + 2]));
  }

  lemma ReadsOne(s: string, i: nat, read: nat)
    requires AllDigits(s) && i < |s|
    ensures ReadFrom(s, i, read) == ReadFrom(s, i + 1, 10 * read + DigitValue(s[i]))
  {
  }

  /** The largest 64-bit integer but for its last digit. */
  lemma LargestDigits(s: string)
    requires |s| == 19 && AllDigits(s) && DigitValue(s[18]) >= 7
    requires s[0] == '9' && s[1] == '2' && s[2] == '2' && s[3] == '3'
    requires s[4] == '3' && s[5] == '7' && s[6] == '2' && s[7] == '0'
    requires s[8] == '3' && s[9] == '6' && s[10] == '8' && s[11] == '5'
    requires s[12] == '4' && s[13] == '7' && s[14] == '7' && s[15] == '5'
    requires s[16] == '8' && s[17] == '0'
    ensures NatOf(s) == I64_MAX - 7 + DigitValue(s[18])
  {
    hide NatOf, ReadFrom, AllDigits;
    ReadsNatOf(s, 0);
    ReadsNothing(s);
    ReadsFour(s, 0, 0);
    ReadsFour(s, 4, 9223);
    ReadsFour(s, 8, 92233720);
    ReadsFour(s, 12, 922337203685);
    ReadsOne(s, 16, 9223372036854775);
    ReadsOne(s, 17, 92233720368547758);
    ReadsOne(s, 18, 922337203685477580);
  }

  lemma ReadsNothing(s: string)
    ensures s[..0] == "" && NatOf("") == 0
    ensures AllDigits(s) ==> forall n :: ReadFrom(s, |s|, n) == n
  {
  }

  lemma Largest(d: string, last: char)
    requires d == "922337203685477580" + [last] && (last == '7' || last == '8')
    ensures d != "" && AllDigits(d) && NatOf(d) == I64_MAX + if last == '7' then 0 else 1
  {
    hide NatOf;
    LargestDigits(d);
  }

  lemma SmallestParts(d: string) returns (p: Parts)
    requires AllDigits(d) && d != "" && NatOf(d) == I64_MAX
    ensures p.WellFormed() && p.Text() == "0.01e-" + d
    ensures p.ExponentDigits() == d && p.Exponent() == -I64_MAX
    ensures p.Digits() == "001" && |p.integer| == 1 && !p.negative
  {
    p := Parts(false, "0", ".01", "e-" + d);
    assert p.ExponentDigits() == d;
    assert p.Decimals() == "01";
  }

  lemma SmallestPoint(p: Parts)
    requires p.WellFormed() && p.Digits() == "001" && p.Exponent() == -I64_MAX && |p.integer| == 1 && !p.negative
    ensures PlacesPoint(p) && NormalOf(p) == Some(Normal(false, "1", I64_MIN))
  {
    NonZeroFromIs(p.Digits(), 0, 2);
    assert p.Digits() == Zeros(2) + "1" + Zeros(0);
    NormalFromPadded(Normal(false, "1", I64_MIN), p.Digits(), 2, 0);
  }

  // ---------------------------------------------------------------- the program

  lemma {:induction false} NatOfGrows(s: string, n: nat)
    requires AllDigits(s) && n <= |s|
    ensures NatOf(s[..n]) <= NatOf(s)
  {
    if n < |s| {
      NatOfGrows(s[..|s| - 1], n);
      assert s[..|s| - 1][..n] == s[..n];
    } else {
      assert s[..n] == s;
    }
  }

  /** Reads an exponent digit by digit; the multiplication and the addition are checked in 64 bits. */
  method ParseExponent(negative: bool, digits: string) returns (r: Result<int, NumberError>)
    requires AllDigits(digits)
    ensures r == if NatOf(digits) > I64_MAX then Failure(NumberExpansionLimit) else Success(Signed(negative, NatOf(digits)))
  {
    var exponent: int := 0;
    for i := 0 to |digits|
      invariant exponent == NatOf(digits[..i]) <= I64_MAX
    {
      assert digits[..i + 1][..i] == digits[..i];
      NatOfGrows(digits, i + 1);
      if !FitsI64(exponent * 10) || !FitsI64(exponent * 10 + DigitValue(digits[i])) { return Failure(NumberExpansionLimit); }
      exponent := exponent * 10 + DigitValue(digits[i]);
    }
    assert digits[..|digits|] == digits;
    return Success(Signed(negative, exponent));
  }

  /** Negation in 64 bits: the smallest integer is its own opposite, or stops a build with overflow checks. */
  function Negate(n: int, overflowChecks: bool): Result<int, NumberError>
    requires FitsI64(n)
  {
    if n == I64_MIN then if overflowChecks then Failure(Stopped) else Success(I64_MIN) else Success(-n)
  }

  lemma Joined(a: string, b: string, c: string, d: string)
    ensures a + b + c + d == a + (b + c + d)
  {
  }

  lemma RenderedText(n: Normal)
    requires n.Valid()
    ensures var sign := if n.negative then "-" else "";
            n.Render().Text() ==
              if n.position <= 0 then sign + "0." + Zeros(-n.position) + n.digits
              else if n.position >= |n.digits| then sign + n.digits + Zeros(n.position - |n.digits|)
              else sign + n.digits[..n.position] + "." + n.digits[n.position..]
  {
    var sign := if n.negative then "-" else "";
    RenderedUnsigned(n);
    if n.position <= 0 {
      Joined(sign, "0.", Zeros(-n.position), n.digits);
    } else if n.position >= |n.digits| {
      Joined(sign, n.digits, Zeros(n.position - |n.digits|), "");
    } else {
      Joined(sign, n.digits[..n.position], ".", n.digits[n.position..]);
    }
  }

  lemma RenderedUnsigned(n: Normal)
    requires n.Valid()
    ensures n.Render().Text() == (if n.negative then "-" else "") + n.Render().Unsigned()
    ensures n.Render().Unsigned() ==
              if n.position <= 0 then "0." + Zeros(-n.position) + n.digits
              else if n.position >= |n.digits| then n.digits + Zeros(n.position - |n.digits|) + ""
              else n.digits[..n.position] + "." + n.digits[n.position..]
  {
    var p := n.Render();
    NothingAdded(p.integer + p.fraction);
    NothingAdded(p.Unsigned());
    if n.position <= 0 {
      assert "0" + "." == "0.";
      Joined("0", ".", Zeros(-n.position), n.digits);
    } else if n.position < |n.digits| {
      Joined(n.digits[..n.position], ".", n.digits[n.position..], "");
      NothingAdded("." + n.digits[n.position..]);
      NothingAdded(n.digits[..n.position] + "." + n.digits[n.position..]);
    }
  }

  lemma NothingAdded(s: string)
    ensures s + "" == s && "" + s == s
  {
  }

  /** Writes the digits of a number with the point at `position`, or refuses an overlong text. */
  method WriteDigits(n: Normal, overflowChecks: bool) returns (r: Result<string, NumberError>)
    requires n.Valid() && FitsI64(n.position)
    ensures r == if overflowChecks && n.position == I64_MIN then Failure(Stopped) else RenderWithin(n)
  {
    RenderedText(n);
    var output := if n.negative then "-" else "";
    if n.position <= 0 {
      var zeroes :- Negate(n.position, overflowChecks);
      if zeroes < 0 || |output| + 2 + zeroes + |n.digits| > MAX_CANONICAL_NUMBER_BYTES { return Failure(NumberExpansionLimit); }
      output := output + "0.";
      output := output + Zeros(zeroes);
      output := output + n.digits;
    } else if n.position >= |n.digits| {
      var zeroes := n.position - |n.digits|;
      if |output| + |n.digits| + zeroes > MAX_CANONICAL_NUMBER_BYTES { return Failure(NumberExpansionLimit); }
      output := output + n.digits;
      output := output + Zeros(zeroes);
    } else {
      if |output| + |n.digits| + 1 > MAX_CANONICAL_NUMBER_BYTES { return Failure(NumberExpansionLimit); }
      output := output + n.digits[..n.position];
      output := output + ".";
      output := output + n.digits[n.position..];
    }
    return Success(output);
  }

  /** The canonical text of digits of which `width` stand before the point, moved by `exponent`. */
  function NormalizeDigits(negative: bool, digits: string, width: nat, exponent: int): Result<string, NumberError>
    requires AllDigits(digits)
  {
    match NormalFrom(negative, digits, width + exponent)
    case None => Success(ZERO)
    case Some(n) => if SumsFit(digits, width, exponent) then RenderWithin(n) else Failure(NumberExpansionLimit)
  }

  predicate SmallestFrom(negative: bool, digits: string, width: nat, exponent: int)
    requires AllDigits(digits)
  {
    var n := NormalFrom(negative, digits, width + exponent);
    n.Some? && SumsFit(digits, width, exponent) && n.value.position == I64_MIN
  }

  lemma NormalizedFromDigits(p: Parts)
    requires p.WellFormed() && NatOf(p.ExponentDigits()) <= I64_MAX
    ensures NormalizeParts(p) == NormalizeDigits(p.negative, p.Digits(), |p.integer|, p.Exponent())
    ensures NegatesSmallest(p) <==> SmallestFrom(p.negative, p.Digits(), |p.integer|, p.Exponent())
  {
    hide RenderWithin, NormalFrom, SumsFit, NatOf;
  }

  /** Places the point of a number whose exponent has been read. */
  method PlacePoint(negative: bool, digits: string, width: nat, exponent: int, overflowChecks: bool)
    returns (r: Result<string, NumberError>)
    requires AllDigits(digits)
    ensures r == if overflowChecks && SmallestFrom(negative, digits, width, exponent) then Failure(Stopped)
                 else NormalizeDigits(negative, digits, width, exponent)
  {
    hide Significant, RenderWithin;
    var leading := LeadingZeros(digits);
    if leading == |digits| { return Success(ZERO); }
    if width > I64_MAX || leading > I64_MAX { return Failure(NumberExpansionLimit); }
    if !FitsI64(width + exponent) { return Failure(NumberExpansionLimit); }
    if !FitsI64(width + exponent - leading) { return Failure(NumberExpansionLimit); }
    r := WriteDigits(Significant(negative, digits[leading..], width + exponent - leading), overflowChecks);
  }

  /** The program's normalization meets its specification on every number token. */
  method NormalizeNumber(raw: string, overflowChecks: bool) returns (r: Result<string, NumberError>)
    requires IsNumber(raw)
    ensures r == NormalizeIn(raw, overflowChecks)
  {
    var p := Split(raw);
    var exponent := 0;
    if p.exponent != "" {
      var parsed := ParseExponent(p.ExponentSigned(), p.ExponentDigits());
      if parsed.Failure? { return Failure(NumberExpansionLimit); }
      exponent := parsed.value;
    } else {
      NoExponent(p);
    }
    NormalizedFromDigits(p);
    r := PlacePoint(p.negative, p.Digits(), |p.integer|, exponent, overflowChecks);
  }
}
