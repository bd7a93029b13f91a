/** Instants with fractions of any length, ordered exactly. */
module Timestamps {
  import opened DecimalNumbers

  /** A parsed instant: the second in UTC, whether it is a leap second, the digits of the fraction. */
  datatype Timestamp = Timestamp(original: string, second: int, leap: bool, fraction: string) {
    predicate Valid() { AllDigits(fraction) }

    /** Seconds are two apart, so that a leap second has its own place after the one it repeats. */
    function Key(): int { 2 * second + if leap then 1 else 0 }

    /** The exact place of the instant on a line. */
    function Place(): real
      requires Valid()
    {
      Key() as real + FractionValue(fraction)
    }
  }

  datatype Ordering = Less | Equal | Greater

  /** The number `0.s`, exactly. */
  function FractionValue(s: string): (r: real)
    requires AllDigits(s)
    ensures 0.0 <= r < 1.0
  {
    if s == "" then 0.0 else (DigitValue(s[0]) as real + FractionValue(s[1..])) / 10.0
  }

  function OrderOf(x: real, y: real): Ordering {
    if x < y then Less else if x == y then Equal else Greater
  }

  /** What is left of the digits after the first `i`. */
  function Tail(s: string, i: nat): string {
    if i < |s| then s[i..] else ""
  }

  function DigitAt(s: string, i: nat): char {
    if i < |s| then s[i] else '0'
  }

  lemma TailStep(s: string, i: nat)
    requires AllDigits(s)
    ensures AllDigits(Tail(s, i)) && AllDigits(Tail(s, i + 1)) && IsDigit(DigitAt(s, i))
    ensures FractionValue(Tail(s, i)) == (DigitValue(DigitAt(s, i)) as real + FractionValue(Tail(s, i + 1))) / 10.0
  {
    if i < |s| {
      assert i + 1 < |s| ==> s[i..][1..] == s[i + 1..];
      assert i + 1 == |s| ==> s[i..][1..] == "";
    }
  }

  /** Digit by digit, a missing digit counting as zero. */
  method CompareFraction(left: string, right: string) returns (r: Ordering)
    requires AllDigits(left) && AllDigits(right)
    ensures r == OrderOf(FractionValue(left), FractionValue(right))
  {
    var width := if |left| > |right| then |left| else |right|;
    assert Tail(left, 0) == left && Tail(right, 0) == right;
    for i := 0 to width
      invariant AllDigits(Tail(left, i)) && AllDigits(Tail(right, i))
      invariant OrderOf(FractionValue(left), FractionValue(right)) == OrderOf(FractionValue(Tail(left, i)), FractionValue(Tail(right, i)))
    {
      TailStep(left, i);
      TailStep(right, i);
      if DigitAt(left, i) < DigitAt(right, i) { return Less; }
      if DigitAt(left, i) > DigitAt(right, i) { return Greater; }
    }
    return Equal;
  }

  /** Seconds first, then fractions: exactly the order of the instants. */
  method Compare(a: Timestamp, b: Timestamp) returns (r: Ordering)
    requires a.Valid() && b.Valid()
    ensures r == OrderOf(a.Place(), b.Place())
  {
    if a.Key() < b.Key() { return Less; }
    if a.Key() > b.Key() { return Greater; }
    r := CompareFraction(a.fraction, b.fraction);
  }

  /** `a` is no later than `b`. */
  predicate NoLater(a: Timestamp, b: Timestamp)
    requires a.Valid() && b.Valid()
  {
    a.Place() <= b.Place()
  }

  /** Zeros at the end of a fraction do not change the instant. */
  lemma {:induction false} TrailingZeros(s: string, n: nat)
    requires AllDigits(s)
    ensures FractionValue(s + Zeros(n)) == FractionValue(s)
    decreases |s| + n
  {
    if s != "" {
      TrailingZeros(s[1..], n);
      assert (s + Zeros(n))[1..] == s[1..] + Zeros(n);
    } else if n > 0 {
      TrailingZeros("", n - 1);
      assert (s + Zeros(n))[1..] == "" + Zeros(n - 1);
    } else {
      assert s + Zeros(0) == s;
    }
  }

  /** A fraction is its digits as a number, shifted behind the point. */
  lemma {:induction false} FractionExactly(s: string)
    requires AllDigits(s)
    ensures Scaled(NatOf(s), -|s|) == FractionValue(s)
  {
    if s != "" {
      var last := |s| - 1;
      FractionExactly(s[..last]);
      FractionExtended(s[..last], s[last]);
      assert s == s[..last] + [s[last]];
      ScaledLast(NatOf(s[..last]), DigitValue(s[last]), |s|);
    }
  }

  lemma {:induction false} FractionExtended(s: string, c: char)
    requires AllDigits(s) && IsDigit(c)
    ensures FractionValue(s + [c]) == FractionValue(s) + Scaled(DigitValue(c), -(|s| + 1))
  {
    if s == "" {
      assert [c][1..] == "";
    } else {
      FractionExtended(s[1..], c);
      assert (s + [c])[1..] == s[1..] + [c];
    }
  }

  lemma ScaledLast(m: int, d: int, n: int)
    requires n > 0
    ensures Scaled(10 * m + d, -n) == Scaled(m, 1 - n) + Scaled(d, -n)
  {
    ScaledShift(m, -n);
    ScaledSum(10 * m, d, n);
  }

  lemma {:induction false} ScaledSum(a: int, b: int, n: int)
    requires n >= 0
    ensures Scaled(a + b, -n) == Scaled(a, -n) + Scaled(b, -n)
    decreases n
  {
    if n > 0 { ScaledSum(a, b, n - 1); }
  }

  /** Instants are ordered by second, then a leap second after the second it repeats, then by fraction. */
  lemma PlacesInOrder(a: Timestamp, b: Timestamp)
    requires a.Valid() && b.Valid()
    ensures a.Place() < b.Place() <==>
              || a.second < b.second
              || (a.second == b.second && !a.leap && b.leap)
              || (a.second == b.second && a.leap == b.leap && FractionValue(a.fraction) < FractionValue(b.fraction))
    ensures a.Place() == b.Place() <==>
              a.second == b.second && a.leap == b.leap && FractionValue(a.fraction) == FractionValue(b.fraction)
  {
  }

  /** A leap second lies after every instant of the second it repeats and before the next second. */
  lemma LeapSecondsLieBetween(before: Timestamp, leap: Timestamp, after: Timestamp)
    requires before.Valid() && leap.Valid() && after.Valid()
    requires !before.leap && leap.leap && !after.leap && before.second == leap.second && after.second == leap.second + 1
    ensures before.Place() < leap.Place() < after.Place()
  {
  }

}
