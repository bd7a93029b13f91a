/** Big-endian numbers and tag-length-value fields, shared by the binary forms. */
module ByteCodec {
  import opened Objects
  import opened Wrappers

  type Bytes = seq<Byte>

  const U32_LIMIT: nat := 0x1_0000_0000
  const U64_LIMIT: nat := 0x1_0000_0000_0000_0000

  // ---------------------------------------------------------------- numbers

  function BigEndian(n: nat, width: nat): (b: Bytes)
    ensures |b| == width
  {
    if width == 0 then [] else BigEndian(n / 0x100, width - 1) + [n % 0x100]
  }

  function FromBigEndian(b: Bytes): nat {
    if b == [] then 0 else 0x100 * FromBigEndian(b[..|b| - 1]) + b[|b| - 1]
  }

  function Limit(width: nat): (n: nat)
    ensures n > 0
  {
    if width == 0 then 1 else 0x100 * Limit(width - 1)
  }

  lemma {:induction false} NumberRead(n: nat, width: nat)
    requires n < Limit(width)
    ensures FromBigEndian(BigEndian(n, width)) == n
  {
    if width > 0 {
      NumberRead(n / 0x100, width - 1);
      var b := BigEndian(n, width);
      assert b[..|b| - 1] == BigEndian(n / 0x100, width - 1);
    }
  }

  lemma {:induction false} NumberWritten(b: Bytes)
    ensures FromBigEndian(b) < Limit(|b|) && BigEndian(FromBigEndian(b), |b|) == b
  {
    if b != [] {
      var front, last := b[..|b| - 1], b[|b| - 1];
      NumberWritten(front);
      DivideStep(FromBigEndian(front), last);
      assert b == front + [last];
    }
  }

  lemma DivideStep(m: nat, d: Byte)
    ensures (0x100 * m + d) / 0x100 == m && (0x100 * m + d) % 0x100 == d
  {
  }

  /** Thirty-two bits: the highest byte first. */
  lemma FourBytes(n: nat)
    requires n < U32_LIMIT
    ensures BigEndian(n, 4) == [n / 0x100_0000, n / 0x1_0000 % 0x100, n / 0x100 % 0x100, n % 0x100]
  {
    assert BigEndian(n, 4) == BigEndian(n / 0x100, 3) + [n % 0x100];
    var m := n / 0x100;
    assert BigEndian(m, 3) == BigEndian(m / 0x100, 2) + [m % 0x100];
    var k := m / 0x100;
    assert k == n / 0x1_0000;
    assert BigEndian(k, 2) == BigEndian(k / 0x100, 1) + [k % 0x100];
    assert BigEndian(k / 0x100, 1) == BigEndian(k / 0x100 / 0x100, 0) + [k / 0x100 % 0x100];
    assert k / 0x100 == n / 0x100_0000 && k / 0x100 < 0x100;
  }

  /** Sixty-four bits: the higher half first, and in each the highest byte. */
  lemma EightBytes(n: nat)
    ensures BigEndian(n, 8) == BigEndian(n / U32_LIMIT, 4) + [n / 0x100_0000 % 0x100, n / 0x1_0000 % 0x100, n / 0x100 % 0x100, n % 0x100]
  {
    var a, b, c := n / 0x100, n / 0x1_0000, n / 0x100_0000;
    assert a / 0x100 == b && b / 0x100 == c && c / 0x100 == n / U32_LIMIT;
    assert BigEndian(n, 8) == BigEndian(a, 7) + [n % 0x100];
    assert BigEndian(a, 7) == BigEndian(b, 6) + [a % 0x100];
    assert BigEndian(b, 6) == BigEndian(c, 5) + [b % 0x100];
    assert BigEndian(c, 5) == BigEndian(n / U32_LIMIT, 4) + [c % 0x100];
  }

  lemma Widths()
    ensures Limit(4) == U32_LIMIT && Limit(8) == U64_LIMIT
  {
    assert Limit(2) == 0x1_0000;
    assert Limit(5) == 0x100 * Limit(4) && Limit(6) == 0x100 * Limit(5) && Limit(7) == 0x100 * Limit(6);
  }

  /** Numbers of one width are told apart by their bytes, whatever follows. */
  lemma NumberSplits(m: nat, x: Bytes, n: nat, y: Bytes, width: nat)
    requires m < Limit(width) && n < Limit(width) && BigEndian(m, width) + x == BigEndian(n, width) + y
    ensures m == n && x == y
  {
    SameFront(BigEndian(m, width), x, BigEndian(n, width), y);
    NumberRead(m, width);
    NumberRead(n, width);
  }

  lemma SameFront<T>(a: seq<T>, x: seq<T>, b: seq<T>, y: seq<T>)
    requires |a| == |b| && a + x == b + y
    ensures a == b && x == y
  {
    assert a == (a + x)[..|a|] && b == (b + y)[..|a|];
    assert x == (a + x)[|a|..] && y == (b + y)[|a|..];
  }

  // ---------------------------------------------------------------- fields

  /** A field of an object's binary form: its tag, the length in 32 bits, the bytes. */
  function Field(tag: Byte, value: Bytes): (b: Bytes)
    ensures |b| == 5 + |value|
  {
    [tag] + BigEndian(|value| % U32_LIMIT, 4) + value
  }

  /** The tag, the length with its highest byte first, then the bytes themselves. */
  lemma FieldBytes(tag: Byte, value: Bytes)
    requires |value| < U32_LIMIT
    ensures var n := |value|;
            Field(tag, value) == [tag, n / 0x100_0000, n / 0x1_0000 % 0x100, n / 0x100 % 0x100, n % 0x100] + value
  {
    FourBytes(|value|);
  }

  datatype Taken = Taken(value: Bytes, rest: Bytes)

  /** Takes the field with this tag from the front. */
  function Take(input: Bytes, tag: Byte): Option<Taken> {
    if |input| < 5 || input[0] != tag then None
    else
      var size := FromBigEndian(input[1..5]);
      if |input| - 5 < size then None else Some(Taken(input[5..5 + size], input[5 + size..]))
  }

  lemma TakesField(tag: Byte, value: Bytes, rest: Bytes)
    requires |value| < U32_LIMIT
    ensures Take(Field(tag, value) + rest, tag) == Some(Taken(value, rest))
  {
    hide FromBigEndian, BigEndian, Limit;
    var input := Field(tag, value) + rest;
    Widths();
    NumberRead(|value|, 4);
    assert input[1..5] == BigEndian(|value|, 4);
    assert input[5..5 + |value|] == value && input[5 + |value|..] == rest;
  }

  lemma TakenIsField(input: Bytes, tag: Byte)
    requires Take(input, tag).Some?
    ensures var t := Take(input, tag).value;
            |t.value| < U32_LIMIT && input == Field(tag, t.value) + t.rest
  {
    var size := FromBigEndian(input[1..5]);
    Widths();
    NumberWritten(input[1..5]);
    assert input == [tag] + input[1..5] + input[5..5 + size] + input[5 + size..];
  }

  /** Fields are told apart by their bytes, whatever follows. */
  lemma FieldSplits(tag: Byte, a: Bytes, x: Bytes, b: Bytes, y: Bytes)
    requires |a| < U32_LIMIT && |b| < U32_LIMIT && Field(tag, a) + x == Field(tag, b) + y
    ensures a == b && x == y
  {
    TakesField(tag, a, x);
    TakesField(tag, b, y);
  }

  /** Values as fields with consecutive tags from `first` on. */
  function Fields(values: seq<Bytes>, first: nat): (b: Bytes)
    requires first + |values| <= 0x100
  {
    if values == [] then [] else Field(first, values[0]) + Fields(values[1..], first + 1)
  }

  predicate Short(values: seq<Bytes>) {
    forall i :: 0 <= i < |values| ==> |values[i]| < U32_LIMIT
  }

  lemma FieldsHead(values: seq<Bytes>, first: nat, x: Bytes)
    requires values != [] && first + |values| <= 0x100
    ensures Fields(values, first) + x == Field(first, values[0]) + (Fields(values[1..], first + 1) + x)
  {
    hide Field;
  }

  /** A list of fields determines its values. */
  lemma {:induction false} FieldsInjective(a: seq<Bytes>, b: seq<Bytes>, first: nat, x: Bytes, y: Bytes)
    requires |a| == |b| && first + |a| <= 0x100 && Short(a) && Short(b)
    requires Fields(a, first) + x == Fields(b, first) + y
    ensures a == b && x == y
  {
    hide Field;
    if a == [] {
      assert Fields(a, first) + x == x && Fields(b, first) + y == y;
    } else {
      FieldsHead(a, first, x);
      FieldsHead(b, first, y);
      FieldSplits(first, a[0], Fields(a[1..], first + 1) + x, b[0], Fields(b[1..], first + 1) + y);
      FieldsInjective(a[1..], b[1..], first + 1, x, y);
      assert a == [a[0]] + a[1..] && b == [b[0]] + b[1..];
    }
  }

  lemma {:induction false} FieldsAppend(a: seq<Bytes>, b: seq<Bytes>, first: nat)
    requires first + |a| + |b| <= 0x100
    ensures Fields(a + b, first) == Fields(a, first) + Fields(b, first + |a|)
  {
    hide Field;
    if a == [] {
      assert a + b == b;
    } else {
      FieldsAppend(a[1..], b, first + 1);
      assert (a + b)[1..] == a[1..] + b;
    }
  }

  /** The total length of fields: five bytes each and the values. */
  function Total(values: seq<Bytes>): nat {
    if values == [] then 0 else |values[0]| + Total(values[1..])
  }

  lemma {:induction false} FieldsLength(values: seq<Bytes>, first: nat)
    requires first + |values| <= 0x100
    ensures |Fields(values, first)| == 5 * |values| + Total(values)
  {
    if values != [] { FieldsLength(values[1..], first + 1); }
  }

  /** A text of ASCII characters, one byte each. */
  function Ascii(s: string): (b: Bytes)
    ensures |b| == |s|
  {
    seq(|s|, i requires 0 <= i < |s| => s[i] as int % 0x100)
  }
}
