/** String tokens of RFC 8259 section 7: the writer's escapes and the reader's decoding. */
module JsonStrings {
  import opened Texts
  import opened Wrappers

  // ---------------------------------------------------------------- writing

  predicate IsControl(c: char) { c < ' ' }

  function HexDigit(n: nat): (c: char)
    requires n < 16
    ensures HexValue(c) == Some(n)
  {
    if n < 10 then ('0' as int + n) as char else ('a' as int + n - 10) as char
  }

  /** How the writer spells one scalar value: seven short escapes, `\u00xx` for other controls. */
  function EscapeChar(c: char): string {
    if c == '"' then "\\\""
    else if c == '\\' then "\\\\"
    else if c == 8 as char then "\\b"
    else if c == '\t' then "\\t"
    else if c == '\n' then "\\n"
    else if c == 12 as char then "\\f"
    else if c == '\r' then "\\r"
    else if IsControl(c) then "\\u00" + [HexDigit(c as int / 16), HexDigit(c as int % 16)]
    else [c]
  }

  function Escape(s: string): string {
    if s == "" then "" else EscapeChar(s[0]) + Escape(s[1..])
  }

  // ---------------------------------------------------------------- reading

  function HexValue(c: char): Option<nat> {
    if '0' <= c <= '9' then Some(c as int - '0' as int)
    else if 'a' <= c <= 'f' then Some(c as int - 'a' as int + 10)
    else if 'A' <= c <= 'F' then Some(c as int - 'A' as int + 10)
    else None
  }

  /** The code unit spelled by four hexadecimal digits at `i`. */
  function CodeUnit(s: string, i: nat): (n: Option<nat>)
    ensures n.Some? ==> n.value < 0x1_0000 && i + 4 <= |s|
  {
    if i + 4 > |s| then None
    else match (HexValue(s[i]), HexValue(s[i + 1]), HexValue(s[i + 2]), HexValue(s[i + 3]))
         case (Some(a), Some(b), Some(c), Some(d)) => HexDigitsAreSmall(s, i); Some(((a * 16 + b) * 16 + c) * 16 + d)
         case _ => None
  }

  lemma HexDigitsAreSmall(s: string, i: nat)
    requires i + 4 <= |s|
    ensures forall k :: i <= k < i + 4 && HexValue(s[k]).Some? ==> HexValue(s[k]).value < 16
  {
  }

  /** One decoded scalar value and the number of characters that spelled it. */
  datatype Decoded = Decoded(scalar: char, width: nat)

  /** `\uXXXX`; a leading surrogate needs its partner at once, a trailing one cannot stand alone. */
  function DecodeUnicode(s: string, i: nat): (d: Option<Decoded>)
    requires i + 2 <= |s|
    ensures d.Some? ==> 6 <= d.value.width <= |s| - i
  {
    match CodeUnit(s, i + 2)
    case None => None
    case Some(unit) =>
      if unit < 0xD800 || 0xE000 <= unit then Some(Decoded(unit as char, 6))
      else if unit < 0xDC00 && i + 8 <= |s| && s[i + 6] == '\\' && s[i + 7] == 'u' then
        match CodeUnit(s, i + 8)
        case None => None
        case Some(low) =>
          if 0xDC00 <= low < 0xE000 then Some(Decoded((0x1_0000 + (unit - 0xD800) * 0x400 + (low - 0xDC00)) as char, 12)) else None
      else None
  }

  /** The scalar value spelled at `i`. */
  function DecodeAt(s: string, i: nat): (d: Option<Decoded>)
    requires i < |s|
    ensures d.Some? ==> 1 <= d.value.width <= |s| - i
  {
    if s[i] == '"' || IsControl(s[i]) then None
    else if s[i] != '\\' then Some(Decoded(s[i], 1))
    else if i + 1 == |s| then None
    else if s[i + 1] == '"' || s[i + 1] == '\\' || s[i + 1] == '/' then Some(Decoded(s[i + 1], 2))
    else if s[i + 1] == 'b' then Some(Decoded(8 as char, 2))
    else if s[i + 1] == 'f' then Some(Decoded(12 as char, 2))
    else if s[i + 1] == 'n' then Some(Decoded('\n', 2))
    else if s[i + 1] == 'r' then Some(Decoded('\r', 2))
    else if s[i + 1] == 't' then Some(Decoded('\t', 2))
    else if s[i + 1] == 'u' then DecodeUnicode(s, i)
    else None
  }

  /** The scalar values spelled by `s[i..]`. */
  function UnescapeFrom(s: string, i: nat): Option<string>
    requires i <= |s|
    decreases |s| - i
  {
    if i == |s| then Some("")
    else match DecodeAt(s, i)
         case None => None
         case Some(d) =>
           match UnescapeFrom(s, i + d.width)
           case None => None
           case Some(rest) => Some([d.scalar] + rest)
  }

  function Unescape(s: string): Option<string> { UnescapeFrom(s, 0) }

  // ---------------------------------------------------------------- round trip

  lemma EscapedCharDecodes(c: char, s: string, i: nat)
    requires At(s, i, EscapeChar(c))
    ensures DecodeAt(s, i) == Some(Decoded(c, |EscapeChar(c)|))
  {
    var e := EscapeChar(c);
    assert s[i] == e[0];
    if |e| == 2 { assert s[i + 1] == e[1]; }
    if |e| == 6 { EscapedControlDecodes(c, s, i); }
  }

  lemma EscapedControlDecodes(c: char, s: string, i: nat)
    requires IsControl(c) && |EscapeChar(c)| == 6 && At(s, i, EscapeChar(c))
    ensures s[i] == '\\' && s[i + 1] == 'u' && CodeUnit(s, i + 2) == Some(c as int)
  {
    var e := EscapeChar(c);
    assert s[i] == e[0] && s[i + 1] == e[1] && s[i + 2] == e[2] && s[i + 3] == e[3] && s[i + 4] == e[4] && s[i + 5] == e[5];
  }

  lemma {:induction false} EscapedDecodes(v: string, s: string, i: nat)
    requires At(s, i, Escape(v)) && i + |Escape(v)| == |s|
    ensures UnescapeFrom(s, i) == Some(v)
    decreases |v|
  {
    if v != "" {
      var e := EscapeChar(v[0]);
      AtJoined(s, i, e, Escape(v[1..]));
      EscapedCharDecodes(v[0], s, i);
      EscapedDecodes(v[1..], s, i + |e|);
      assert v == [v[0]] + v[1..];
    }
  }

  /** The reader decodes what the writer escapes, for every sequence of scalar values. */
  lemma UnescapeEscape(v: string)
    ensures Unescape(Escape(v)) == Some(v)
  {
    EscapedDecodes(v, Escape(v), 0);
  }
}
