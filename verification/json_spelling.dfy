/**
 String tokens as section 7 of RFC 8259 describes them, from the side of what is spelled: which stretches
 of a text spell a scalar value, a sequence of them, and a quoted string. The reader is proved to read
 exactly these, and the writer to choose the shortest.
 */
module JsonSpelling {
  import opened JsonGrammar
  import opened JsonStrings
  import opened JsonValues
  import opened Texts
  import opened Wrappers

  // ---------------------------------------------------------------- scalar values

  /** A hexadecimal digit of either case. */
  predicate SpellsHex(c: char, d: nat) {
    if d < 10 then c as int == '0' as int + d else c as int == 'a' as int + d - 10 || c as int == 'A' as int + d - 10
  }

  /** `\u` and the four digits of a UTF-16 code unit. */
  predicate SpellsUnit(s: string, i: nat, unit: nat) {
    && i + 6 <= |s| && s[i] == '\\' && s[i + 1] == 'u' && unit < 0x1_0000
    && SpellsHex(s[i + 2], unit / 0x1000) && SpellsHex(s[i + 3], unit / 0x100 % 16)
    && SpellsHex(s[i + 4], unit / 16 % 16) && SpellsHex(s[i + 5], unit % 16)
  }

  /** A backslash and one character. */
  predicate SpellsShort(s: string, i: nat, c: char) {
    && i + 2 <= |s| && s[i] == '\\'
    && match s[i + 1]
       case '"' => c == '"'
       case '\\' => c == '\\'
       case '/' => c == '/'
       case 'b' => c == 0x08 as char
       case 'f' => c == 0x0C as char
       case 'n' => c == 0x0A as char
       case 'r' => c == 0x0D as char
       case 't' => c == 0x09 as char
       case _ => false
  }

  /** The code units of `c`: one, or above the basic plane a leading and a trailing surrogate. */
  predicate SpellsUnits(s: string, i: nat, j: nat, c: char) {
    var n := c as int;
    if n < 0x1_0000 then j == i + 6 && SpellsUnit(s, i, n)
    else j == i + 12 && SpellsUnit(s, i, 0xD800 + (n - 0x1_0000) / 0x400) && SpellsUnit(s, i + 6, 0xDC00 + (n - 0x1_0000) % 0x400)
  }

  /** `s[i..j]` spells the scalar value: as it is, by a short escape, or by its code units. */
  predicate Spells(s: string, i: nat, j: nat, c: char) {
    || (j == i + 1 && i < |s| && s[i] == c && 0x20 <= c as int && c != '"' && c != '\\')
    || (j == i + 2 && SpellsShort(s, i, c))
    || SpellsUnits(s, i, j, c)
  }

  lemma HexExactly(c: char, d: nat)
    requires d < 16
    ensures HexValue(c) == Some(d) <==> SpellsHex(c, d)
  {
  }

  /** Four hexadecimal digits and the number they write determine each other. */
  lemma FourDigits(unit: nat, a: nat, b: nat, c: nat, d: nat)
    requires unit < 0x1_0000 && a < 16 && b < 16 && c < 16 && d < 16
    ensures unit == ((a * 16 + b) * 16 + c) * 16 + d <==>
              a == unit / 0x1000 && b == unit / 0x100 % 16 && c == unit / 16 % 16 && d == unit % 16
  {
    var x, y, z := unit / 16, unit / 0x100, unit / 0x1000;
    assert y == x / 16 && z == y / 16;
  }

  lemma UnitExactly(s: string, i: nat, unit: nat)
    requires unit < 0x1_0000 && i + 2 <= |s| && s[i] == '\\' && s[i + 1] == 'u'
    ensures CodeUnit(s, i + 2) == Some(unit) <==> SpellsUnit(s, i, unit)
  {
    hide HexValue, SpellsHex;
    if i + 6 <= |s| {
      UnitDigits(s, i, unit);
      HexDigitsAreSmall(s, i + 2);
      match (HexValue(s[i + 2]), HexValue(s[i + 3]), HexValue(s[i + 4]), HexValue(s[i + 5])) {
        case (Some(a), Some(b), Some(c), Some(d)) => FourDigits(unit, a, b, c, d);
        case _ =>
      }
    }
  }

  lemma UnitDigits(s: string, i: nat, unit: nat)
    requires unit < 0x1_0000 && i + 6 <= |s| && s[i] == '\\' && s[i + 1] == 'u'
    ensures SpellsUnit(s, i, unit) <==>
              && HexValue(s[i + 2]) == Some(unit / 0x1000) && HexValue(s[i + 3]) == Some(unit / 0x100 % 16)
              && HexValue(s[i + 4]) == Some(unit / 16 % 16) && HexValue(s[i + 5]) == Some(unit % 16)
  {
    hide HexValue, SpellsHex;
    HexExactly(s[i + 2], unit / 0x1000);
    HexExactly(s[i + 3], unit / 0x100 % 16);
    HexExactly(s[i + 4], unit / 16 % 16);
    HexExactly(s[i + 5], unit % 16);
  }

  /** A pair of surrogates and the scalar value above the basic plane determine each other. */
  lemma PairExactly(n: nat, unit: nat, low: nat)
    requires 0xD800 <= unit < 0xDC00 && 0xDC00 <= low < 0xE000
    ensures n == 0x1_0000 + (unit - 0xD800) * 0x400 + (low - 0xDC00) <==>
              n >= 0x1_0000 && unit == 0xD800 + (n - 0x1_0000) / 0x400 && low == 0xDC00 + (n - 0x1_0000) % 0x400
  {
  }

  /** The reader of `\u` finds exactly the scalar value whose code units are spelled there. */
  lemma UnicodeExactly(s: string, i: nat, c: char, w: nat)
    requires i + 2 <= |s| && s[i] == '\\' && s[i + 1] == 'u'
    ensures DecodeUnicode(s, i) == Some(Decoded(c, w)) <==> SpellsUnits(s, i, i + w, c)
  {
    hide CodeUnit, SpellsUnit;
    var n := c as int;
    if n < 0x1_0000 {
      UnitExactly(s, i, n);
      UnitsAreOne(s, i);
    } else {
      var high, low := 0xD800 + (n - 0x1_0000) / 0x400, 0xDC00 + (n - 0x1_0000) % 0x400;
      UnitExactly(s, i, high);
      if i + 8 <= |s| && s[i + 6] == '\\' && s[i + 7] == 'u' {
        UnitExactly(s, i + 6, low);
        match (CodeUnit(s, i + 2), CodeUnit(s, i + 8)) {
          case (Some(a), Some(b)) =>
            if 0xD800 <= a < 0xDC00 && 0xDC00 <= b < 0xE000 { PairExactly(n, a, b); }
          case _ =>
        }
      } else {
        NoUnit(s, i + 6, low);
      }
    }
  }

  /** One code unit never names a value above the basic plane, and two never one in it. */
  lemma UnitsAreOne(s: string, i: nat)
    requires i + 2 <= |s|
    ensures DecodeUnicode(s, i).Some? ==>
              var d := DecodeUnicode(s, i).value;
              if d.width == 6 then CodeUnit(s, i + 2) == Some(d.scalar as int) else d.width == 12 && d.scalar as int >= 0x1_0000
    ensures forall u: nat :: CodeUnit(s, i + 2) == Some(u) && (u < 0xD800 || 0xE000 <= u) ==>
              DecodeUnicode(s, i) == Some(Decoded(u as char, 6))
  {
    hide CodeUnit;
  }

  lemma NoUnit(s: string, i: nat, unit: nat)
    requires !(i + 2 <= |s| && s[i] == '\\' && s[i + 1] == 'u')
    ensures !SpellsUnit(s, i, unit)
  {
  }

  /** The reader finds a scalar value exactly where it is spelled, and takes exactly its spelling. */
  lemma DecodeExactly(s: string, i: nat, c: char, w: nat)
    requires i < |s|
    ensures DecodeAt(s, i) == Some(Decoded(c, w)) <==> Spells(s, i, i + w, c)
  {
    hide DecodeUnicode, SpellsUnits;
    if i + 2 <= |s| && s[i] == '\\' && s[i + 1] == 'u' {
      UnicodeExactly(s, i, c, w);
    } else {
      NoUnits(s, i, i + w, c);
    }
  }

  lemma NoUnits(s: string, i: nat, j: nat, c: char)
    requires !(i + 2 <= |s| && s[i] == '\\' && s[i + 1] == 'u')
    ensures !SpellsUnits(s, i, j, c)
  {
  }

  // ---------------------------------------------------------------- sequences of scalar values

  /** `s[i..j]` spells the scalar values of `text`, one after another. */
  ghost predicate SpellsText(s: string, i: nat, j: nat, text: string)
    decreases |text|
  {
    if text == "" then i == j
    else exists n: nat :: SpellsFirst(s, i, n, j, text[0]) && SpellsText(s, n, j, text[1..])
  }

  predicate SpellsFirst(s: string, i: nat, n: nat, j: nat, c: char) {
    i < n <= j && Spells(s, i, n, c)
  }

  /** `t` is decoded to `text` exactly when it spells it from beginning to end. */
  lemma {:induction false} UnescapeExactly(t: string, i: nat, text: string)
    requires i <= |t|
    ensures UnescapeFrom(t, i) == Some(text) <==> SpellsText(t, i, |t|, text)
    decreases |t| - i
  {
    hide Spells, DecodeAt;
    if UnescapeFrom(t, i) == Some(text) && i < |t| {
      var d := DecodeAt(t, i).value;
      DecodeExactly(t, i, d.scalar, d.width);
      UnescapeExactly(t, i + d.width, text[1..]);
      assert SpellsFirst(t, i, i + d.width, |t|, text[0]);
    }
    if SpellsText(t, i, |t|, text) && text != "" {
      var n: nat :| SpellsFirst(t, i, n, |t|, text[0]) && SpellsText(t, n, |t|, text[1..]);
      DecodeExactly(t, i, text[0], n - i);
      UnescapeExactly(t, n, text[1..]);
      assert text == [text[0]] + text[1..];
    }
  }

  /** The spelling of a sequence is found at every place its text stands. */
  lemma {:induction false} SpellsAnywhere(s: string, t: string, at: nat, i: nat, j: nat, text: string)
    requires At(s, at, t) && i <= j <= |t|
    ensures SpellsText(s, at + i, at + j, text) <==> SpellsText(t, i, j, text)
    decreases |text|
  {
    hide Spells;
    var start, end := at + i, at + j;
    if text != "" {
      if n: nat :| SpellsFirst(t, i, n, j, text[0]) && SpellsText(t, n, j, text[1..]) {
        SpellsElsewhere(s, t, at, i, n, text[0]);
        SpellsAnywhere(s, t, at, n, j, text[1..]);
        assert SpellsFirst(s, start, at + n, end, text[0]);
      }
      if m: nat :| SpellsFirst(s, start, m, end, text[0]) && SpellsText(s, m, end, text[1..]) {
        SpellsElsewhere(s, t, at, i, m - at, text[0]);
        SpellsAnywhere(s, t, at, m - at, j, text[1..]);
        assert SpellsFirst(t, i, m - at, j, text[0]);
      }
    }
  }

  lemma SpellsElsewhere(s: string, t: string, at: nat, i: nat, n: nat, c: char)
    requires At(s, at, t) && i < n <= |t|
    ensures Spells(s, at + i, at + n, c) <==> Spells(t, i, n, c)
  {
    hide SpellsHex;
    assert t[i] == s[at + i];
    if n == i + 6 || n == i + 12 { UnitElsewhere(s, t, at, i); }
    if n == i + 12 { UnitElsewhere(s, t, at, i + 6); }
  }

  lemma UnitElsewhere(s: string, t: string, at: nat, i: nat)
    requires At(s, at, t) && i + 6 <= |t|
    ensures forall unit :: SpellsUnit(s, at + i, unit) <==> SpellsUnit(t, i, unit)
  {
    hide SpellsHex;
    assert forall k :: i <= k < i + 6 ==> t[k] == s[at + k];
  }

  // ---------------------------------------------------------------- quoted strings

  /** `s[i..j]` is a quoted string of these scalar values. */
  ghost predicate SpellsString(s: string, i: nat, j: nat, text: string) {
    i + 2 <= j <= |s| && s[i] == '"' && s[j - 1] == '"' && SpellsText(s, i + 1, j - 1, text)
  }

  lemma {:induction false} ScanStops(s: string, i: nat)
    requires i <= |s| && ScanString(s, i).Success?
    ensures s[ScanString(s, i).value] == '"'
    decreases |s| - i
  {
    if s[i] == '\\' { ScanStops(s, i + 2); } else if s[i] != '"' { ScanStops(s, i + 1); }
  }

  /** Looking for the closing quote passes over every spelling. */
  lemma {:induction false} ScanSpelled(s: string, i: nat, j: nat, text: string)
    requires i <= j < |s| && s[j] == '"' && SpellsText(s, i, j, text)
    ensures ScanString(s, i) == Success(j)
    decreases |text|
  {
    hide Spells;
    if text != "" {
      var n: nat :| SpellsFirst(s, i, n, j, text[0]) && SpellsText(s, n, j, text[1..]);
      ScanOne(s, i, n, text[0]);
      ScanSpelled(s, n, j, text[1..]);
    }
  }

  lemma ScanOne(s: string, i: nat, n: nat, c: char)
    requires i < n < |s| && Spells(s, i, n, c)
    ensures ScanString(s, i) == ScanString(s, n)
  {
    hide SpellsHex;
    if n == i + 6 { ScanUnit(s, i, c as int); }
    if n == i + 12 {
      ScanUnit(s, i, 0xD800 + (c as int - 0x1_0000) / 0x400);
      ScanUnit(s, i + 6, 0xDC00 + (c as int - 0x1_0000) % 0x400);
    }
  }

  lemma ScanUnit(s: string, i: nat, unit: nat)
    requires SpellsUnit(s, i, unit)
    ensures ScanString(s, i) == ScanString(s, i + 6)
  {
    SkipPlain(s, i + 2, 4);
  }

  lemma {:induction false} SkipPlain(s: string, i: nat, n: nat)
    requires i + n <= |s| && forall k :: i <= k < i + n ==> s[k] != '"' && s[k] != '\\' && !IsControl(s[k])
    ensures ScanString(s, i) == ScanString(s, i + n)
    decreases n
  {
    if n > 0 { SkipPlain(s, i + 1, n - 1); }
  }

  /** The parser reads a string exactly where one is spelled, up to its end and no further. */
  lemma ReadStringExactly(s: string, i: nat, j: nat, text: string)
    requires Stands(s, i, '"')
    ensures ReadString(s, i) == Success(Parsed(text, j)) <==> SpellsString(s, i, j, text)
  {
    hide Spells, SpellsText;
    if ReadString(s, i) == Success(Parsed(text, j)) {
      ScanStops(s, i + 1);
      ContentExactly(s, i, j, text);
    }
    if SpellsString(s, i, j, text) {
      ScanSpelled(s, i + 1, j - 1, text);
      ContentExactly(s, i, j, text);
    }
  }

  lemma ContentExactly(s: string, i: nat, j: nat, text: string)
    requires i + 2 <= j <= |s|
    ensures Unescape(s[i + 1..j - 1]) == Some(text) <==> SpellsText(s, i + 1, j - 1, text)
  {
    hide SpellsText;
    var t := s[i + 1..j - 1];
    UnescapeExactly(t, 0, text);
    SpellsAnywhere(s, t, i + 1, 0, |t|, text);
  }

  // ---------------------------------------------------------------- the writer

  /** The writer's spelling is one of the value's, none is shorter, and its hexadecimal digits are lower case. */
  lemma EscapeIsShortest(c: char, s: string, i: nat)
    ensures At(s, i, EscapeChar(c)) ==> Spells(s, i, i + |EscapeChar(c)|, c)
    ensures forall j: nat :: Spells(s, i, j, c) ==> i + |EscapeChar(c)| <= j
    ensures |EscapeChar(c)| == 6 ==> forall k :: 2 <= k < 6 ==> !('A' <= EscapeChar(c)[k] <= 'F')
  {
    var e := EscapeChar(c);
    if At(s, i, e) {
      assert s[i] == e[0];
      if |e| >= 2 { assert s[i + 1] == e[1]; }
      if |e| == 6 { assert s[i + 2] == e[2] && s[i + 3] == e[3] && s[i + 4] == e[4] && s[i + 5] == e[5]; }
    }
  }

  lemma {:induction false} EscapeSpells(s: string, i: nat, text: string)
    requires At(s, i, Escape(text))
    ensures SpellsText(s, i, i + |Escape(text)|, text)
    decreases |text|
  {
    hide EscapeChar, Spells;
    if text != "" {
      var e := EscapeChar(text[0]);
      AtJoined(s, i, e, Escape(text[1..]));
      EscapeIsShortest(text[0], s, i);
      EscapeNotEmpty(text[0]);
      EscapeSpells(s, i + |e|, text[1..]);
      assert SpellsFirst(s, i, i + |e|, i + |Escape(text)|, text[0]);
    }
  }

  lemma EscapeNotEmpty(c: char)
    ensures EscapeChar(c) != ""
  {
  }

  lemma {:induction false} EscapesAreShortest(s: string, i: nat, j: nat, text: string)
    requires SpellsText(s, i, j, text)
    ensures i + |Escape(text)| <= j
    decreases |text|
  {
    hide EscapeChar, Spells;
    if text != "" {
      var n: nat :| SpellsFirst(s, i, n, j, text[0]) && SpellsText(s, n, j, text[1..]);
      EscapeIsShortest(text[0], s, i);
      EscapesAreShortest(s, n, j, text[1..]);
    }
  }

  lemma QuotedSpells(s: string, i: nat, text: string)
    requires At(s, i, Quoted(text))
    ensures SpellsString(s, i, i + |Quoted(text)|, text)
  {
    hide Escape, SpellsText;
    AtJoined3(s, i, "\"", Escape(text), "\"");
    assert s[i] == "\""[0] && s[i + 1 + |Escape(text)|] == "\""[0];
    EscapeSpells(s, i + 1, text);
  }
}
