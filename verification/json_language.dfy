/**
 The language of RFC 8259 as a relation between stretches of a text and values: whitespace around the
 structural characters, items and members separated by commas, keys before colons. The parser is proved
 to accept exactly the texts of this language whose keys are distinct and whose nesting is not too deep.
 */
module JsonLanguage {
  import opened DecimalNumbers
  import opened JsonGrammar
  import opened JsonSpelling
  import opened JsonStrings
  import opened JsonValues
  import opened Texts
  import opened Wrappers

  // ---------------------------------------------------------------- the language

  predicate White(s: string, i: nat, j: nat) {
    i <= j <= |s| && forall k :: i <= k < j ==> s[k] == ' ' || s[k] == '\n' || s[k] == '\r' || s[k] == '\t'
  }

  /** `s[i..j]` is a text of the value, without whitespace around it. */
  ghost predicate IsText(s: string, i: nat, j: nat, v: Value)
    decreases v, 0
  {
    match v
    case Boolean(truth) => var word := if truth then "true" else "false"; At(s, i, word) && j == i + |word|
    case Number(token) => At(s, i, token) && j == i + |token| && IsNumber(token)
    case Text(text) => SpellsString(s, i, j, text)
    case Array(items) => i + 2 <= j <= |s| && s[i] == '[' && s[j - 1] == ']' && AreItems(s, i + 1, j - 1, items)
    case Object(members) => i + 2 <= j <= |s| && s[i] == '{' && s[j - 1] == '}' && AreMembers(s, i + 1, j - 1, members)
  }

  predicate Around(s: string, i: nat, a: nat, b: nat, j: nat) { a <= b && White(s, i, a) && White(s, b, j) }

  /** `s[i..j]` is a text of the value with any whitespace around it. */
  ghost predicate Padded(s: string, i: nat, j: nat, v: Value)
    decreases v, 1
  {
    exists a: nat, b: nat :: Around(s, i, a, b, j) && IsText(s, a, b, v)
  }

  predicate Comma(s: string, i: nat, n: nat, j: nat) { i <= n < j <= |s| && s[n] == ',' }

  ghost predicate AreItems(s: string, i: nat, j: nat, items: seq<Value>)
    decreases items, 2
  {
    if items == [] then White(s, i, j)
    else if |items| == 1 then Padded(s, i, j, items[0])
    else exists n: nat :: Comma(s, i, n, j) && Padded(s, i, n, items[0]) && AreItems(s, n + 1, j, items[1..])
  }

  predicate KeyAt(s: string, i: nat, a: nat, b: nat, n: nat, j: nat) {
    a <= b && White(s, i, a) && White(s, b, n) && n < j <= |s| && s[n] == ':'
  }

  ghost predicate IsMember(s: string, i: nat, j: nat, m: Member)
    decreases m, 2
  {
    exists a: nat, b: nat, n: nat :: KeyAt(s, i, a, b, n, j) && SpellsString(s, a, b, m.key) && Padded(s, n + 1, j, m.value)
  }

  ghost predicate AreMembers(s: string, i: nat, j: nat, members: seq<Member>)
    decreases members, 3
  {
    if members == [] then White(s, i, j)
    else if |members| == 1 then IsMember(s, i, j, members[0])
    else exists n: nat :: Comma(s, i, n, j) && IsMember(s, i, n, members[0]) && AreMembers(s, n + 1, j, members[1..])
  }

  // ---------------------------------------------------------------- nesting

  /** Inside the value, or as the value itself, something stands within `n` containers. */
  ghost predicate Reaches(v: Value, n: nat) {
    n == 0
    || match v
       case Array(items) => exists k :: 0 <= k < |items| && Reaches(items[k], n - 1)
       case Object(members) => exists k :: 0 <= k < |members| && Reaches(members[k].value, n - 1)
       case _ => false
  }

  /** The limit admits exactly what never stands within 129 containers, wherever the value itself stands. */
  lemma {:induction false} WithinExactly(v: Value, depth: nat)
    requires depth <= 128
    ensures Within(v, depth) <==> !Reaches(v, 129 - depth)
    decreases v
  {
    match v
    case Array(items) =>
      forall k | 0 <= k < |items| ensures Within(items[k], depth + 1) <==> !Reaches(items[k], 128 - depth) {
        if depth < 128 { WithinExactly(items[k], depth + 1); }
      }
    case Object(members) =>
      forall k | 0 <= k < |members| ensures Within(members[k].value, depth + 1) <==> !Reaches(members[k].value, 128 - depth) {
        if depth < 128 { WithinExactly(members[k].value, depth + 1); }
      }
    case _ =>
  }

  // ---------------------------------------------------------------- whitespace and tokens

  lemma {:induction false} SkipsWhite(s: string, i: nat, j: nat)
    requires White(s, i, j) && (j < |s| ==> !IsSpace(s[j]))
    ensures SkipSpace(s, i) == j
    decreases j - i
  {
    if i < j { SkipsWhite(s, i + 1, j); }
  }

  lemma {:induction false} SkippedIsWhite(s: string, i: nat)
    requires i <= |s|
    ensures White(s, i, SkipSpace(s, i)) && (SkipSpace(s, i) < |s| ==> !IsSpace(s[SkipSpace(s, i)]))
    decreases |s| - i
  {
    if i < |s| && IsSpace(s[i]) { SkippedIsWhite(s, i + 1); }
  }

  predicate NumberChar(c: char) { IsDigit(c) || c == '-' || c == '+' || c == '.' || c == 'e' || c == 'E' }

  lemma NumberChars(token: string)
    requires IsNumber(token)
    ensures token != "" && (token[0] == '-' || IsDigit(token[0]))
    ensures forall k :: 0 <= k < |token| ==> NumberChar(token[k])
  {
    var p := Split(token);
    UnsignedChars(p);
    assert token == p.Text();
    if p.negative {
      assert forall k :: 0 < k < |token| ==> token[k] == p.Unsigned()[k - 1];
    } else {
      assert p.Unsigned()[0] == p.integer[0];
    }
  }

  lemma UnsignedChars(p: Parts)
    requires p.WellFormed()
    ensures forall k :: 0 <= k < |p.Unsigned()| ==> NumberChar(p.Unsigned()[k])
  {
    ExponentChars(p);
    assert forall k :: 0 <= k < |p.fraction| ==> NumberChar(p.fraction[k]) by {
      assert forall k :: 0 < k < |p.fraction| ==> p.fraction[k] == p.fraction[1..][k - 1];
    }
  }

  lemma ExponentChars(p: Parts)
    requires p.WellFormed()
    ensures forall k :: 0 <= k < |p.exponent| ==> NumberChar(p.exponent[k])
  {
    var d := p.ExponentDigits();
    var n := |p.exponent| - |d|;
    assert forall k :: n <= k < |p.exponent| ==> p.exponent[k] == d[k - n];
  }

  lemma {:induction false} NumberEndIs(s: string, i: nat, end: nat)
    requires i <= end <= |s| && Ends(s, end) && forall k :: i <= k < end ==> !IsBoundary(s[k])
    ensures NumberEnd(s, i) == end
    decreases end - i
  {
    if i < end { NumberEndIs(s, i + 1, end); }
  }

  lemma ReadsNumber(s: string, i: nat, token: string)
    requires IsNumber(token) && At(s, i, token) && Ends(s, i + |token|)
    ensures ReadNumber(s, i) == Success(Parsed(Number(token), i + |token|))
  {
    hide IsNumber;
    NumberChars(token);
    assert s[i..i + |token|] == token;
    forall k | i <= k < i + |token| ensures !IsBoundary(s[k]) { assert s[k] == token[k - i]; }
    NumberEndIs(s, i, i + |token|);
  }

  /** What a text of a value can begin with. */
  lemma TextStarts(s: string, i: nat, j: nat, v: Value)
    requires IsText(s, i, j, v)
    ensures i < j <= |s| && !IsSpace(s[i]) && s[i] != ']' && s[i] != '}'
    ensures match v
            case Boolean(truth) => s[i] == if truth then 't' else 'f'
            case Number(_) => s[i] == '-' || IsDigit(s[i])
            case Text(_) => s[i] == '"'
            case Array(_) => s[i] == '['
            case Object(_) => s[i] == '{'
  {
    hide AreItems, AreMembers, SpellsText;
    match v
    case Number(token) => NumberChars(token); assert s[i] == token[0];
    case Boolean(truth) => assert s[i] == (if truth then "true" else "false")[0];
    case _ =>
  }

  // ---------------------------------------------------------------- every text is read

  /** A text of a value, behind any whitespace and before a boundary, is read as that value up to its end. */
  lemma {:induction false} ReadsText(s: string, i: nat, a: nat, j: nat, v: Value, depth: nat)
    requires White(s, i, a) && IsText(s, a, j, v) && Ends(s, j) && WellFormed(v) && Within(v, depth)
    ensures ReadValue(s, i, depth) == Success(Parsed(v, j))
    decreases v, 0
  {
    hide ReadValue, ReadItems, ReadMembers, AreItems, AreMembers, SpellsString, White, At, SkipSpace, IsNumber, IsSpace;
    SkipsToText(s, i, a, j, v, depth);
    match v
    case Boolean(truth) => ReadsBoolean(s, a, truth, depth);
    case Number(token) => ReadsToken(s, a, token, depth);
    case Text(text) => ReadsString(s, a, j, text, depth);
    case Array(items) => ReadsArray(s, a, j, items, depth);
    case Object(members) => ReadsObject(s, a, j, members, depth);
  }

  lemma SkipsToText(s: string, i: nat, a: nat, j: nat, v: Value, depth: nat)
    requires White(s, i, a) && IsText(s, a, j, v)
    ensures i <= a < j <= |s| && ReadValue(s, i, depth) == ReadValue(s, a, depth)
  {
    hide ReadValue, IsText;
    TextStarts(s, a, j, v);
    SkipsWhite(s, i, a);
    ValueAfterSpace(s, i, depth);
  }

  lemma ValueAfterSpace(s: string, i: nat, depth: nat)
    requires i <= |s|
    ensures ReadValue(s, i, depth) == ReadValue(s, SkipSpace(s, i), depth)
  {
    hide ReadItems, ReadMembers;
    SkippedIsWhite(s, i);
    SkipsWhite(s, SkipSpace(s, i), SkipSpace(s, i));
  }

  lemma ReadsBoolean(s: string, i: nat, truth: bool, depth: nat)
    requires var word := if truth then "true" else "false"; At(s, i, word) && Ends(s, i + |word|)
    requires depth <= MAX_NESTING_DEPTH
    ensures ReadValue(s, i, depth) == Success(Parsed(Boolean(truth), i + if truth then 4 else 5))
  {
    var word, value := if truth then "true" else "false", Boolean(truth);
    assert s[i] == word[0] && SkipSpace(s, i) == i;
    assert ReadLiteral(s, i, word, value) == Success(Parsed(value, i + |word|));
    hide ReadItems, ReadMembers, ReadString, ReadNumber, ReadNull, ReadLiteral, IsDigit, SkipSpace, At;
  }

  lemma ReadsToken(s: string, i: nat, token: string, depth: nat)
    requires depth <= MAX_NESTING_DEPTH && IsNumber(token) && At(s, i, token) && Ends(s, i + |token|)
    ensures ReadValue(s, i, depth) == Success(Parsed(Number(token), i + |token|))
  {
    hide ReadItems, ReadMembers, ReadNumber, ReadString, IsNumber;
    NumberChars(token);
    assert s[i] == token[0];
    ReadsNumber(s, i, token);
  }

  lemma ReadsString(s: string, i: nat, j: nat, text: string, depth: nat)
    requires depth <= MAX_NESTING_DEPTH && SpellsString(s, i, j, text)
    ensures ReadValue(s, i, depth) == Success(Parsed(Text(text), j))
  {
    hide ReadItems, ReadMembers, ReadString, SpellsText;
    ReadStringExactly(s, i, j, text);
  }

  /** The whitespace before a value may be skipped first. */
  lemma SkipBefore(s: string, i: nat, j: nat, v: Value)
    requires Padded(s, i, j, v)
    ensures i <= SkipSpace(s, i) < j <= |s| && Padded(s, SkipSpace(s, i), j, v)
    ensures var c := s[SkipSpace(s, i)]; !IsSpace(c) && c != ']' && c != '}'
  {
    hide IsText;
    var a: nat, b: nat :| Around(s, i, a, b, j) && IsText(s, a, b, v);
    TextStarts(s, a, b, v);
    SkipsWhite(s, i, a);
    assert Around(s, a, a, b, j);
  }

  /** A padded value before a structural character is read, and only whitespace is left before that. */
  lemma {:induction false} ReadsPadded(s: string, i: nat, j: nat, v: Value, depth: nat) returns (next: nat)
    requires Padded(s, i, j, v) && j < |s| && (s[j] == ',' || s[j] == ']' || s[j] == '}')
    requires WellFormed(v) && Within(v, depth)
    ensures ReadValue(s, i, depth) == Success(Parsed(v, next)) && next <= j && SkipSpace(s, next) == j
    decreases v, 1
  {
    hide IsText, ReadValue;
    var a: nat, b: nat :| Around(s, i, a, b, j) && IsText(s, a, b, v);
    assert Ends(s, b);
    ReadsText(s, i, a, b, v, depth);
    SkipsWhite(s, b, j);
    next := b;
  }

  // Arrays.

  lemma OpensArray(s: string, i: nat, depth: nat)
    requires depth <= MAX_NESTING_DEPTH && Stands(s, i, '[')
    ensures var k := SkipSpace(s, i + 1);
            ReadValue(s, i, depth) == if Stands(s, k, ']') then Success(Parsed(Array([]), k + 1)) else ReadItems(s, k, depth, [])
  {
    hide ReadItems, ReadMembers;
  }

  lemma ItemRead(s: string, i: nat, depth: nat, read: seq<Value>, v: Value, next: nat)
    requires i <= |s| && depth <= MAX_NESTING_DEPTH && GoodItems(read, depth + 1)
    requires ReadValue(s, i, depth + 1) == Success(Parsed(v, next)) && next <= |s|
    ensures GoodItems(read + [v], depth + 1)
    ensures var j := SkipSpace(s, next);
            ReadItems(s, i, depth, read) ==
              if Stands(s, j, ']') then Success(Parsed(Array(read + [v]), j + 1))
              else if Stands(s, j, ',') then ReadItems(s, j + 1, depth, read + [v])
              else Failure(Syntax)
  {
    hide WellFormed, Within, ReadValue, ReadMembers;
  }

  lemma {:induction false} ReadsArray(s: string, i: nat, j: nat, items: seq<Value>, depth: nat)
    requires depth <= MAX_NESTING_DEPTH && GoodItems(items, depth + 1) && IsText(s, i, j, Array(items))
    ensures ReadValue(s, i, depth) == Success(Parsed(Array(items), j))
    decreases items, 3
  {
    hide ReadValue, ReadItems, ReadMembers, Padded;
    OpensArray(s, i, depth);
    if items == [] {
      SkipsWhite(s, i + 1, j - 1);
    } else {
      ItemsAfterSpace(s, i + 1, j - 1, items);
      ReadsItems(s, SkipSpace(s, i + 1), j - 1, items, depth, []);
      assert [] + items == items;
    }
  }

  lemma ItemsAfterSpace(s: string, i: nat, j: nat, items: seq<Value>)
    requires i <= |s| && items != [] && AreItems(s, i, j, items)
    ensures i <= SkipSpace(s, i) < |s| && s[SkipSpace(s, i)] != ']' && AreItems(s, SkipSpace(s, i), j, items)
  {
    hide Padded;
    if |items| == 1 {
      SkipBefore(s, i, j, items[0]);
    } else {
      var n: nat :| Comma(s, i, n, j) && Padded(s, i, n, items[0]) && AreItems(s, n + 1, j, items[1..]);
      SkipBefore(s, i, n, items[0]);
      assert Comma(s, SkipSpace(s, i), n, j);
    }
  }

  lemma {:induction false} ReadsItems(s: string, i: nat, j: nat, items: seq<Value>, depth: nat, read: seq<Value>)
    requires items != [] && depth <= MAX_NESTING_DEPTH && GoodItems(items, depth + 1) && GoodItems(read, depth + 1)
    requires i <= |s| && AreItems(s, i, j, items) && Stands(s, j, ']')
    ensures ReadItems(s, i, depth, read) == Success(Parsed(Array(read + items), j + 1))
    decreases items, 2
  {
    hide ReadValue, ReadItems, ReadMembers, WellFormed, Within, Padded;
    if |items| == 1 {
      var next := ReadsPadded(s, i, j, items[0], depth + 1);
      ItemRead(s, i, depth, read, items[0], next);
      assert read + [items[0]] == read + items;
    } else {
      var n: nat :| Comma(s, i, n, j) && Padded(s, i, n, items[0]) && AreItems(s, n + 1, j, items[1..]);
      var next := ReadsPadded(s, i, n, items[0], depth + 1);
      ItemRead(s, i, depth, read, items[0], next);
      ReadsItems(s, n + 1, j, items[1..], depth, read + [items[0]]);
      assert read + [items[0]] + items[1..] == read + items;
    }
  }

  // Objects.

  lemma OpensObject(s: string, i: nat, depth: nat)
    requires depth <= MAX_NESTING_DEPTH && Stands(s, i, '{')
    ensures var k := SkipSpace(s, i + 1);
            ReadValue(s, i, depth) == if Stands(s, k, '}') then Success(Parsed(Object([]), k + 1)) else ReadMembers(s, k, depth, [])
  {
    hide ReadItems, ReadMembers;
  }

  lemma MemberRead(s: string, i: nat, depth: nat, read: seq<Member>, m: Member, colon: nat, next: nat)
    requires i <= |s| && depth <= MAX_NESTING_DEPTH && GoodMembers(read, depth + 1) && colon < |s| && next <= |s|
    requires ReadKey(s, i, read) == Success(Parsed(m.key, colon + 1))
    requires ReadValue(s, colon + 1, depth + 1) == Success(Parsed(m.value, next))
    ensures GoodMembers(read + [m], depth + 1)
    ensures var j := SkipSpace(s, next);
            ReadMembers(s, i, depth, read) ==
              if Stands(s, j, '}') then Success(Parsed(Object(read + [m]), j + 1))
              else if Stands(s, j, ',') then ReadMembers(s, j + 1, depth, read + [m])
              else Failure(Syntax)
  {
    hide WellFormed, Within, ReadValue, ReadItems, ReadKey;
    assert m == Member(m.key, m.value);
  }

  /** A key is read where one is spelled, with its colon, if it was not read before. */
  lemma ReadsKey(s: string, i: nat, a: nat, b: nat, n: nat, j: nat, read: seq<Member>, key: string)
    requires KeyAt(s, i, a, b, n, j) && SpellsString(s, a, b, key) && !HasKey(read, key)
    ensures ReadKey(s, i, read) == Success(Parsed(key, n + 1))
  {
    hide ReadString, SpellsText;
    SkipsWhite(s, i, a);
    ReadStringExactly(s, a, b, key);
    SkipsWhite(s, b, n);
  }

  lemma {:induction false} ReadsObject(s: string, i: nat, j: nat, members: seq<Member>, depth: nat)
    requires depth <= MAX_NESTING_DEPTH && GoodMembers(members, depth + 1) && IsText(s, i, j, Object(members))
    ensures ReadValue(s, i, depth) == Success(Parsed(Object(members), j))
    decreases members, 5
  {
    hide ReadValue, ReadItems, ReadMembers, IsMember;
    OpensObject(s, i, depth);
    if members == [] {
      SkipsWhite(s, i + 1, j - 1);
    } else {
      MembersAfterSpace(s, i + 1, j - 1, members);
      assert [] + members == members;
      ReadsMembers(s, SkipSpace(s, i + 1), j - 1, members, depth, []);
    }
  }

  lemma MemberAfterSpace(s: string, i: nat, j: nat, m: Member)
    requires IsMember(s, i, j, m)
    ensures i <= SkipSpace(s, i) < j <= |s| && s[SkipSpace(s, i)] == '"' && IsMember(s, SkipSpace(s, i), j, m)
  {
    hide Padded, SpellsText;
    var a: nat, b: nat, n: nat :| KeyAt(s, i, a, b, n, j) && SpellsString(s, a, b, m.key) && Padded(s, n + 1, j, m.value);
    SkipsWhite(s, i, a);
    assert KeyAt(s, a, a, b, n, j);
  }

  lemma MembersAfterSpace(s: string, i: nat, j: nat, members: seq<Member>)
    requires i <= |s| && members != [] && AreMembers(s, i, j, members)
    ensures i <= SkipSpace(s, i) < |s| && s[SkipSpace(s, i)] != '}' && AreMembers(s, SkipSpace(s, i), j, members)
  {
    hide IsMember;
    if |members| == 1 {
      MemberAfterSpace(s, i, j, members[0]);
    } else {
      var n: nat :| Comma(s, i, n, j) && IsMember(s, i, n, members[0]) && AreMembers(s, n + 1, j, members[1..]);
      MemberAfterSpace(s, i, n, members[0]);
      assert Comma(s, SkipSpace(s, i), n, j);
    }
  }

  lemma {:induction false} ReadsMember(s: string, i: nat, j: nat, m: Member, depth: nat, read: seq<Member>)
    returns (colon: nat, next: nat)
    requires i <= |s| && IsMember(s, i, j, m) && j < |s| && (s[j] == ',' || s[j] == '}')
    requires WellFormed(m.value) && Within(m.value, depth) && !HasKey(read, m.key)
    ensures colon < |s| && ReadKey(s, i, read) == Success(Parsed(m.key, colon + 1))
    ensures ReadValue(s, colon + 1, depth) == Success(Parsed(m.value, next)) && next <= j && SkipSpace(s, next) == j
    decreases m, 3
  {
    hide ReadValue, ReadKey, Padded, SpellsString;
    var a: nat, b: nat, n: nat :| KeyAt(s, i, a, b, n, j) && SpellsString(s, a, b, m.key) && Padded(s, n + 1, j, m.value);
    ReadsKey(s, i, a, b, n, j, read, m.key);
    next := ReadsPadded(s, n + 1, j, m.value, depth);
    colon := n;
  }

  lemma {:induction false} ReadsMembers(s: string, i: nat, j: nat, members: seq<Member>, depth: nat, read: seq<Member>)
    requires members != [] && depth <= MAX_NESTING_DEPTH
    requires GoodMembers(read + members, depth + 1) && GoodMembers(read, depth + 1)
    requires i <= |s| && AreMembers(s, i, j, members) && Stands(s, j, '}')
    ensures ReadMembers(s, i, depth, read) == Success(Parsed(Object(read + members), j + 1))
    decreases members, 4
  {
    hide ReadValue, ReadItems, ReadMembers, ReadKey, IsMember, WellFormed, Within;
    var m := members[0];
    NewKey(read, members);
    assert (read + members)[|read|] == m;
    if |members| == 1 {
      var colon, next := ReadsMember(s, i, j, m, depth + 1, read);
      MemberRead(s, i, depth, read, m, colon, next);
      assert read + [m] == read + members;
    } else {
      var n: nat :| Comma(s, i, n, j) && IsMember(s, i, n, m) && AreMembers(s, n + 1, j, members[1..]);
      var colon, next := ReadsMember(s, i, n, m, depth + 1, read);
      MemberRead(s, i, depth, read, m, colon, next);
      assert read + [m] + members[1..] == read + members;
      ReadsMembers(s, n + 1, j, members[1..], depth, read + [m]);
    }
  }

  lemma NewKey(read: seq<Member>, members: seq<Member>)
    requires members != [] && KeysDistinct(read + members)
    ensures !HasKey(read, members[0].key)
  {
    var all := read + members;
    assert all[|read|] == members[0];
    forall i | 0 <= i < |read| ensures read[i].key != members[0].key { assert all[i] == read[i]; }
  }

  // ---------------------------------------------------------------- nothing else is read

  /** What is read as a value is, behind whitespace, a text of that value. */
  lemma {:induction false} ValueIsText(s: string, i: nat, depth: nat)
    requires i <= |s| && ReadValue(s, i, depth).Success?
    ensures var p := ReadValue(s, i, depth).value;
            SkipSpace(s, i) < p.next <= |s| && IsText(s, SkipSpace(s, i), p.next, p.value)
    decreases |s| - i, 0
  {
    hide ReadItems, ReadMembers, ReadString, ReadNumber, SpellsString, AreItems, AreMembers;
    var j := SkipSpace(s, i);
    var p := ReadValue(s, i, depth).value;
    if s[j] == '{' {
      ObjectIsText(s, j, depth);
      ValueAfterSpace(s, i, depth);
    } else if s[j] == '[' {
      ArrayIsText(s, j, depth);
      ValueAfterSpace(s, i, depth);
    } else if s[j] == '"' {
      ReadStringExactly(s, j, p.next, p.value.text);
      StringEnds(s, j, p.next, p.value.text);
    } else if s[j] == '-' || IsDigit(s[j]) {
      NumberIsText(s, j);
    }
  }

  lemma StringEnds(s: string, i: nat, j: nat, text: string)
    requires SpellsString(s, i, j, text)
    ensures i + 2 <= j <= |s|
  {
  }

  lemma NumberIsText(s: string, i: nat)
    requires i <= |s| && ReadNumber(s, i).Success?
    ensures var p := ReadNumber(s, i).value; p.next <= |s| && p.value.Number? && IsText(s, i, p.next, p.value)
  {
  }

  lemma {:induction false} ArrayIsText(s: string, i: nat, depth: nat)
    requires Stands(s, i, '[') && ReadValue(s, i, depth).Success?
    ensures var p := ReadValue(s, i, depth).value; i < p.next <= |s| && IsText(s, i, p.next, p.value)
    decreases |s| - i - 1, 2
  {
    hide ReadValue, ReadItems, Padded;
    DepthAllowed(s, i, depth);
    OpensArray(s, i, depth);
    var k := SkipSpace(s, i + 1);
    SkippedIsWhite(s, i + 1);
    if !Stands(s, k, ']') {
      ItemsAreItems(s, k, depth, []);
      var p := ReadValue(s, i, depth).value;
      assert p.value.items[0..] == p.value.items;
      ItemsBehindSpace(s, i + 1, k, p.next - 1, p.value.items);
    }
  }

  lemma DepthAllowed(s: string, i: nat, depth: nat)
    requires i <= |s| && ReadValue(s, i, depth).Success?
    ensures depth <= MAX_NESTING_DEPTH
  {
    hide ReadItems, ReadMembers;
  }

  lemma SpaceInFront(s: string, i: nat, k: nat, j: nat, v: Value)
    requires White(s, i, k) && Padded(s, k, j, v)
    ensures Padded(s, i, j, v)
  {
    hide IsText;
    var a: nat, b: nat :| Around(s, k, a, b, j) && IsText(s, a, b, v);
    assert Around(s, i, a, b, j);
  }

  lemma ItemsBehindSpace(s: string, i: nat, k: nat, j: nat, items: seq<Value>)
    requires White(s, i, k) && items != [] && AreItems(s, k, j, items)
    ensures AreItems(s, i, j, items)
  {
    hide Padded;
    if |items| == 1 {
      SpaceInFront(s, i, k, j, items[0]);
    } else {
      var n: nat :| Comma(s, k, n, j) && Padded(s, k, n, items[0]) && AreItems(s, n + 1, j, items[1..]);
      SpaceInFront(s, i, k, n, items[0]);
      assert Comma(s, i, n, j);
    }
  }

  lemma {:induction false} ItemsAreItems(s: string, i: nat, depth: nat, read: seq<Value>)
    requires i <= |s| && depth <= MAX_NESTING_DEPTH && GoodItems(read, depth + 1) && ReadItems(s, i, depth, read).Success?
    ensures var p := ReadItems(s, i, depth, read).value;
            && p.value.Array? && |read| < |p.value.items| && p.value.items[..|read|] == read
            && i < p.next <= |s| && s[p.next - 1] == ']' && AreItems(s, i, p.next - 1, p.value.items[|read|..])
    decreases |s| - i, 1
  {
    hide ReadValue, ReadMembers, IsText, WellFormed, Within;
    var first := ReadValue(s, i, depth + 1).value;
    ValueIsText(s, i, depth + 1);
    SkippedIsWhite(s, i);
    SkippedIsWhite(s, first.next);
    var a, j := SkipSpace(s, i), SkipSpace(s, first.next);
    assert Around(s, i, a, first.next, j);
    assert Padded(s, i, j, first.value);
    var p := ReadItems(s, i, depth, read).value;
    if Stands(s, j, ']') {
      assert p.value.items[|read|..] == [first.value];
    } else {
      ItemsAreItems(s, j + 1, depth, read + [first.value]);
      var rest := p.value.items[|read| + 1..];
      assert p.value.items[..|read| + 1][|read|] == first.value;
      assert p.value.items[|read|..] == [first.value] + rest;
      assert p.value.items[..|read|] == p.value.items[..|read| + 1][..|read|];
      assert Comma(s, i, j, p.next - 1);
      assert p.value.items[|read|..][1..] == rest;
    }
  }

  lemma {:induction false} ObjectIsText(s: string, i: nat, depth: nat)
    requires Stands(s, i, '{') && ReadValue(s, i, depth).Success?
    ensures var p := ReadValue(s, i, depth).value; i < p.next <= |s| && IsText(s, i, p.next, p.value)
    decreases |s| - i - 1, 2
  {
    hide ReadValue, ReadMembers, IsMember;
    DepthAllowed(s, i, depth);
    OpensObject(s, i, depth);
    var k := SkipSpace(s, i + 1);
    SkippedIsWhite(s, i + 1);
    if !Stands(s, k, '}') {
      MembersAreMembers(s, k, depth, []);
      var p := ReadValue(s, i, depth).value;
      assert p.value.members[0..] == p.value.members;
      MembersBehindSpace(s, i + 1, k, p.next - 1, p.value.members);
    }
  }

  lemma MemberBehindSpace(s: string, i: nat, k: nat, j: nat, m: Member)
    requires White(s, i, k) && IsMember(s, k, j, m)
    ensures IsMember(s, i, j, m)
  {
    hide Padded, SpellsString;
    var a: nat, b: nat, n: nat :| KeyAt(s, k, a, b, n, j) && SpellsString(s, a, b, m.key) && Padded(s, n + 1, j, m.value);
    assert KeyAt(s, i, a, b, n, j);
  }

  lemma MembersBehindSpace(s: string, i: nat, k: nat, j: nat, members: seq<Member>)
    requires White(s, i, k) && members != [] && AreMembers(s, k, j, members)
    ensures AreMembers(s, i, j, members)
  {
    hide IsMember;
    if |members| == 1 {
      MemberBehindSpace(s, i, k, j, members[0]);
    } else {
      var n: nat :| Comma(s, k, n, j) && IsMember(s, k, n, members[0]) && AreMembers(s, n + 1, j, members[1..]);
      MemberBehindSpace(s, i, k, n, members[0]);
      assert Comma(s, i, n, j);
    }
  }

  /** What is read as a key is spelled there, and its colon stands after it. */
  lemma KeyIsSpelled(s: string, i: nat, read: seq<Member>) returns (a: nat, b: nat)
    requires i <= |s| && ReadKey(s, i, read).Success?
    ensures var key := ReadKey(s, i, read).value;
            key.next > 0 && a <= b && White(s, i, a) && White(s, b, key.next - 1) && key.next <= |s| && s[key.next - 1] == ':'
            && SpellsString(s, a, b, key.value)
  {
    hide ReadString, SpellsString;
    a := SkipSpace(s, i);
    SkippedIsWhite(s, i);
    var key := ReadString(s, a).value;
    b := key.next;
    ReadStringExactly(s, a, b, key.value);
    SkippedIsWhite(s, b);
  }

  /** What is read as a key and a value is a member, up to the next structural character. */
  lemma {:induction false} FirstIsMember(s: string, i: nat, depth: nat, read: seq<Member>)
    requires i <= |s| && ReadKey(s, i, read).Success?
    requires ReadValue(s, ReadKey(s, i, read).value.next, depth + 1).Success?
    ensures var key := ReadKey(s, i, read).value;
            var first := ReadValue(s, key.next, depth + 1).value;
            var j := SkipSpace(s, first.next);
            j < |s| ==> i < j && IsMember(s, i, j, Member(key.value, first.value))
    decreases |s| - i, 0
  {
    hide ReadValue, ReadKey, IsText, SpellsString;
    var key := ReadKey(s, i, read).value;
    var first := ReadValue(s, key.next, depth + 1).value;
    var a, b := KeyIsSpelled(s, i, read);
    ValueIsText(s, key.next, depth + 1);
    SkippedIsWhite(s, key.next);
    SkippedIsWhite(s, first.next);
    var j := SkipSpace(s, first.next);
    assert Around(s, key.next, SkipSpace(s, key.next), first.next, j);
    assert Padded(s, key.next, j, first.value);
    assert j < |s| ==> KeyAt(s, i, a, b, key.next - 1, j);
  }

  lemma {:induction false} MembersAreMembers(s: string, i: nat, depth: nat, read: seq<Member>)
    requires i <= |s| && depth <= MAX_NESTING_DEPTH && GoodMembers(read, depth + 1) && ReadMembers(s, i, depth, read).Success?
    ensures var p := ReadMembers(s, i, depth, read).value;
            && p.value.Object? && |read| < |p.value.members| && p.value.members[..|read|] == read
            && i < p.next <= |s| && s[p.next - 1] == '}' && AreMembers(s, i, p.next - 1, p.value.members[|read|..])
    decreases |s| - i, 1
  {
    hide ReadValue, ReadItems, ReadKey, WellFormed, Within, IsMember, SkipSpace;
    var key := ReadKey(s, i, read).value;
    var first := ReadValue(s, key.next, depth + 1).value;
    var m := Member(key.value, first.value);
    FirstIsMember(s, i, depth, read);
    var j := SkipSpace(s, first.next);
    var p := ReadMembers(s, i, depth, read).value;
    if Stands(s, j, '}') {
      assert p.value.members[|read|..] == [m];
    } else {
      MembersAreMembers(s, j + 1, depth, read + [m]);
      var rest := p.value.members[|read| + 1..];
      assert p.value.members[..|read| + 1][|read|] == m;
      assert p.value.members[|read|..] == [m] + rest;
      assert p.value.members[..|read|] == p.value.members[..|read| + 1][..|read|];
      assert Comma(s, i, j, p.next - 1);
      assert p.value.members[|read|..][1..] == rest;
    }
  }

  // ---------------------------------------------------------------- the parser reads the language

  /**
   The parser reads a text as a value exactly when the text is one of the value's, with any whitespace around
   it, no object of the value has a key twice and nothing in it stands deeper than 128 containers.
   */
  lemma ParseExactly(s: string, v: Value)
    ensures Parse(s) == Success(v) <==> Padded(s, 0, |s|, v) && WellFormed(v) && Within(v, 0)
  {
    hide ReadValue, IsText, WellFormed, Within;
    SkippedIsWhite(s, 0);
    var start := SkipSpace(s, 0);
    SkipsWhite(s, start, start);
    if Parse(s) == Success(v) {
      var p := ReadValue(s, start, 0).value;
      ValueIsText(s, start, 0);
      SkippedIsWhite(s, p.next);
      assert Around(s, 0, start, p.next, |s|);
    }
    if Padded(s, 0, |s|, v) && WellFormed(v) && Within(v, 0) {
      var a: nat, b: nat :| Around(s, 0, a, b, |s|) && IsText(s, a, b, v);
      TextStarts(s, a, b, v);
      SkipsWhite(s, 0, a);
      EndsAtSpace(s, b);
      ReadsText(s, a, a, b, v, 0);
      SkipsWhite(s, b, |s|);
    }
  }

  lemma EndsAtSpace(s: string, b: nat)
    requires White(s, b, |s|)
    ensures Ends(s, b)
  {
  }
}
