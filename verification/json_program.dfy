/** The cursor parser and the printer, proved against the grammar and the canonical form. */
module JsonProgram {
  import opened DecimalNumbers
  import opened JsonCanonical
  import opened JsonGrammar
  import opened JsonStrings
  import opened JsonValues
  import opened Texts
  import opened Wrappers

  /** A call ended as the grammar says: the same error, or the same value with the cursor after it. */
  predicate Meets<T(==)>(r: Result<T, JsonError>, reading: Reading<T>, cursor: nat) {
    match reading
    case Failure(e) => r == Failure(e)
    case Success(p) => r == Success(p.value) && cursor == p.next
  }

  class Parser {
    const input: string
    var cursor: nat

    ghost predicate Valid()
      reads this
    {
      cursor <= |input|
    }

    constructor (input: string)
      ensures this.input == input && cursor == 0 && Valid()
    {
      this.input := input;
      cursor := 0;
    }

    method SkipWhitespace()
      requires Valid()
      modifies this
      ensures Valid() && cursor == SkipSpace(input, old(cursor))
    {
      while cursor < |input| && IsSpace(input[cursor])
        invariant Valid() && SkipSpace(input, cursor) == SkipSpace(input, old(cursor))
      {
        cursor := cursor + 1;
      }
    }

    method Consume(expected: char) returns (consumed: bool)
      requires Valid()
      modifies this
      ensures Valid() && consumed == Stands(input, old(cursor), expected)
      ensures cursor == if consumed then old(cursor) + 1 else old(cursor)
    {
      consumed := cursor < |input| && input[cursor] == expected;
      if consumed { cursor := cursor + 1; }
    }

    method ParseString() returns (r: Result<string, JsonError>)
      requires Valid() && Stands(input, cursor, '"')
      modifies this
      ensures Valid() && Meets(r, ReadString(input, old(cursor)), cursor)
    {
      var start := cursor;
      cursor := cursor + 1;
      while cursor < |input|
        invariant start < cursor <= |input| && ScanString(input, cursor) == ScanString(input, start + 1)
      {
        if input[cursor] == '"' {
          cursor := cursor + 1;
          var decoded := Unescape(input[start + 1..cursor - 1]);
          return match decoded case None => Failure(Syntax) case Some(text) => Success(text);
        } else if input[cursor] == '\\' {
          cursor := cursor + 1;
          if cursor >= |input| { return Failure(Syntax); }
          cursor := cursor + 1;
        } else if IsControl(input[cursor]) {
          return Failure(Syntax);
        } else {
          cursor := cursor + 1;
        }
      }
      return Failure(Syntax);
    }

    method ParseNumber() returns (r: Result<Value, JsonError>)
      requires Valid()
      modifies this
      ensures Valid() && Meets(r, ReadNumber(input, old(cursor)), cursor)
    {
      var start := cursor;
      while cursor < |input| && !IsBoundary(input[cursor])
        invariant start <= cursor <= |input| && NumberEnd(input, cursor) == NumberEnd(input, start)
      {
        cursor := cursor + 1;
      }
      if IsNumber(input[start..cursor]) { return Success(Number(input[start..cursor])); }
      return Failure(Syntax);
    }

    method ParseLiteral(literal: string, value: Value) returns (r: Result<Value, JsonError>)
      requires Valid()
      modifies this
      ensures Valid() && Meets(r, ReadLiteral(input, old(cursor), literal, value), cursor)
    {
      var end := cursor + |literal|;
      if end <= |input| && input[cursor..end] == literal && (end == |input| || IsBoundary(input[end])) {
        cursor := end;
        return Success(value);
      }
      assert At(input, cursor, literal) ==> input[cursor..end] == literal;
      return Failure(Syntax);
    }

    method ParseNull() returns (r: Result<Value, JsonError>)
      requires Valid()
      modifies this
      ensures Valid() && Meets(r, ReadNull(input, old(cursor)), cursor)
    {
      var end := cursor + |"null"|;
      if end <= |input| && input[cursor..end] == "null" && (end == |input| || IsBoundary(input[end])) {
        cursor := end;
        return Failure(NullForbidden);
      }
      assert At(input, cursor, "null") ==> input[cursor..end] == "null";
      return Failure(Syntax);
    }

    method ParseValue(depth: nat) returns (r: Result<Value, JsonError>)
      requires Valid()
      modifies this
      ensures Valid() && Meets(r, ReadValue(input, old(cursor), depth), cursor)
      decreases |input| - cursor, 1
    {
      hide ReadItems, ReadMembers;
      if depth > MAX_NESTING_DEPTH { return Failure(NestingLimit); }
      SkipWhitespace();
      if cursor == |input| { return Failure(Syntax); }
      if input[cursor] == '{' {
        r := ParseObject(depth);
      } else if input[cursor] == '[' {
        r := ParseArray(depth);
      } else if input[cursor] == '"' {
        var text := ParseString();
        r := match text case Failure(e) => Failure(e) case Success(t) => Success(Text(t));
      } else if input[cursor] == 't' {
        r := ParseLiteral("true", Boolean(true));
      } else if input[cursor] == 'f' {
        r := ParseLiteral("false", Boolean(false));
      } else if input[cursor] == 'n' {
        r := ParseNull();
      } else if input[cursor] == '-' || IsDigit(input[cursor]) {
        r := ParseNumber();
      } else {
        r := Failure(Syntax);
      }
    }

    method ParseArray(depth: nat) returns (r: Result<Value, JsonError>)
      requires Valid() && depth <= MAX_NESTING_DEPTH && Stands(input, cursor, '[')
      modifies this
      ensures Valid() && Meets(r, ReadValue(input, old(cursor), depth), cursor)
      decreases |input| - cursor, 0
    {
      hide ReadValue, ReadItems, SkipSpace, WellFormed, Within;
      ghost var start := cursor;
      OpenedArray(input, start, depth);
      cursor := cursor + 1;
      SkipWhitespace();
      var closed := Consume(']');
      if closed { return Success(Array([])); }
      var items: seq<Value> := [];
      while true
        invariant start < cursor <= |input| && GoodItems(items, depth + 1)
        invariant ReadValue(input, start, depth) == ReadItems(input, cursor, depth, items)
        decreases |input| - cursor
      {
        ItemStep(input, cursor, depth, items);
        var item := ParseValue(depth + 1);
        if item.Failure? { return Failure(item.error); }
        items := items + [item.value];
        SkipWhitespace();
        closed := Consume(']');
        if closed { return Success(Array(items)); }
        var more := Consume(',');
        if !more { return Failure(Syntax); }
      }
    }

    method ParseKey(members: seq<Member>, keys: set<string>) returns (r: Result<string, JsonError>)
      requires Valid() && forall k :: k in keys <==> HasKey(members, k)
      modifies this
      ensures Valid() && Meets(r, ReadKey(input, old(cursor), members), cursor)
    {
      SkipWhitespace();
      if cursor == |input| || input[cursor] != '"' { return Failure(Syntax); }
      var key := ParseString();
      if key.Failure? { return Failure(key.error); }
      if key.value in keys { return Failure(DuplicateKey); }
      SkipWhitespace();
      var colon := Consume(':');
      if !colon { return Failure(Syntax); }
      return key;
    }

    method ParseObject(depth: nat) returns (r: Result<Value, JsonError>)
      requires Valid() && depth <= MAX_NESTING_DEPTH && Stands(input, cursor, '{')
      modifies this
      ensures Valid() && Meets(r, ReadValue(input, old(cursor), depth), cursor)
      decreases |input| - cursor, 0
    {
      hide ReadValue, ReadMembers, ReadKey, SkipSpace, WellFormed, Within;
      ghost var start := cursor;
      OpenedObject(input, start, depth);
      cursor := cursor + 1;
      SkipWhitespace();
      var closed := Consume('}');
      if closed { return Success(Object([])); }
      var members: seq<Member> := [];
      var keys: set<string> := {};
      while true
        invariant start < cursor <= |input| && GoodMembers(members, depth + 1)
        invariant forall k :: k in keys <==> HasKey(members, k)
        invariant ReadValue(input, start, depth) == ReadMembers(input, cursor, depth, members)
        decreases |input| - cursor
      {
        MemberStep(input, cursor, depth, members);
        var key := ParseKey(members, keys);
        if key.Failure? { return Failure(key.error); }
        var value := ParseValue(depth + 1);
        if value.Failure? { return Failure(value.error); }
        KeysGrow(members, Member(key.value, value.value), keys);
        keys := keys + {key.value};
        members := members + [Member(key.value, value.value)];
        SkipWhitespace();
        closed := Consume('}');
        if closed { return Success(Object(members)); }
        var more := Consume(',');
        if !more { return Failure(Syntax); }
      }
    }

    method ParseText() returns (r: Result<Value, JsonError>)
      requires cursor == 0
      modifies this
      ensures r == Parse(input)
    {
      SkipWhitespace();
      var value := ParseValue(0);
      if value.Failure? { return Failure(value.error); }
      SkipWhitespace();
      if cursor != |input| { return Failure(Syntax); }
      return value;
    }
  }

  lemma OpenedArray(s: string, i: nat, depth: nat)
    requires depth <= MAX_NESTING_DEPTH && Stands(s, i, '[')
    ensures var k := SkipSpace(s, i + 1);
            ReadValue(s, i, depth) == if Stands(s, k, ']') then Success(Parsed(Array([]), k + 1)) else ReadItems(s, k, depth, [])
  {
    hide ReadItems, ReadMembers;
  }

  lemma OpenedObject(s: string, i: nat, depth: nat)
    requires depth <= MAX_NESTING_DEPTH && Stands(s, i, '{')
    ensures var k := SkipSpace(s, i + 1);
            ReadValue(s, i, depth) == if Stands(s, k, '}') then Success(Parsed(Object([]), k + 1)) else ReadMembers(s, k, depth, [])
  {
    hide ReadItems, ReadMembers;
  }

  lemma ItemStep(s: string, i: nat, depth: nat, items: seq<Value>)
    requires i <= |s| && depth <= MAX_NESTING_DEPTH && GoodItems(items, depth + 1)
    ensures var item := ReadValue(s, i, depth + 1);
            && (item.Failure? ==> ReadItems(s, i, depth, items) == Failure(item.error))
            && (item.Success? ==>
              var j, read := SkipSpace(s, item.value.next), items + [item.value.value];
              && GoodItems(read, depth + 1)
              && (Stands(s, j, ']') ==> ReadItems(s, i, depth, items) == Success(Parsed(Array(read), j + 1)))
              && (Stands(s, j, ',') ==> ReadItems(s, i, depth, items) == ReadItems(s, j + 1, depth, read))
              && (!Stands(s, j, ']') && !Stands(s, j, ',') ==> ReadItems(s, i, depth, items) == Failure(Syntax)))
  {
    hide ReadValue, ReadMembers;
  }

  lemma MemberStep(s: string, i: nat, depth: nat, members: seq<Member>)
    requires i <= |s| && depth <= MAX_NESTING_DEPTH && GoodMembers(members, depth + 1)
    ensures var key := ReadKey(s, i, members);
            && (key.Failure? ==> ReadMembers(s, i, depth, members) == Failure(key.error))
            && (key.Success? ==> MemberStepped(s, i, depth, members, key.value))
  {
    hide ReadValue, ReadItems, ReadKey;
  }

  /** How a member is read after its key. */
  predicate MemberStepped(s: string, i: nat, depth: nat, members: seq<Member>, key: Parsed<string>)
    requires i < key.next <= |s| && depth <= MAX_NESTING_DEPTH && GoodMembers(members, depth + 1)
    requires !HasKey(members, key.value)
  {
    var item := ReadValue(s, key.next, depth + 1);
    && (item.Failure? ==> ReadMembers(s, i, depth, members) == Failure(item.error))
    && (item.Success? ==>
      var j, read := SkipSpace(s, item.value.next), members + [Member(key.value, item.value.value)];
      && GoodMembers(read, depth + 1)
      && (Stands(s, j, '}') ==> ReadMembers(s, i, depth, members) == Success(Parsed(Object(read), j + 1)))
      && (Stands(s, j, ',') ==> ReadMembers(s, i, depth, members) == ReadMembers(s, j + 1, depth, read))
      && (!Stands(s, j, '}') && !Stands(s, j, ',') ==> ReadMembers(s, i, depth, members) == Failure(Syntax)))
  }

  lemma KeysGrow(members: seq<Member>, m: Member, keys: set<string>)
    requires forall k :: k in keys <==> HasKey(members, k)
    ensures forall k :: k in keys + {m.key} <==> HasKey(members + [m], k)
  {
    forall k ensures k in keys + {m.key} <==> HasKey(members + [m], k) {
      if HasKey(members, k) {
        var i :| 0 <= i < |members| && members[i].key == k;
        assert (members + [m])[i].key == k;
      }
      assert (members + [m])[|members|].key == m.key;
    }
  }

  // ---------------------------------------------------------------- printing

  class Output {
    var text: string

    constructor ()
      ensures text == ""
    {
      text := "";
    }

    method PushStr(s: string)
      modifies this
      ensures text == old(text) + s
    {
      text := text + s;
    }
  }

  method WriteString(value: string, output: Output)
    modifies output
    ensures output.text == old(output.text) + Quoted(value)
  {
    hide Escape, EscapeChar;
    ghost var start := output.text;
    output.PushStr("\"");
    ghost var base := output.text;
    EscapeNothing();
    for i := 0 to |value|
      invariant output.text == base + Escape(value[..i])
    {
      output.PushStr(EscapeChar(value[i]));
      EscapeAppends(value[..i], value[i]);
      Regrouped(base, Escape(value[..i]), "", EscapeChar(value[i]));
      assert value[..i + 1] == value[..i] + [value[i]];
    }
    assert value[..|value|] == value;
    output.PushStr("\"");
    Regrouped(start, "\"", Escape(value), "\"");
  }

  lemma EscapeNothing()
    ensures Escape("") == ""
  {
  }

  lemma {:induction false} EscapeAppends(s: string, c: char)
    ensures Escape(s + [c]) == Escape(s) + EscapeChar(c)
  {
    if s != "" {
      EscapeAppends(s[1..], c);
      assert (s + [c])[1..] == s[1..] + [c];
    }
  }

  lemma {:induction false} ItemsAppend(items: seq<Value>, v: Value)
    ensures TextOfItems(items + [v]) == if items == [] then TextOf(v) else TextOfItems(items) + "," + TextOf(v)
  {
    hide TextOf, TextOfMember;
    if |items| > 1 {
      ItemsAppend(items[1..], v);
      assert (items + [v])[1..] == items[1..] + [v];
    }
  }

  lemma {:induction false} MembersAppend(members: seq<Member>, m: Member)
    ensures TextOfMembers(members + [m]) == if members == [] then TextOfMember(m) else TextOfMembers(members) + "," + TextOfMember(m)
  {
    hide TextOf, TextOfMember;
    if |members| > 1 {
      MembersAppend(members[1..], m);
      assert (members + [m])[1..] == members[1..] + [m];
    }
  }

  lemma CanonCons(m: Member, ms: seq<Member>)
    requires forall i :: 0 <= i < |[m] + ms| ==> WellFormed(([m] + ms)[i].value) && Printable(([m] + ms)[i].value)
    ensures WellFormed(m.value) && Printable(m.value)
    ensures forall i :: 0 <= i < |ms| ==> WellFormed(ms[i].value) && Printable(ms[i].value)
    ensures CanonMembers([m] + ms) == [Member(m.key, Canon(m.value))] + CanonMembers(ms)
  {
    hide Canon, WellFormed, Printable;
    var all := [m] + ms;
    assert all[0] == m && forall i :: 0 <= i < |ms| ==> ms[i] == all[i + 1];
  }

  /** Sorting by key and writing members canonically commute. */
  lemma {:induction false} CanonInsert(m: Member, ms: seq<Member>)
    requires WellFormed(m.value) && Printable(m.value)
    requires forall i :: 0 <= i < |ms| ==> WellFormed(ms[i].value) && Printable(ms[i].value)
    ensures forall i :: 0 <= i < |Insert(m, ms)| ==> WellFormed(Insert(m, ms)[i].value) && Printable(Insert(m, ms)[i].value)
    ensures CanonMembers(Insert(m, ms)) == Insert(Member(m.key, Canon(m.value)), CanonMembers(ms))
  {
    hide Canon, WellFormed, Printable, KeyLess;
    if ms == [] || KeyLess(m.key, ms[0].key) {
      CanonCons(m, ms);
    } else {
      CanonInsert(m, ms[1..]);
      assert ms == [ms[0]] + ms[1..];
      CanonCons(ms[0], ms[1..]);
      CanonCons(ms[0], Insert(m, ms[1..]));
      assert CanonMembers(ms)[1..] == CanonMembers(ms[1..]);
    }
  }

  lemma {:induction false} CanonSort(ms: seq<Member>)
    requires forall i :: 0 <= i < |ms| ==> WellFormed(ms[i].value) && Printable(ms[i].value)
    ensures forall i :: 0 <= i < |Sort(ms)| ==> WellFormed(Sort(ms)[i].value) && Printable(Sort(ms)[i].value)
    ensures CanonMembers(Sort(ms)) == Sort(CanonMembers(ms))
  {
    if ms != [] {
      CanonSort(ms[1..]);
      assert CanonMembers(ms)[1..] == CanonMembers(ms[1..]);
      CanonInsert(ms[0], Sort(ms[1..]));
    }
  }

  datatype Done = Done

  /** Writes the canonical text of a value to the end of the output. */
  method WriteValue(value: Value, output: Output) returns (r: Result<Done, JsonError>)
    requires WellFormed(value)
    modifies output
    ensures r == if Printable(value) then Success(Done) else Failure(NumberLimit)
    ensures Printable(value) ==> output.text == old(output.text) + TextOf(Canon(value))
    decreases value, 1
  {
    match value
    case Boolean(truth) =>
      output.PushStr(if truth then "true" else "false");
      return Success(Done);
    case Number(token) =>
      var normal := NormalizeNumber(token, false);
      if normal.Failure? { return Failure(NumberLimit); }
      output.PushStr(normal.value);
      return Success(Done);
    case Text(text) =>
      WriteString(text, output);
      return Success(Done);
    case Array(items) => r := WriteItems(value, items, output);
    case Object(members) => r := WriteMembers(value, members, output);
  }

  function CanonItems(items: seq<Value>): (r: seq<Value>)
    requires forall i :: 0 <= i < |items| ==> WellFormed(items[i]) && Printable(items[i])
    ensures |r| == |items| && forall i :: 0 <= i < |r| ==> r[i] == Canon(items[i])
  {
    seq(|items|, i requires 0 <= i < |items| => Canon(items[i]))
  }

  /** What writing the item at `index` adds to the items before it. */
  lemma ItemsGrow(items: seq<Value>, index: nat)
    requires index < |items| && forall i :: 0 <= i <= index ==> WellFormed(items[i]) && Printable(items[i])
    ensures TextOfItems(CanonItems(items[..index + 1]))
         == TextOfItems(CanonItems(items[..index])) + (if index > 0 then "," else "") + TextOf(Canon(items[index]))
  {
    hide TextOf, Canon, CanonItems, TextOfItems;
    var v := Canon(items[index]);
    CanonItemsPrefix(items, index);
    ItemsAppend(CanonItems(items[..index]), v);
    if index == 0 {
      WrittenNothing();
      assert items[..0] == [] && "" + "" + TextOf(v) == TextOf(v);
    }
  }

  lemma CanonItemsPrefix(items: seq<Value>, index: nat)
    requires index < |items| && forall i :: 0 <= i <= index ==> WellFormed(items[i]) && Printable(items[i])
    ensures CanonItems(items[..index + 1]) == CanonItems(items[..index]) + [Canon(items[index])]
  {
    hide Canon, CanonItems, WellFormed, Printable;
  }

  lemma MembersGrow(members: seq<Member>, index: nat)
    requires index < |members| && forall i :: 0 <= i <= index ==> WellFormed(members[i].value) && Printable(members[i].value)
    ensures TextOfMembers(CanonMembers(members[..index + 1]))
         == TextOfMembers(CanonMembers(members[..index])) + (if index > 0 then "," else "")
            + (Quoted(members[index].key) + ":" + TextOf(Canon(members[index].value)))
  {
    hide TextOf, Canon, CanonMembers, Quoted, TextOfMembers;
    var m := Member(members[index].key, Canon(members[index].value));
    CanonPrefix(members, index);
    MembersAppend(CanonMembers(members[..index]), m);
    if index == 0 {
      WrittenNothing();
      assert members[..0] == [] && "" + "" + TextOfMember(m) == TextOfMember(m);
    }
  }

  lemma CanonPrefix(members: seq<Member>, index: nat)
    requires index < |members| && forall i :: 0 <= i <= index ==> WellFormed(members[i].value) && Printable(members[i].value)
    ensures CanonMembers(members[..index + 1])
         == CanonMembers(members[..index]) + [Member(members[index].key, Canon(members[index].value))]
  {
    hide Canon, CanonMembers, WellFormed, Printable;
  }

  lemma Regrouped(a: string, b: string, c: string, d: string)
    ensures a + b + c + d == a + (b + c + d) && a + b + d == a + (b + d)
  {
  }

  method WriteItems(value: Value, items: seq<Value>, output: Output) returns (r: Result<Done, JsonError>)
    requires value == Array(items) && WellFormed(value)
    modifies output
    ensures r == if Printable(value) then Success(Done) else Failure(NumberLimit)
    ensures Printable(value) ==> output.text == old(output.text) + TextOf(Canon(value))
    decreases value, 0
  {
    assert forall i :: 0 <= i < |items| ==> WellFormed(items[i]);
    hide TextOf, Canon, TextOfItems, CanonItems, WellFormed;
    ghost var start := output.text;
    output.PushStr("[");
    WrittenNothing();
    for index := 0 to |items|
      invariant forall i :: 0 <= i < index ==> Printable(items[i])
      invariant output.text == start + "[" + TextOfItems(CanonItems(items[..index]))
    {
      if index > 0 { output.PushStr(","); }
      var item := WriteValue(items[index], output);
      if item.Failure? { return Failure(NumberLimit); }
      ItemsGrow(items, index);
      Regrouped(start + "[", TextOfItems(CanonItems(items[..index])), ",", TextOf(Canon(items[index])));
    }
    assert items[..|items|] == items;
    WrittenArray(items);
    output.PushStr("]");
    Regrouped(start, "[", TextOfItems(CanonItems(items)), "]");
    return Success(Done);
  }

  lemma WrittenNothing()
    ensures TextOfItems(CanonItems([])) == "" && TextOfMembers(CanonMembers([])) == ""
  {
  }

  lemma WrittenArray(items: seq<Value>)
    requires forall i :: 0 <= i < |items| ==> WellFormed(items[i]) && Printable(items[i])
    ensures TextOf(Canon(Array(items))) == "[" + TextOfItems(CanonItems(items)) + "]"
  {
    assert Canon(Array(items)) == Array(CanonItems(items));
  }

  lemma WrittenObject(members: seq<Member>)
    requires WellFormed(Object(members)) && Printable(Object(members))
    ensures forall i :: 0 <= i < |Sort(members)| ==> WellFormed(Sort(members)[i].value) && Printable(Sort(members)[i].value)
    ensures TextOf(Canon(Object(members))) == "{" + TextOfMembers(CanonMembers(Sort(members))) + "}"
  {
    CanonSort(members);
  }

  method WriteMembers(value: Value, members: seq<Member>, output: Output) returns (r: Result<Done, JsonError>)
    requires value == Object(members) && WellFormed(value)
    modifies output
    ensures r == if Printable(value) then Success(Done) else Failure(NumberLimit)
    ensures Printable(value) ==> output.text == old(output.text) + TextOf(Canon(value))
    decreases value, 0, 1
  {
    hide TextOf, Canon, TextOfMembers, Quoted, Sort;
    var sorted := Sort(members);
    SortContents(members);
    ghost var start := output.text;
    output.PushStr("{");
    WrittenNothing();
    for index := 0 to |sorted|
      invariant forall i :: 0 <= i < index ==> WellFormed(sorted[i].value) && Printable(sorted[i].value)
      invariant output.text == start + "{" + TextOfMembers(CanonMembers(sorted[..index]))
    {
      assert sorted[index] in members;
      ghost var before := output.text;
      if index > 0 { output.PushStr(","); }
      r := WriteMember(sorted[index], value, output);
      if r.Failure? { return Failure(NumberLimit); }
      MembersGrow(sorted, index);
      Regrouped(start + "{", TextOfMembers(CanonMembers(sorted[..index])), ",",
                Quoted(sorted[index].key) + ":" + TextOf(Canon(sorted[index].value)));
    }
    assert sorted[..|sorted|] == sorted;
    AllPrintable(members);
    WrittenObject(members);
    output.PushStr("}");
    Regrouped(start, "{", TextOfMembers(CanonMembers(sorted)), "}");
    return Success(Done);
  }

  method WriteMember(m: Member, ghost whole: Value, output: Output) returns (r: Result<Done, JsonError>)
    requires WellFormed(m.value) && whole.Object? && m in whole.members
    modifies output
    ensures r == if Printable(m.value) then Success(Done) else Failure(NumberLimit)
    ensures Printable(m.value) ==> output.text == old(output.text) + (Quoted(m.key) + ":" + TextOf(Canon(m.value)))
    decreases whole, 0, 0
  {
    hide TextOf, Canon, Quoted;
    ghost var start := output.text;
    WriteString(m.key, output);
    output.PushStr(":");
    r := WriteValue(m.value, output);
    if r.Success? { Regrouped(start, Quoted(m.key), ":", TextOf(Canon(m.value))); }
  }

  lemma AllPrintable(members: seq<Member>)
    requires forall i :: 0 <= i < |members| ==> WellFormed(members[i].value)
    requires forall i :: 0 <= i < |Sort(members)| ==> WellFormed(Sort(members)[i].value) && Printable(Sort(members)[i].value)
    ensures forall i :: 0 <= i < |members| ==> Printable(members[i].value)
  {
    SortContents(members);
    forall i | 0 <= i < |members| ensures Printable(members[i].value) { assert members[i] in Sort(members); }
  }

  /** The program: parse, then print what was parsed. */
  method CanonicalizeJson(input: string) returns (r: Result<string, JsonError>)
    ensures r == Canonicalize(input)
  {
    var parser := new Parser(input);
    var value := parser.ParseText();
    if value.Failure? { return Failure(value.error); }
    var output := new Output();
    var written := WriteValue(value.value, output);
    if written.Failure? { return Failure(written.error); }
    assert "" + TextOf(Canon(value.value)) == TextOf(Canon(value.value));
    return Success(output.text);
  }
}
