/** The canonical form theorem: reading back, stability, and equal texts exactly for equal values. */
module JsonTheorems {
  import opened DecimalNumbers
  import opened JsonCanonical
  import opened JsonGrammar
  import opened JsonLanguage
  import opened JsonSpelling
  import opened JsonStrings
  import opened JsonValues
  import opened Texts
  import opened Wrappers

  // ---------------------------------------------------------------- the written text

  /** The text the writer gives a value is a text of that value. */
  lemma {:induction false} WrittenIsText(s: string, i: nat, v: Value)
    requires WellFormed(v) && At(s, i, TextOf(v))
    ensures IsText(s, i, i + |TextOf(v)|, v)
    decreases v, 0
  {
    hide Quoted, SpellsString, IsNumber;
    match v
    case Boolean(_) =>
    case Number(_) =>
    case Text(text) => QuotedSpells(s, i, text);
    case Array(items) =>
      AtJoined3(s, i, "[", TextOfItems(items), "]");
      assert s[i] == "["[0] && s[i + 1 + |TextOfItems(items)|] == "]"[0];
      WrittenAreItems(s, i + 1, items);
    case Object(members) =>
      AtJoined3(s, i, "{", TextOfMembers(members), "}");
      assert s[i] == "{"[0] && s[i + 1 + |TextOfMembers(members)|] == "}"[0];
      WrittenAreMembers(s, i + 1, members);
  }

  lemma {:induction false} WrittenIsPadded(s: string, i: nat, v: Value)
    requires WellFormed(v) && At(s, i, TextOf(v))
    ensures Padded(s, i, i + |TextOf(v)|, v)
    decreases v, 1
  {
    hide IsText, TextOf;
    WrittenIsText(s, i, v);
    assert Around(s, i, i, i + |TextOf(v)|, i + |TextOf(v)|);
  }

  lemma {:induction false} WrittenAreItems(s: string, i: nat, items: seq<Value>)
    requires At(s, i, TextOfItems(items)) && forall k :: 0 <= k < |items| ==> WellFormed(items[k])
    ensures AreItems(s, i, i + |TextOfItems(items)|, items)
    decreases items, 2
  {
    hide TextOf, Padded, WellFormed;
    if |items| == 1 {
      WrittenIsPadded(s, i, items[0]);
    } else if items != [] {
      var n := i + |TextOf(items[0])|;
      AtJoined3(s, i, TextOf(items[0]), ",", TextOfItems(items[1..]));
      assert s[n] == ","[0];
      WrittenIsPadded(s, i, items[0]);
      WrittenAreItems(s, n + 1, items[1..]);
      assert Comma(s, i, n, i + |TextOfItems(items)|);
    }
  }

  lemma {:induction false} WrittenIsMember(s: string, i: nat, m: Member)
    requires WellFormed(m.value) && At(s, i, TextOfMember(m))
    ensures IsMember(s, i, i + |TextOfMember(m)|, m)
    decreases m, 2
  {
    hide TextOf, Padded, Quoted, SpellsString;
    var n, j := i + |Quoted(m.key)|, i + |TextOfMember(m)|;
    AtJoined3(s, i, Quoted(m.key), ":", TextOf(m.value));
    assert s[n] == ":"[0];
    QuotedSpells(s, i, m.key);
    WrittenIsPadded(s, n + 1, m.value);
    SomeText(s, n + 1, j, m.value);
    assert KeyAt(s, i, i, n, n, j);
  }

  lemma SomeText(s: string, i: nat, j: nat, v: Value)
    requires Padded(s, i, j, v)
    ensures i < j <= |s|
  {
    hide IsText;
    var a: nat, b: nat :| Around(s, i, a, b, j) && IsText(s, a, b, v);
    TextStarts(s, a, b, v);
  }

  lemma {:induction false} WrittenAreMembers(s: string, i: nat, members: seq<Member>)
    requires At(s, i, TextOfMembers(members)) && forall k :: 0 <= k < |members| ==> WellFormed(members[k].value)
    ensures AreMembers(s, i, i + |TextOfMembers(members)|, members)
    decreases members, 3
  {
    hide TextOfMember, IsMember, WellFormed;
    if |members| == 1 {
      WrittenIsMember(s, i, members[0]);
    } else if members != [] {
      var n := i + |TextOfMember(members[0])|;
      AtJoined3(s, i, TextOfMember(members[0]), ",", TextOfMembers(members[1..]));
      assert s[n] == ","[0];
      WrittenIsMember(s, i, members[0]);
      WrittenAreMembers(s, n + 1, members[1..]);
      assert Comma(s, i, n, i + |TextOfMembers(members)|);
    }
  }

  /** No text of a value is shorter than the written one: no whitespace, and the shortest spelling of every character. */
  lemma {:induction false} WrittenIsShortest(s: string, i: nat, j: nat, v: Value)
    requires IsText(s, i, j, v)
    ensures i + |TextOf(v)| <= j
    decreases v, 0
  {
    match v
    case Boolean(_) =>
    case Number(_) =>
    case Text(text) => EscapesAreShortest(s, i + 1, j - 1, text);
    case Array(items) => ItemsAreShortest(s, i + 1, j - 1, items);
    case Object(members) => MembersAreShortest(s, i + 1, j - 1, members);
  }

  lemma {:induction false} PaddedIsLonger(s: string, i: nat, j: nat, v: Value)
    requires Padded(s, i, j, v)
    ensures i + |TextOf(v)| <= j
    decreases v, 1
  {
    hide IsText, TextOf;
    var a: nat, b: nat :| Around(s, i, a, b, j) && IsText(s, a, b, v);
    WrittenIsShortest(s, a, b, v);
  }

  lemma {:induction false} ItemsAreShortest(s: string, i: nat, j: nat, items: seq<Value>)
    requires AreItems(s, i, j, items)
    ensures i + |TextOfItems(items)| <= j
    decreases items, 2
  {
    hide TextOf, Padded;
    if |items| == 1 {
      PaddedIsLonger(s, i, j, items[0]);
    } else if items != [] {
      var n: nat :| Comma(s, i, n, j) && Padded(s, i, n, items[0]) && AreItems(s, n + 1, j, items[1..]);
      PaddedIsLonger(s, i, n, items[0]);
      ItemsAreShortest(s, n + 1, j, items[1..]);
    }
  }

  lemma {:induction false} MemberIsShortest(s: string, i: nat, j: nat, m: Member)
    requires IsMember(s, i, j, m)
    ensures i + |TextOfMember(m)| <= j
    decreases m, 2
  {
    hide TextOf, Padded, SpellsText;
    var a: nat, b: nat, n: nat :| KeyAt(s, i, a, b, n, j) && SpellsString(s, a, b, m.key) && Padded(s, n + 1, j, m.value);
    EscapesAreShortest(s, a + 1, b - 1, m.key);
    PaddedIsLonger(s, n + 1, j, m.value);
  }

  lemma {:induction false} MembersAreShortest(s: string, i: nat, j: nat, members: seq<Member>)
    requires AreMembers(s, i, j, members)
    ensures i + |TextOfMembers(members)| <= j
    decreases members, 3
  {
    hide TextOfMember, IsMember;
    if |members| == 1 {
      MemberIsShortest(s, i, j, members[0]);
    } else if members != [] {
      var n: nat :| Comma(s, i, n, j) && IsMember(s, i, n, members[0]) && AreMembers(s, n + 1, j, members[1..]);
      MemberIsShortest(s, i, n, members[0]);
      MembersAreShortest(s, n + 1, j, members[1..]);
    }
  }

  // ---------------------------------------------------------------- theorems

  /** Every value the parser can build is read back from its text. */
  lemma ParseTextOf(v: Value)
    requires WellFormed(v) && Within(v, 0)
    ensures Parse(TextOf(v)) == Success(v)
  {
    var s := TextOf(v);
    WrittenIsPadded(s, 0, v);
    ParseExactly(s, v);
  }

  /** Parsing canonical text succeeds, printing again returns it unchanged, and its meaning is kept. */
  lemma CanonicalTextIsStable(input: string)
    requires Canonicalize(input).Success?
    ensures var text := Canonicalize(input).value;
            && Parse(text).Success? && Denote(Parse(text).value) == Denote(Parse(input).value)
            && Canonicalize(text) == Success(text)
  {
    var v := Parse(input).value;
    CanonIsValue(v, 0);
    CanonKeepsMeaning(v, 0);
    CanonIdempotent(v, 0);
    ParseTextOf(Canon(v));
  }

  /** The canonical text is the shortest text of what it writes: of its members in their order and its number tokens. */
  lemma CanonicalTextIsShortest(input: string, other: string)
    requires Canonicalize(input).Success?
    requires Padded(other, 0, |other|, Canon(Parse(input).value))
    ensures |Canonicalize(input).value| <= |other|
  {
    PaddedIsLonger(other, 0, |other|, Canon(Parse(input).value));
  }

  /** Two accepted texts have the same canonical text exactly when they denote the same value. */
  lemma CanonicalTextDecidesMeaning(a: string, b: string)
    requires Canonicalize(a).Success? && Canonicalize(b).Success?
    ensures Canonicalize(a) == Canonicalize(b) <==> Denote(Parse(a).value) == Denote(Parse(b).value)
  {
    if Canonicalize(a) == Canonicalize(b) {
      CanonicalTextIsStable(a);
      CanonicalTextIsStable(b);
    }
    if Denote(Parse(a).value) == Denote(Parse(b).value) { CanonUnique(Parse(a).value, Parse(b).value); }
  }
}
