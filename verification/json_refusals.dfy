/**
 Why a text is refused. Every text of RFC 8259, with null, repeated keys and any nesting, is a text of some
 tree; the tree alone, read in the order of the text, tells whether the parser accepts the text and which of
 its three reasons it gives. So a syntax error is only ever answered to what is no JSON text at all.
 */
module JsonRefusals {
  import opened DecimalNumbers
  import opened JsonGrammar
  import opened JsonLanguage
  import JsonProgram
  import opened JsonSpelling
  import opened JsonValues
  import opened Texts
  import opened Wrappers

  datatype Entry = Entry(key: string, tree: Tree)

  /** A JSON value as it stands, before anything is refused. */
  datatype Tree = Null | Truth(truth: bool) | Digits(token: string) | Chars(text: string) | List(items: seq<Tree>) | Table(entries: seq<Entry>)

  // ---------------------------------------------------------------- the whole language

  function Word(t: Tree): string
    requires t.Null? || t.Truth?
  {
    if t.Null? then "null" else if t.truth then "true" else "false"
  }

  /** `s[i..j]` is a text of the tree, without whitespace around it. */
  ghost predicate IsTree(s: string, i: nat, j: nat, t: Tree)
    decreases t, 0
  {
    match t
    case Digits(token) => At(s, i, token) && j == i + |token| && IsNumber(token)
    case Chars(text) => SpellsString(s, i, j, text)
    case List(items) => i + 2 <= j <= |s| && s[i] == '[' && s[j - 1] == ']' && AreTrees(s, i + 1, j - 1, items)
    case Table(entries) => i + 2 <= j <= |s| && s[i] == '{' && s[j - 1] == '}' && AreEntries(s, i + 1, j - 1, entries)
    case _ => At(s, i, Word(t)) && j == i + |Word(t)|
  }

  ghost predicate PaddedTree(s: string, i: nat, j: nat, t: Tree)
    decreases t, 1
  {
    exists a: nat, b: nat :: Around(s, i, a, b, j) && IsTree(s, a, b, t)
  }

  ghost predicate AreTrees(s: string, i: nat, j: nat, items: seq<Tree>)
    decreases items, 2
  {
    if items == [] then White(s, i, j)
    else if |items| == 1 then PaddedTree(s, i, j, items[0])
    else exists n: nat :: Comma(s, i, n, j) && PaddedTree(s, i, n, items[0]) && AreTrees(s, n + 1, j, items[1..])
  }

  ghost predicate IsEntry(s: string, i: nat, j: nat, e: Entry)
    decreases e, 2
  {
    exists a: nat, b: nat, n: nat :: KeyAt(s, i, a, b, n, j) && SpellsString(s, a, b, e.key) && PaddedTree(s, n + 1, j, e.tree)
  }

  ghost predicate AreEntries(s: string, i: nat, j: nat, entries: seq<Entry>)
    decreases entries, 3
  {
    if entries == [] then White(s, i, j)
    else if |entries| == 1 then IsEntry(s, i, j, entries[0])
    else exists n: nat :: Comma(s, i, n, j) && IsEntry(s, i, n, entries[0]) && AreEntries(s, n + 1, j, entries[1..])
  }

  // ---------------------------------------------------------------- what is wrong with a tree

  /** The first thing wrong in the order of the text: too deep, null, or a key that stood in its object before. */
  function Refusal(t: Tree, depth: nat): Option<JsonError> {
    if depth > 128 then Some(NestingLimit)
    else match t
      case Null => Some(NullForbidden)
      case List(items) => ItemsRefusal(items, depth + 1)
      case Table(entries) => EntriesRefusal(entries, {}, depth + 1)
      case _ => None
  }

  function ItemsRefusal(items: seq<Tree>, depth: nat): Option<JsonError> {
    if items == [] then None
    else if Refusal(items[0], depth).Some? then Refusal(items[0], depth)
    else ItemsRefusal(items[1..], depth)
  }

  function EntriesRefusal(entries: seq<Entry>, seen: set<string>, depth: nat): Option<JsonError> {
    if entries == [] then None
    else if entries[0].key in seen then Some(DuplicateKey)
    else if Refusal(entries[0].tree, depth).Some? then Refusal(entries[0].tree, depth)
    else EntriesRefusal(entries[1..], seen + {entries[0].key}, depth)
  }

  /** The answer is the refusal, or success up to `j`. */
  predicate Answers<T>(r: Reading<T>, refusal: Option<JsonError>, j: nat) {
    match refusal
    case Some(e) => r == Failure(e)
    case None => r.Success? && r.value.next == j
  }

  // ---------------------------------------------------------------- every tree is answered

  lemma TreeStarts(s: string, i: nat, j: nat, t: Tree)
    requires IsTree(s, i, j, t)
    ensures i < j <= |s| && !IsSpace(s[i]) && s[i] != ']' && s[i] != '}'
  {
    hide AreTrees, AreEntries, SpellsText;
    match t
    case Digits(token) => NumberChars(token); assert s[i] == token[0];
    case Null => assert s[i] == "null"[0];
    case Truth(truth) => assert s[i] == (if truth then "true" else "false")[0];
    case _ =>
  }

  lemma TooDeep(s: string, i: nat, t: Tree, depth: nat)
    requires i <= |s| && depth > 128
    ensures Refusal(t, depth) == Some(NestingLimit) && ReadValue(s, i, depth) == Failure(NestingLimit)
  {
  }

  lemma NullAnswered(s: string, i: nat, depth: nat)
    requires depth <= 128 && At(s, i, "null") && Ends(s, i + 4)
    ensures ReadValue(s, i, depth) == Failure(NullForbidden)
  {
    hide ReadItems, ReadMembers, ReadString, ReadNumber, ReadLiteral, IsDigit;
    assert s[i] == "null"[0];
  }

  /** A text of a tree, behind any whitespace and before a boundary, is answered as the tree says. */
  lemma {:induction false} TreeAnswered(s: string, i: nat, a: nat, j: nat, t: Tree, depth: nat)
    requires White(s, i, a) && IsTree(s, a, j, t) && Ends(s, j)
    ensures i <= |s| && Answers(ReadValue(s, i, depth), Refusal(t, depth), j)
    decreases t, 0
  {
    hide ReadValue, ReadItems, ReadMembers, AreTrees, AreEntries, SpellsString, SkipSpace, IsNumber, IsSpace;
    TreeStarts(s, a, j, t);
    if depth > 128 {
      TooDeep(s, i, t, depth);
    } else {
      SkipsWhite(s, i, a);
      ValueAfterSpace(s, i, depth);
      match t
      case Null => NullAnswered(s, a, depth);
      case Truth(truth) => ReadsBoolean(s, a, truth, depth);
      case Digits(token) => ReadsToken(s, a, token, depth);
      case Chars(text) => ReadsString(s, a, j, text, depth);
      case List(items) => ListAnswered(s, a, j, items, depth);
      case Table(entries) => TableAnswered(s, a, j, entries, depth);
    }
  }

  /** A padded tree before a structural character: if it is read, only whitespace is left before that. */
  lemma {:induction false} PaddedAnswered(s: string, i: nat, j: nat, t: Tree, depth: nat) returns (next: nat)
    requires PaddedTree(s, i, j, t) && j < |s| && (s[j] == ',' || s[j] == ']' || s[j] == '}')
    ensures i <= |s| && Answers(ReadValue(s, i, depth), Refusal(t, depth), next) && next <= j && SkipSpace(s, next) == j
    decreases t, 1
  {
    hide IsTree, ReadValue, Refusal;
    var a: nat, b: nat :| Around(s, i, a, b, j) && IsTree(s, a, b, t);
    assert Ends(s, b);
    TreeAnswered(s, i, a, b, t, depth);
    SkipsWhite(s, b, j);
    next := b;
  }

  /** The whitespace before a tree may be skipped first. */
  lemma SkipBeforeTree(s: string, i: nat, j: nat, t: Tree)
    requires PaddedTree(s, i, j, t)
    ensures i <= SkipSpace(s, i) < j <= |s| && PaddedTree(s, SkipSpace(s, i), j, t)
    ensures s[SkipSpace(s, i)] != ']'
  {
    hide IsTree;
    var a: nat, b: nat :| Around(s, i, a, b, j) && IsTree(s, a, b, t);
    TreeStarts(s, a, b, t);
    SkipsWhite(s, i, a);
    assert Around(s, a, a, b, j);
  }

  lemma TreesAfterSpace(s: string, i: nat, j: nat, items: seq<Tree>)
    requires i <= |s| && items != [] && AreTrees(s, i, j, items)
    ensures i <= SkipSpace(s, i) < |s| && s[SkipSpace(s, i)] != ']' && AreTrees(s, SkipSpace(s, i), j, items)
  {
    hide PaddedTree;
    if |items| == 1 {
      SkipBeforeTree(s, i, j, items[0]);
    } else {
      var n: nat :| Comma(s, i, n, j) && PaddedTree(s, i, n, items[0]) && AreTrees(s, n + 1, j, items[1..]);
      SkipBeforeTree(s, i, n, items[0]);
      assert Comma(s, SkipSpace(s, i), n, j);
    }
  }

  lemma {:induction false} ListAnswered(s: string, i: nat, j: nat, items: seq<Tree>, depth: nat)
    requires depth <= 128 && IsTree(s, i, j, List(items))
    ensures Answers(ReadValue(s, i, depth), ItemsRefusal(items, depth + 1), j)
    decreases items, 3
  {
    hide ReadValue, ReadItems, ReadMembers, PaddedTree, Refusal;
    OpensArray(s, i, depth);
    if items == [] {
      SkipsWhite(s, i + 1, j - 1);
    } else {
      TreesAfterSpace(s, i + 1, j - 1, items);
      ItemsAnswered(s, SkipSpace(s, i + 1), j - 1, items, depth, []);
    }
  }

  lemma {:induction false} ItemsAnswered(s: string, i: nat, j: nat, items: seq<Tree>, depth: nat, read: seq<Value>)
    requires items != [] && depth <= 128 && GoodItems(read, depth + 1)
    requires i <= |s| && AreTrees(s, i, j, items) && Stands(s, j, ']')
    ensures Answers(ReadItems(s, i, depth, read), ItemsRefusal(items, depth + 1), j + 1)
    decreases items, 2
  {
    hide ReadValue, ReadItems, ReadMembers, WellFormed, Within, PaddedTree, Refusal, SkipSpace;
    JsonProgram.ItemStep(s, i, depth, read);
    if |items| == 1 {
      var next := PaddedAnswered(s, i, j, items[0], depth + 1);
    } else {
      var n: nat :| Comma(s, i, n, j) && PaddedTree(s, i, n, items[0]) && AreTrees(s, n + 1, j, items[1..]);
      var next := PaddedAnswered(s, i, n, items[0], depth + 1);
      if Refusal(items[0], depth + 1).None? {
        ItemsAnswered(s, n + 1, j, items[1..], depth, read + [ReadValue(s, i, depth + 1).value.value]);
      }
    }
  }

  lemma EntryAfterSpace(s: string, i: nat, j: nat, e: Entry)
    requires IsEntry(s, i, j, e)
    ensures i <= SkipSpace(s, i) < j <= |s| && s[SkipSpace(s, i)] == '"' && IsEntry(s, SkipSpace(s, i), j, e)
  {
    hide PaddedTree, SpellsText;
    var a: nat, b: nat, n: nat :| KeyAt(s, i, a, b, n, j) && SpellsString(s, a, b, e.key) && PaddedTree(s, n + 1, j, e.tree);
    SkipsWhite(s, i, a);
    SomeTree(s, n + 1, j, e.tree);
    assert KeyAt(s, a, a, b, n, j);
  }

  lemma SomeTree(s: string, i: nat, j: nat, t: Tree)
    requires PaddedTree(s, i, j, t)
    ensures i < j <= |s|
  {
    SkipBeforeTree(s, i, j, t);
  }

  lemma EntriesAfterSpace(s: string, i: nat, j: nat, entries: seq<Entry>)
    requires i <= |s| && entries != [] && AreEntries(s, i, j, entries)
    ensures i <= SkipSpace(s, i) < |s| && s[SkipSpace(s, i)] != '}' && AreEntries(s, SkipSpace(s, i), j, entries)
  {
    hide IsEntry;
    if |entries| == 1 {
      EntryAfterSpace(s, i, j, entries[0]);
    } else {
      var n: nat :| Comma(s, i, n, j) && IsEntry(s, i, n, entries[0]) && AreEntries(s, n + 1, j, entries[1..]);
      EntryAfterSpace(s, i, n, entries[0]);
      assert Comma(s, SkipSpace(s, i), n, j);
    }
  }

  lemma {:induction false} TableAnswered(s: string, i: nat, j: nat, entries: seq<Entry>, depth: nat)
    requires depth <= 128 && IsTree(s, i, j, Table(entries))
    ensures Answers(ReadValue(s, i, depth), EntriesRefusal(entries, {}, depth + 1), j)
    decreases entries, 5
  {
    hide ReadValue, ReadItems, ReadMembers, IsEntry, Refusal;
    OpensObject(s, i, depth);
    if entries == [] {
      SkipsWhite(s, i + 1, j - 1);
    } else {
      EntriesAfterSpace(s, i + 1, j - 1, entries);
      EntriesAnswered(s, SkipSpace(s, i + 1), j - 1, entries, depth, [], {});
    }
  }

  /** A spelled key is read unless it stood before, and then it is refused for that. */
  lemma KeyAnswered(s: string, i: nat, a: nat, b: nat, n: nat, j: nat, read: seq<Member>, key: string)
    requires KeyAt(s, i, a, b, n, j) && SpellsString(s, a, b, key)
    ensures i <= |s| && ReadKey(s, i, read) == if HasKey(read, key) then Failure(DuplicateKey) else Success(Parsed(key, n + 1))
  {
    hide ReadString, SpellsText;
    SkipsWhite(s, i, a);
    ReadStringExactly(s, a, b, key);
    SkipsWhite(s, b, n);
  }

  /** One entry: its key and then its value are answered, and what follows is found at the end. */
  lemma {:induction false} EntryAnswered(s: string, i: nat, j: nat, e: Entry, depth: nat, read: seq<Member>)
    returns (colon: nat, next: nat)
    requires i <= |s| && IsEntry(s, i, j, e) && j < |s| && (s[j] == ',' || s[j] == '}')
    ensures colon < |s| && ReadKey(s, i, read) == if HasKey(read, e.key) then Failure(DuplicateKey) else Success(Parsed(e.key, colon + 1))
    ensures Answers(ReadValue(s, colon + 1, depth), Refusal(e.tree, depth), next) && next <= j && SkipSpace(s, next) == j
    decreases e, 3
  {
    hide ReadValue, ReadKey, PaddedTree, SpellsString, Refusal;
    var a: nat, b: nat, n: nat :| KeyAt(s, i, a, b, n, j) && SpellsString(s, a, b, e.key) && PaddedTree(s, n + 1, j, e.tree);
    KeyAnswered(s, i, a, b, n, j, read, e.key);
    next := PaddedAnswered(s, n + 1, j, e.tree, depth);
    colon := n;
  }

  lemma {:induction false} EntriesAnswered(s: string, i: nat, j: nat, entries: seq<Entry>, depth: nat, read: seq<Member>, seen: set<string>)
    requires entries != [] && depth <= 128 && GoodMembers(read, depth + 1) && forall k :: k in seen <==> HasKey(read, k)
    requires i <= |s| && AreEntries(s, i, j, entries) && Stands(s, j, '}')
    ensures Answers(ReadMembers(s, i, depth, read), EntriesRefusal(entries, seen, depth + 1), j + 1)
    decreases entries, 4
  {
    hide ReadValue, ReadItems, ReadMembers, ReadKey, IsEntry, WellFormed, Within, Refusal, SkipSpace;
    JsonProgram.MemberStep(s, i, depth, read);
    var e := entries[0];
    if |entries| == 1 {
      var colon, next := EntryAnswered(s, i, j, e, depth + 1, read);
    } else {
      var n: nat :| Comma(s, i, n, j) && IsEntry(s, i, n, e) && AreEntries(s, n + 1, j, entries[1..]);
      var colon, next := EntryAnswered(s, i, n, e, depth + 1, read);
      if e.key !in seen && Refusal(e.tree, depth + 1).None? {
        var m := Member(e.key, ReadValue(s, colon + 1, depth + 1).value.value);
        JsonProgram.KeysGrow(read, m, seen);
        EntriesAnswered(s, n + 1, j, entries[1..], depth, read + [m], seen + {e.key});
      }
    }
  }

  // ---------------------------------------------------------------- the theorems

  /** A JSON text is accepted exactly when nothing is wrong with its tree, and otherwise refused for the first thing that is. */
  lemma RefusedExactly(s: string, t: Tree)
    requires PaddedTree(s, 0, |s|, t)
    ensures match Refusal(t, 0)
            case None => Parse(s).Success?
            case Some(e) => Parse(s) == Failure(e)
  {
    hide ReadValue, IsTree, Refusal;
    var a: nat, b: nat :| Around(s, 0, a, b, |s|) && IsTree(s, a, b, t);
    TreeStarts(s, a, b, t);
    SkipsWhite(s, 0, a);
    EndsAtSpace(s, b);
    SkipsWhite(s, b, |s|);
    TreeAnswered(s, a, a, b, t, 0);
  }

  /** No tree is refused as a syntax error or for a number. */
  lemma {:induction false} RefusalKinds(t: Tree, depth: nat)
    ensures Refusal(t, depth) in {None, Some(NestingLimit), Some(NullForbidden), Some(DuplicateKey)}
    decreases t, 0
  {
    match t
    case List(items) => ItemsRefusalKinds(items, depth + 1);
    case Table(entries) => EntriesRefusalKinds(entries, {}, depth + 1);
    case _ =>
  }

  lemma {:induction false} ItemsRefusalKinds(items: seq<Tree>, depth: nat)
    ensures ItemsRefusal(items, depth) in {None, Some(NestingLimit), Some(NullForbidden), Some(DuplicateKey)}
    decreases items, 1
  {
    hide Refusal;
    if items != [] {
      RefusalKinds(items[0], depth);
      ItemsRefusalKinds(items[1..], depth);
    }
  }

  lemma {:induction false} EntriesRefusalKinds(entries: seq<Entry>, seen: set<string>, depth: nat)
    ensures EntriesRefusal(entries, seen, depth) in {None, Some(NestingLimit), Some(NullForbidden), Some(DuplicateKey)}
    decreases entries, 1
  {
    hide Refusal;
    if entries != [] {
      RefusalKinds(entries[0].tree, depth);
      EntriesRefusalKinds(entries[1..], seen + {entries[0].key}, depth);
    }
  }

  /** What is refused as a syntax error is no JSON text. */
  lemma SyntaxMeansNoText(s: string, t: Tree)
    requires Parse(s) == Failure(Syntax)
    ensures !PaddedTree(s, 0, |s|, t)
  {
    if PaddedTree(s, 0, |s|, t) {
      RefusedExactly(s, t);
      RefusalKinds(t, 0);
    }
  }
}
