/**
 What the parser reads, as functions of the text, the place and the depth: the grammar of RFC 8259
 without null, with no key twice in an object and at most 128 containers around a value.
 */
module JsonGrammar {
  import opened DecimalNumbers
  import opened JsonStrings
  import opened JsonValues
  import opened Texts
  import opened Wrappers

  /** A value read and the place after it. */
  datatype Parsed<+T> = Parsed(value: T, next: nat)

  type Reading<+T> = Result<Parsed<T>, JsonError>

  predicate IsSpace(c: char) { c == ' ' || c == '\n' || c == '\r' || c == '\t' }

  predicate IsBoundary(c: char) { IsSpace(c) || c == ',' || c == ']' || c == '}' }

  /** Nothing, or a character that ends a literal or a number, stands at `i`. */
  predicate Ends(s: string, i: nat) { i >= |s| || IsBoundary(s[i]) }

  predicate Stands(s: string, i: nat, c: char) { i < |s| && s[i] == c }

  function SkipSpace(s: string, i: nat): (r: nat)
    requires i <= |s|
    ensures i <= r <= |s|
    decreases |s| - i
  {
    if i < |s| && IsSpace(s[i]) then SkipSpace(s, i + 1) else i
  }

  /** The place of the closing quote of a string whose content starts at `i`. */
  function ScanString(s: string, i: nat): (r: Result<nat, JsonError>)
    requires i <= |s|
    ensures r.Success? ==> i <= r.value < |s|
    decreases |s| - i
  {
    if i == |s| then Failure(Syntax)
    else if s[i] == '"' then Success(i)
    else if s[i] == '\\' then (if i + 1 == |s| then Failure(Syntax) else ScanString(s, i + 2))
    else if IsControl(s[i]) then Failure(Syntax)
    else ScanString(s, i + 1)
  }

  function ReadString(s: string, i: nat): (r: Reading<string>)
    requires Stands(s, i, '"')
    ensures r.Success? ==> i < r.value.next <= |s|
  {
    match ScanString(s, i + 1)
    case Failure(e) => Failure(e)
    case Success(end) =>
      match Unescape(s[i + 1..end])
      case None => Failure(Syntax)
      case Some(text) => Success(Parsed(text, end + 1))
  }

  function NumberEnd(s: string, i: nat): (r: nat)
    requires i <= |s|
    ensures i <= r <= |s|
    decreases |s| - i
  {
    if Ends(s, i) then i else NumberEnd(s, i + 1)
  }

  function ReadNumber(s: string, i: nat): (r: Reading<Value>)
    requires i <= |s|
    ensures r.Success? ==> i < r.value.next <= |s|
  {
    var end := NumberEnd(s, i);
    if IsNumber(s[i..end]) then Success(Parsed(Number(s[i..end]), end)) else Failure(Syntax)
  }

  predicate StandsLiteral(s: string, i: nat, literal: string) {
    At(s, i, literal) && Ends(s, i + |literal|)
  }

  function ReadLiteral(s: string, i: nat, literal: string, value: Value): Reading<Value> {
    if StandsLiteral(s, i, literal) then Success(Parsed(value, i + |literal|)) else Failure(Syntax)
  }

  function ReadNull(s: string, i: nat): Reading<Value> {
    if StandsLiteral(s, i, "null") then Failure(NullForbidden) else Failure(Syntax)
  }

  function ReadValue(s: string, i: nat, depth: nat): (r: Reading<Value>)
    requires i <= |s|
    ensures r.Success? ==> i < r.value.next <= |s| && WellFormed(r.value.value) && Within(r.value.value, depth)
    decreases |s| - i, 0
  {
    if depth > MAX_NESTING_DEPTH then Failure(NestingLimit)
    else
      var j := SkipSpace(s, i);
      if j == |s| then Failure(Syntax)
      else if s[j] == '{' then
        var k := SkipSpace(s, j + 1);
        if Stands(s, k, '}') then Success(Parsed(Object([]), k + 1)) else ReadMembers(s, k, depth, [])
      else if s[j] == '[' then
        var k := SkipSpace(s, j + 1);
        if Stands(s, k, ']') then Success(Parsed(Array([]), k + 1)) else ReadItems(s, k, depth, [])
      else if s[j] == '"' then
        match ReadString(s, j)
        case Failure(e) => Failure(e)
        case Success(p) => Success(Parsed(Text(p.value), p.next))
      else if s[j] == 't' then ReadLiteral(s, j, "true", Boolean(true))
      else if s[j] == 'f' then ReadLiteral(s, j, "false", Boolean(false))
      else if s[j] == 'n' then ReadNull(s, j)
      else if s[j] == '-' || IsDigit(s[j]) then ReadNumber(s, j)
      else Failure(Syntax)
  }

  predicate GoodItems(items: seq<Value>, depth: nat) {
    forall i :: 0 <= i < |items| ==> WellFormed(items[i]) && Within(items[i], depth)
  }

  predicate GoodMembers(members: seq<Member>, depth: nat) {
    KeysDistinct(members) && forall i :: 0 <= i < |members| ==> WellFormed(members[i].value) && Within(members[i].value, depth)
  }

  /** The rest of an array of which `items` have been read. */
  function ReadItems(s: string, i: nat, depth: nat, items: seq<Value>): (r: Reading<Value>)
    requires i <= |s| && depth <= MAX_NESTING_DEPTH && GoodItems(items, depth + 1)
    ensures r.Success? ==> i < r.value.next <= |s| && WellFormed(r.value.value) && Within(r.value.value, depth)
    decreases |s| - i, 1
  {
    match ReadValue(s, i, depth + 1)
    case Failure(e) => Failure(e)
    case Success(p) =>
      var j := SkipSpace(s, p.next);
      if Stands(s, j, ']') then Success(Parsed(Array(items + [p.value]), j + 1))
      else if Stands(s, j, ',') then ReadItems(s, j + 1, depth, items + [p.value])
      else Failure(Syntax)
  }

  /** The rest of an object of which `members` have been read. */
  function ReadMembers(s: string, i: nat, depth: nat, members: seq<Member>): (r: Reading<Value>)
    requires i <= |s| && depth <= MAX_NESTING_DEPTH && GoodMembers(members, depth + 1)
    ensures r.Success? ==> i < r.value.next <= |s| && WellFormed(r.value.value) && Within(r.value.value, depth)
    decreases |s| - i, 1
  {
    match ReadKey(s, i, members)
    case Failure(e) => Failure(e)
    case Success(key) =>
      match ReadValue(s, key.next, depth + 1)
      case Failure(e) => Failure(e)
      case Success(p) =>
        var j := SkipSpace(s, p.next);
        var read := members + [Member(key.value, p.value)];
        if Stands(s, j, '}') then Success(Parsed(Object(read), j + 1))
        else if Stands(s, j, ',') then ReadMembers(s, j + 1, depth, read)
        else Failure(Syntax)
  }

  /** A key not among the members so far, and its colon. */
  function ReadKey(s: string, i: nat, members: seq<Member>): (r: Reading<string>)
    requires i <= |s|
    ensures r.Success? ==> i < r.value.next <= |s| && !HasKey(members, r.value.value)
  {
    var j := SkipSpace(s, i);
    if !Stands(s, j, '"') then Failure(Syntax)
    else match ReadString(s, j)
         case Failure(e) => Failure(e)
         case Success(key) =>
           if HasKey(members, key.value) then Failure(DuplicateKey)
           else
             var k := SkipSpace(s, key.next);
             if Stands(s, k, ':') then Success(Parsed(key.value, k + 1)) else Failure(Syntax)
  }

  /** The value of a whole text. */
  function Parse(s: string): (r: Result<Value, JsonError>)
    ensures r.Success? ==> WellFormed(r.value) && Within(r.value, 0)
  {
    match ReadValue(s, SkipSpace(s, 0), 0)
    case Failure(e) => Failure(e)
    case Success(p) => if SkipSpace(s, p.next) == |s| then Success(p.value) else Failure(Syntax)
  }

  /** The canonical text of a text. */
  function Canonicalize(s: string): Result<string, JsonError> {
    match Parse(s)
    case Failure(e) => Failure(e)
    case Success(v) => Print(v)
  }
}
