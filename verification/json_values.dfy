/** JSON values as the parser builds them, their canonical text and what they denote. */
module JsonValues {
  import opened DecimalNumbers
  import opened JsonStrings
  import opened Wrappers

  datatype Member = Member(key: string, value: Value)

  /** A parsed value; a number keeps its token, an object its members in the order of the text. */
  datatype Value = Boolean(truth: bool) | Number(token: string) | Text(text: string) | Array(items: seq<Value>) | Object(members: seq<Member>)

  datatype JsonError = Syntax | DuplicateKey | NullForbidden | NestingLimit | NumberLimit

  // ---------------------------------------------------------------- keys

  /** Keys in the order of their scalar values, a shorter key before its extensions. */
  predicate KeyLess(a: string, b: string) {
    b != "" && (a == "" || a[0] < b[0] || (a[0] == b[0] && KeyLess(a[1..], b[1..])))
  }

  /** Where two keys part: they agree before `n`, and there `a` ends or has the smaller scalar value. */
  predicate PartsAt(a: string, b: string, n: nat) {
    && n <= |a| && n < |b|
    && (forall k :: 0 <= k < n ==> a[k] == b[k])
    && (n == |a| || a[n] as int < b[n] as int)
  }

  lemma {:induction false} KeyLessExactly(a: string, b: string)
    ensures KeyLess(a, b) <==> exists n: nat :: PartsAt(a, b, n)
  {
    if KeyLess(a, b) {
      if a == "" || a[0] < b[0] {
        assert PartsAt(a, b, 0);
      } else {
        KeyLessExactly(a[1..], b[1..]);
        var n: nat :| PartsAt(a[1..], b[1..], n);
        assert forall k :: 0 < k <= n ==> a[k] == a[1..][k - 1] && b[k] == b[1..][k - 1];
        assert PartsAt(a, b, n + 1);
      }
    }
    if n: nat :| PartsAt(a, b, n) {
      if n > 0 {
        assert PartsAt(a[1..], b[1..], n - 1);
        KeyLessExactly(a[1..], b[1..]);
      }
    }
  }

  lemma {:induction false} KeyOrderTotal(a: string, b: string)
    ensures KeyLess(a, b) || a == b || KeyLess(b, a)
    ensures !(KeyLess(a, b) && (a == b || KeyLess(b, a)))
  {
    if a != "" && b != "" {
      KeyOrderTotal(a[1..], b[1..]);
      assert a == [a[0]] + a[1..] && b == [b[0]] + b[1..];
    }
  }

  lemma {:induction false} KeyOrderTransitive(a: string, b: string, c: string)
    requires KeyLess(a, b) && KeyLess(b, c)
    ensures KeyLess(a, c)
  {
    if a != "" && a[0] == b[0] == c[0] { KeyOrderTransitive(a[1..], b[1..], c[1..]); }
  }

  predicate KeysDistinct(ms: seq<Member>) {
    forall i, j :: 0 <= i < j < |ms| ==> ms[i].key != ms[j].key
  }

  predicate KeysSorted(ms: seq<Member>) {
    forall i, j :: 0 <= i < j < |ms| ==> KeyLess(ms[i].key, ms[j].key)
  }

  predicate HasKey(ms: seq<Member>, key: string) {
    exists i :: 0 <= i < |ms| && ms[i].key == key
  }

  /** `m` among members sorted by key, after every smaller key. */
  function Insert(m: Member, ms: seq<Member>): seq<Member> {
    if ms == [] || KeyLess(m.key, ms[0].key) then [m] + ms else [ms[0]] + Insert(m, ms[1..])
  }

  function Sort(ms: seq<Member>): seq<Member> {
    if ms == [] then [] else Insert(ms[0], Sort(ms[1..]))
  }

  // ---------------------------------------------------------------- values

  /** What the parser guarantees: number tokens of the grammar and no key twice in one object. */
  predicate WellFormed(v: Value) {
    match v
    case Boolean(_) => true
    case Number(token) => IsNumber(token)
    case Text(_) => true
    case Array(items) => forall i :: 0 <= i < |items| ==> WellFormed(items[i])
    case Object(members) => KeysDistinct(members) && forall i :: 0 <= i < |members| ==> WellFormed(members[i].value)
  }

  const MAX_NESTING_DEPTH: nat := 128

  /** Standing at `depth`, nothing inside stands deeper than the parser allows. */
  predicate Within(v: Value, depth: nat) {
    && depth <= MAX_NESTING_DEPTH
    && match v
       case Array(items) => forall i :: 0 <= i < |items| ==> Within(items[i], depth + 1)
       case Object(members) => forall i :: 0 <= i < |members| ==> Within(members[i].value, depth + 1)
       case _ => true
  }

  // ---------------------------------------------------------------- printing

  /** Every number has a canonical text. */
  predicate Printable(v: Value)
    requires WellFormed(v)
  {
    match v
    case Number(token) => Normalize(token).Success?
    case Array(items) => forall i :: 0 <= i < |items| ==> Printable(items[i])
    case Object(members) => forall i :: 0 <= i < |members| ==> Printable(members[i].value)
    case _ => true
  }

  /** The value in canonical form: numbers normalized, members in the order of their keys. */
  function Canon(v: Value): Value
    requires WellFormed(v) && Printable(v)
  {
    match v
    case Number(token) => Number(Normalize(token).value)
    case Array(items) => Array(seq(|items|, i requires 0 <= i < |items| => Canon(items[i])))
    case Object(members) => Object(Sort(CanonMembers(members)))
    case _ => v
  }

  function CanonMembers(members: seq<Member>): (r: seq<Member>)
    requires forall i :: 0 <= i < |members| ==> WellFormed(members[i].value) && Printable(members[i].value)
    ensures |r| == |members|
    ensures forall i :: 0 <= i < |r| ==> r[i] == Member(members[i].key, Canon(members[i].value))
  {
    seq(|members|, i requires 0 <= i < |members| => Member(members[i].key, Canon(members[i].value)))
  }

  function Quoted(s: string): string { "\"" + Escape(s) + "\"" }

  /** A value as text without whitespace, tokens and members as they are. */
  function TextOf(v: Value): string {
    match v
    case Boolean(truth) => if truth then "true" else "false"
    case Number(token) => token
    case Text(text) => Quoted(text)
    case Array(items) => "[" + TextOfItems(items) + "]"
    case Object(members) => "{" + TextOfMembers(members) + "}"
  }

  function TextOfItems(items: seq<Value>): string {
    if items == [] then ""
    else if |items| == 1 then TextOf(items[0])
    else TextOf(items[0]) + "," + TextOfItems(items[1..])
  }

  function TextOfMember(m: Member): string {
    Quoted(m.key) + ":" + TextOf(m.value)
  }

  function TextOfMembers(members: seq<Member>): string {
    if members == [] then ""
    else if |members| == 1 then TextOfMember(members[0])
    else TextOfMember(members[0]) + "," + TextOfMembers(members[1..])
  }

  /** The canonical text, or the refusal of a number whose text would be too long. */
  function Print(v: Value): Result<string, JsonError>
    requires WellFormed(v)
  {
    if Printable(v) then Success(TextOf(Canon(v))) else Failure(NumberLimit)
  }

  // ---------------------------------------------------------------- meaning

  /** Objects as maps, numbers as exact rationals, strings as sequences of scalar values. */
  datatype Meaning = Truth(truth: bool) | Rational(number: real) | Scalars(text: string) | Sequence(items: seq<Meaning>) | Mapping(members: map<string, Meaning>)

  function Denote(v: Value): Meaning
    requires WellFormed(v)
  {
    match v
    case Boolean(truth) => Truth(truth)
    case Number(token) => Rational(TokenValue(token))
    case Text(text) => Scalars(text)
    case Array(items) => Sequence(seq(|items|, i requires 0 <= i < |items| => Denote(items[i])))
    case Object(members) => Mapping(DenoteMembers(members))
  }

  function DenoteMembers(members: seq<Member>): map<string, Meaning>
    requires forall i :: 0 <= i < |members| ==> WellFormed(members[i].value)
  {
    if members == [] then map[] else DenoteMembers(members[1..])[members[0].key := Denote(members[0].value)]
  }
}
