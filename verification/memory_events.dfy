/**
 The event history of one memory record: an unordered list of events is accepted exactly when it can
 be arranged as one chain from a confirmation to the state the record shows.
 */
module MemoryEvents {
  import opened CoreModel
  import opened Wrappers

  datatype State = Confirmed | Superseded | Contradicted | Retracted | Expired

  datatype EventType = Confirm | Supersede | Contradict | Retract | Expire {
    function ToState(): State {
      match this
      case Confirm => Confirmed
      case Supersede => Superseded
      case Contradict => Contradicted
      case Retract => Retracted
      case Expire => Expired
    }
  }

  datatype Event = Event(
    id: Identifier,
    space: Identifier,
    memory: Identifier,
    previous: Option<Identifier>,
    kind: EventType,
    from: Option<State>,
    cause: EvidenceType,
    causeId: Identifier,
    related: seq<Identifier>,
    effective: Option<string>)
  {
    function To(): State { kind.ToState() }
  }

  datatype Record = Record(space: Identifier, memory: Identifier, state: State, lastEvent: Identifier)

  // ---------------------------------------------------------------- construction

  predicate Unique(ids: seq<Identifier>) {
    forall i, j :: 0 <= i < j < |ids| ==> ids[i] != ids[j]
  }

  /** What the constructor of an event lets through. */
  predicate Built(e: Event) {
    && Unique(e.related)
    && if e.kind == Confirm then
         e.previous == None && e.from == None && e.effective == None && e.cause == MemoryDecision
       else
         e.previous.Some? && e.from == Some(Confirmed) && e.effective.Some? && e.cause != SourceFragment
  }

  method NewEvent(e: Event) returns (r: Result<Event, Reason>)
    ensures r.Success? <==> Built(e)
    ensures r.Success? <==>
              && (forall i, j :: 0 <= i < j < |e.related| ==> e.related[i] != e.related[j])
              && match e.kind
                 case Confirm => e.previous == None && e.from == None && e.effective == None && e.cause == MemoryDecision
                 case _ =>
                   && e.previous.Some? && e.from == Some(Confirmed) && e.effective.Some?
                   && (e.cause == MemoryDecision || e.cause == MemoryRecord || e.cause == DeleteRequest || e.cause == PolicyBasis)
    ensures r.Success? ==> r.value == e
    ensures r.Failure? ==> r.error == if Unique(e.related) then InvalidStateTransition else DuplicateValue
  {
    var seen: set<Identifier> := {};
    for i := 0 to |e.related|
      invariant forall k :: k in seen <==> exists j :: 0 <= j < i && e.related[j] == k
      invariant Unique(e.related[..i])
    {
      if e.related[i] in seen {
        var j :| 0 <= j < i && e.related[j] == e.related[i];
        return Failure(DuplicateValue);
      }
      seen := seen + {e.related[i]};
    }
    assert e.related[..|e.related|] == e.related;
    var valid := match e.kind
      case Confirm => e.previous.None? && e.from.None? && e.effective.None? && e.cause == MemoryDecision
      case _ => e.previous.Some? && e.from == Some(Confirmed) && e.effective.Some?
                && (e.cause == MemoryDecision || e.cause == MemoryRecord || e.cause == DeleteRequest || e.cause == PolicyBasis);
    if !valid { return Failure(InvalidStateTransition); }
    return Success(e);
  }

  // ---------------------------------------------------------------- chains

  predicate IdsDistinct(events: seq<Event>) {
    forall i, j :: 0 <= i < j < |events| ==> events[i].id != events[j].id
  }

  /** `e` continues a chain that ends in `last`. */
  predicate Follows(last: Event, e: Event) {
    e.previous == Some(last.id) && e.from == Some(last.To())
  }

  /** One unbranched line of events from a confirmation without a predecessor. */
  predicate IsChain(c: seq<Event>) {
    && c != [] && IdsDistinct(c)
    && c[0].previous == None && c[0].kind == Confirm
    && forall i :: 0 < i < |c| ==> Follows(c[i - 1], c[i])
  }

  /** `c` arranges exactly the given events as a chain. */
  ghost predicate Arranges(c: seq<Event>, events: seq<Event>) {
    IsChain(c) && multiset(c) == multiset(events)
  }

  lemma ArrangedMembers(c: seq<Event>, events: seq<Event>)
    requires Arranges(c, events)
    ensures |c| == |events| && forall e :: e in c <==> e in events
  {
    assert |multiset(c)| == |c| && |multiset(events)| == |events|;
    forall e ensures e in c <==> e in events { assert e in multiset(c) <==> e in multiset(events); }
  }

  ghost predicate HasChain(events: seq<Event>) {
    exists c :: Arranges(c, events)
  }

  /** In a chain, a place is found from the identity of the event before it. */
  lemma SamePlace(c: seq<Event>, i: nat, j: nat)
    requires IsChain(c) && 0 < i < |c| && j < |c| && c[i].previous == Some(c[j].id)
    ensures i == j + 1
  {
    assert Follows(c[i - 1], c[i]);
  }

  lemma LaterHavePrevious(c: seq<Event>)
    requires IsChain(c)
    ensures forall i :: 0 < i < |c| ==> c[i].previous.Some? && c[i].from == Some(c[i - 1].To())
  {
    forall i | 0 < i < |c| ensures c[i].previous.Some? && c[i].from == Some(c[i - 1].To()) { assert Follows(c[i - 1], c[i]); }
  }

  /** A list of events has at most one arrangement. */
  lemma ChainUnique(c: seq<Event>, d: seq<Event>, events: seq<Event>)
    requires Arranges(c, events) && Arranges(d, events)
    ensures c == d
  {
    ArrangedMembers(c, events);
    ArrangedMembers(d, events);
    PrefixOfAny(c, d, |c|);
    assert c[..|c|] == c && d[..|c|] == d;
  }

  lemma {:induction false} PrefixOfAny(c: seq<Event>, d: seq<Event>, n: nat)
    requires IsChain(c) && IsChain(d) && n <= |c| == |d| && forall e :: e in c <==> e in d
    ensures c[..n] == d[..n]
  {
    if n > 0 {
      PrefixOfAny(c, d, n - 1);
      assert c[n - 1] in d;
      var j :| 0 <= j < |d| && d[j] == c[n - 1];
      if n > 1 {
        assert Follows(c[n - 2], c[n - 1]);
        assert c[n - 2] == c[..n - 1][n - 2] == d[..n - 1][n - 2] == d[n - 2];
        SamePlace(d, j, n - 2);
      } else {
        LaterHavePrevious(d);
      }
      assert c[..n] == c[..n - 1] + [c[n - 1]] && d[..n] == d[..n - 1] + [d[n - 1]];
    }
  }

  // ---------------------------------------------------------------- verdict

  /** The first event of another record, another namespace or with an identity seen before. */
  function EntryError(record: Record, events: seq<Event>, seen: set<Identifier>): Option<Reason> {
    if events == [] then None
    else if events[0].space != record.space then Some(NamespaceMismatch)
    else if events[0].memory != record.memory then Some(IdentityMismatch)
    else if events[0].id in seen then Some(DuplicateObject)
    else EntryError(record, events[1..], seen + {events[0].id})
  }

  /** The events are all the record's own, each identity once. */
  predicate Entered(record: Record, events: seq<Event>) {
    && IdsDistinct(events)
    && forall i :: 0 <= i < |events| ==> events[i].space == record.space && events[i].memory == record.memory
  }

  lemma {:induction false} EntryAccepts(record: Record, events: seq<Event>, seen: set<Identifier>)
    ensures EntryError(record, events, seen) == None <==>
              Entered(record, events) && forall i :: 0 <= i < |events| ==> events[i].id !in seen
  {
    if events != [] {
      EntryAccepts(record, events[1..], seen + {events[0].id});
      assert events == [events[0]] + events[1..];
    }
  }

  predicate Shows(record: Record, last: Event) {
    record.state == last.To() && record.lastEvent == last.id
  }

  /** The verdict the design asks for, without any walk. */
  ghost function Verdict(record: Record, events: seq<Event>): Result<(), Reason> {
    if events == [] then Failure(MissingReference)
    else match EntryError(record, events, {})
         case Some(e) => Failure(e)
         case None =>
           if !HasChain(events) then Failure(EventChainConflict)
           else
             var c :| Arranges(c, events);
             if Shows(record, c[|c| - 1]) then Success(()) else Failure(StateProjectionMismatch)
  }

  /** Acceptance: one chain through every event, ending in what the record shows. */
  ghost predicate Accepted(record: Record, events: seq<Event>) {
    Entered(record, events) && exists c :: Arranges(c, events) && Shows(record, c[|c| - 1])
  }

  lemma VerdictAccepts(record: Record, events: seq<Event>)
    ensures Verdict(record, events).Success? <==> Accepted(record, events)
  {
    EntryAccepts(record, events, {});
    if c :| Arranges(c, events) && Shows(record, c[|c| - 1]) {
      ArrangedMembers(c, events);
      forall d | Arranges(d, events) ensures d == c { ChainUnique(c, d, events); }
    }
  }

  /** `e` starts the history, or continues another event of it in the state that one leads to. */
  predicate Linked(events: seq<Event>, e: Event) {
    if e.previous == None then e.kind == Confirm
    else exists d :: d in events && e.previous == Some(d.id) && e.from == Some(d.kind.ToState())
  }

  /** `e` is what the record shows, and nothing continues it. */
  predicate IsLast(record: Record, events: seq<Event>, e: Event) {
    && e in events && e.id == record.lastEvent && e.kind.ToState() == record.state
    && forall d :: d in events ==> d.previous != Some(e.id)
  }

  /** What acceptance says of every event by itself, wherever it is listed. */
  lemma AcceptedLinks(record: Record, events: seq<Event>)
    requires Accepted(record, events)
    ensures forall e :: e in events ==> e.space == record.space && e.memory == record.memory && Linked(events, e)
    ensures forall d, e :: d in events && e in events && (d.previous == e.previous || d.id == e.id) ==> d == e
    ensures exists e :: IsLast(record, events, e)
  {
    var c: seq<Event> :| Arranges(c, events) && Shows(record, c[|c| - 1]);
    ArrangedMembers(c, events);
    LaterHavePrevious(c);
    forall i | 0 <= i < |c| ensures Linked(events, c[i]) {
      if i > 0 { assert Follows(c[i - 1], c[i]) && c[i - 1] in events; }
    }
    forall i, j | 0 <= i < |c| && 0 <= j < |c| && (c[i].previous == c[j].previous || c[i].id == c[j].id) ensures i == j {
      if i > 0 && j > 0 && c[i].previous == c[j].previous { assert Follows(c[i - 1], c[i]) && Follows(c[j - 1], c[j]); }
    }
    forall i | 0 < i < |c| ensures c[i].previous != Some(c[|c| - 1].id) { assert Follows(c[i - 1], c[i]); }
    assert c[|c| - 1] in events;
    assert IsLast(record, events, c[|c| - 1]);
  }

  /** The order in which the events are listed does not matter. */
  lemma AcceptedInAnyOrder(record: Record, a: seq<Event>, b: seq<Event>)
    requires multiset(a) == multiset(b)
    ensures Verdict(record, a).Success? <==> Verdict(record, b).Success?
  {
    VerdictAccepts(record, a);
    VerdictAccepts(record, b);
    if Accepted(record, a) { AcceptedReordered(record, a, b); }
    if Accepted(record, b) { AcceptedReordered(record, b, a); }
  }

  lemma AcceptedReordered(record: Record, a: seq<Event>, b: seq<Event>)
    requires multiset(a) == multiset(b) && Accepted(record, a)
    ensures Accepted(record, b)
  {
    var c :| Arranges(c, a) && Shows(record, c[|c| - 1]);
    assert Arranges(c, b);
    ArrangedMembers(c, a);
    forall i | 0 <= i < |b| ensures b[i].space == record.space && b[i].memory == record.memory {
      assert b[i] in multiset(b);
      assert b[i] in a;
    }
    forall i, j | 0 <= i < j < |b| ensures b[i].id != b[j].id { DistinctPlaces(c, b, i, j); }
  }

  lemma DistinctPlaces(c: seq<Event>, b: seq<Event>, i: nat, j: nat)
    requires IdsDistinct(c) && multiset(c) == multiset(b) && i < j < |b|
    ensures b[i].id != b[j].id
  {
    if b[i].id == b[j].id {
      assert b[i] in multiset(b) && b[j] in multiset(b);
      assert b[i] in c && b[j] in c;
      assert b[i] == b[j];
      assert b == b[..j] + [b[j]] + b[j + 1..];
      assert b[i] in b[..j];
      assert multiset(b)[b[i]] >= 2;
      OnceInDistinct(c, b[i]);
      assert false;
    }
  }

  lemma {:induction false} OnceInDistinct(c: seq<Event>, e: Event)
    requires IdsDistinct(c)
    ensures multiset(c)[e] <= 1
  {
    if c != [] {
      OnceInDistinct(c[1..], e);
      assert c == [c[0]] + c[1..];
      if e == c[0] { assert e !in c[1..]; }
    }
  }

  // ---------------------------------------------------------------- built events

  /** With events the constructor built, a chain has at most two links and only confirmation continues. */
  lemma BuiltChainsAreShort(record: Record, events: seq<Event>)
    requires Accepted(record, events) && forall e :: e in events ==> Built(e)
    ensures |events| <= 2 && (record.state == Confirmed <==> |events| == 1)
  {
    var c :| Arranges(c, events) && Shows(record, c[|c| - 1]);
    ArrangedMembers(c, events);
    LaterHavePrevious(c);
    if |c| > 1 {
      var last := |c| - 1;
      assert c[last] in events && c[last - 1] in events;
      assert last == 1;
    }
  }

  /** What ended a record shows in its state: each kind of event leads to its own. */
  lemma StateShowsTheEnd(record: Record, events: seq<Event>, e: Event)
    requires Accepted(record, events) && (forall x :: x in events ==> Built(x)) && e in events && e.kind != Confirm
    ensures e.kind == Supersede <==> record.state == Superseded
    ensures e.kind == Contradict <==> record.state == Contradicted
    ensures e.kind == Retract <==> record.state == Retracted
    ensures e.kind == Expire <==> record.state == Expired
  {
    BuiltChainsAreShort(record, events);
    var c :| Arranges(c, events) && Shows(record, c[|c| - 1]);
    ArrangedMembers(c, events);
    var i :| 0 <= i < |c| && c[i] == e;
  }

  /** A record in any other state than confirmed is final: no further built event is ever accepted. */
  lemma OtherStatesAreTerminal(record: Record, events: seq<Event>, after: Record, e: Event)
    requires Accepted(record, events) && (forall x :: x in events ==> Built(x)) && Built(e)
    requires record.state != Confirmed
    ensures !Accepted(after, events + [e])
  {
    BuiltChainsAreShort(record, events);
    if Accepted(after, events + [e]) { BuiltChainsAreShort(after, events + [e]); }
  }

  // ---------------------------------------------------------------- the program

  function Initials(events: seq<Event>): seq<Event> {
    if events == [] then []
    else if events[0].previous.None? then [events[0]] + Initials(events[1..])
    else Initials(events[1..])
  }

  function Followers(events: seq<Event>, id: Identifier): seq<Event> {
    if events == [] then []
    else if events[0].previous == Some(id) then [events[0]] + Followers(events[1..], id)
    else Followers(events[1..], id)
  }

  lemma {:induction false} InitialsContents(events: seq<Event>)
    requires IdsDistinct(events)
    ensures IdsDistinct(Initials(events)) && forall e :: e in Initials(events) <==> e in events && e.previous == None
  {
    if events != [] {
      InitialsContents(events[1..]);
      assert events == [events[0]] + events[1..];
    }
  }

  lemma {:induction false} FollowersContents(events: seq<Event>, id: Identifier)
    requires IdsDistinct(events)
    ensures IdsDistinct(Followers(events, id))
    ensures forall e :: e in Followers(events, id) <==> e in events && e.previous == Some(id)
  {
    if events != [] {
      FollowersContents(events[1..], id);
      assert events == [events[0]] + events[1..];
    }
  }

  lemma OnlyOne(s: seq<Event>, e: Event)
    requires IdsDistinct(s) && e in s && forall x :: x in s ==> x == e
    ensures s == [e]
  {
    assert s[|s| - 1] in s && s[0] in s;
  }

  /** A walk so far: a chain through some of the events with which every arrangement begins. */
  ghost predicate Walked(c: seq<Event>, events: seq<Event>) {
    && IsChain(c) && (forall e :: e in c ==> e in events)
    && forall d :: Arranges(d, events) ==> c <= d
  }

  lemma WalkStarts(events: seq<Event>)
    requires IdsDistinct(events)
    ensures var initials := Initials(events);
            if |initials| == 1 && initials[0].kind == Confirm then Walked(initials, events) else !HasChain(events)
  {
    var initials := Initials(events);
    InitialsContents(events);
    forall d | Arranges(d, events) ensures |initials| == 1 && initials[0] == d[0] {
      ArrangedMembers(d, events);
      LaterHavePrevious(d);
      assert d[0] in initials;
      forall e | e in initials ensures e == d[0] { assert e in d; }
      OnlyOne(initials, d[0]);
    }
    if |initials| == 1 { assert initials[0] in initials; }
  }

  /** Only one event can be next, and in every arrangement it is. */
  lemma NextInArrangement(c: seq<Event>, d: seq<Event>, events: seq<Event>)
    requires IdsDistinct(events) && IsChain(c) && Arranges(d, events) && c <= d
    ensures Followers(events, c[|c| - 1].id) == if c == d then [] else [d[|c|]]
  {
    var last := c[|c| - 1];
    var next := Followers(events, last.id);
    FollowersContents(events, last.id);
    ArrangedMembers(d, events);
    forall e | e in next ensures |c| < |d| && e == d[|c|] {
      var i :| 0 <= i < |d| && d[i] == e;
      SamePlace(d, if i > 0 then i else i, |c| - 1);
    }
    if c != d {
      assert Follows(d[|c| - 1], d[|c|]);
      assert d[|c|] in next;
      OnlyOne(next, d[|c|]);
    }
    if next != [] { assert next[0] in next; }
  }

  /** What every arrangement says about the events that may come next. */
  lemma NextInArrangements(c: seq<Event>, events: seq<Event>)
    requires IdsDistinct(events) && Walked(c, events)
    ensures forall d :: Arranges(d, events) ==>
              |d| == |events| && c <= d && Followers(events, c[|c| - 1].id) == if c == d then [] else [d[|c|]]
    ensures forall d :: Arranges(d, events) && c != d ==> Follows(c[|c| - 1], d[|c|])
  {
    forall d | Arranges(d, events)
      ensures |d| == |events| && c <= d && Followers(events, c[|c| - 1].id) == if c == d then [] else [d[|c|]]
    {
      NextInArrangement(c, d, events);
      ArrangedMembers(d, events);
    }
    forall d | Arranges(d, events) && c != d ensures Follows(c[|c| - 1], d[|c|]) {
      assert Follows(d[|c| - 1], d[|c|]);
    }
  }

  /** A branch, a wrong state or events left over: there is no chain. */
  lemma WalkFails(c: seq<Event>, events: seq<Event>)
    requires IdsDistinct(events) && Walked(c, events)
    requires var next := Followers(events, c[|c| - 1].id);
             |next| > 1 || (|next| == 1 && next[0].from != Some(c[|c| - 1].To())) || (next == [] && |c| != |events|)
    ensures !HasChain(events)
  {
    NextInArrangements(c, events);
  }

  lemma WalkContinues(c: seq<Event>, events: seq<Event>, e: Event)
    requires IdsDistinct(events) && Walked(c, events)
    requires Followers(events, c[|c| - 1].id) == [e] && e.from == Some(c[|c| - 1].To())
    ensures Walked(c + [e], events)
  {
    NextInArrangements(c, events);
    FollowersContents(events, c[|c| - 1].id);
    assert e in [e];
    WalkGrows(c, e, events);
    forall d | Arranges(d, events) ensures c + [e] <= d { PrefixGrows(c, d, e); }
  }

  lemma PrefixGrows(c: seq<Event>, d: seq<Event>, e: Event)
    requires c <= d && [e] == if c == d then [] else [d[|c|]]
    ensures c + [e] <= d
  {
    assert [e][0] == e;
  }

  lemma WalkEnds(c: seq<Event>, events: seq<Event>)
    requires IdsDistinct(events) && Walked(c, events) && |c| == |events|
    ensures Arranges(c, events)
  {
    WalkedFits(c, events);
  }

  lemma WalkGrows(c: seq<Event>, e: Event, events: seq<Event>)
    requires IdsDistinct(events) && Walked(c, events) && e in events && Follows(c[|c| - 1], e)
    ensures IsChain(c + [e]) && forall x :: x in c + [e] ==> x in events
  {
    LaterHavePrevious(c);
    forall i | 0 <= i < |c| ensures c[i].id != e.id {
      if c[i].id == e.id {
        assert c[i] in events;
        SameId(events, c[i], e);
        assert c[i].previous == Some(c[|c| - 1].id);
        SamePlace(c, i, |c| - 1);
        assert false;
      }
    }
  }

  lemma SameId(events: seq<Event>, a: Event, b: Event)
    requires IdsDistinct(events) && a in events && b in events && a.id == b.id
    ensures a == b
  {
  }

  /** The events without the first of the walk still hold the rest of the walk. */
  lemma WithoutFirst(c: seq<Event>, events: seq<Event>) returns (rest: seq<Event>)
    requires IdsDistinct(c) && c != [] && forall e :: e in c ==> e in events
    ensures |rest| == |events| - 1 && multiset(events) == multiset(rest) + multiset{c[0]}
    ensures IdsDistinct(c[1..]) && forall e :: e in c[1..] ==> e in rest
  {
    assert c[0] in events;
    var i :| 0 <= i < |events| && events[i] == c[0];
    rest := events[..i] + events[i + 1..];
    assert events == events[..i] + [events[i]] + events[i + 1..];
    forall e | e in c[1..] ensures e in rest { assert e in events && e.id != c[0].id; }
  }

  /** A walk visits no more events than there are, and if as many then exactly these. */
  lemma {:induction false} WalkedFits(c: seq<Event>, events: seq<Event>)
    requires IdsDistinct(c) && forall e :: e in c ==> e in events
    ensures |c| <= |events| && (|c| == |events| ==> multiset(c) == multiset(events))
  {
    if c != [] {
      var rest := WithoutFirst(c, events);
      WalkedFits(c[1..], rest);
      assert c == [c[0]] + c[1..];
    }
  }

  function SpaceCheck(record: Record, e: Event): Option<Reason> {
    if e.space != record.space then Some(NamespaceMismatch)
    else if e.memory != record.memory then Some(IdentityMismatch)
    else None
  }

  /** Indexes the events by identity. */
  method Enter(record: Record, events: seq<Event>) returns (r: Result<set<Identifier>, Reason>)
    ensures r.Failure? ==> EntryError(record, events, {}) == Some(r.error)
    ensures r.Success? ==> EntryError(record, events, {}) == None && |r.value| == |events|
  {
    var byId: set<Identifier> := {};
    for i := 0 to |events|
      invariant EntryError(record, events, {}) == EntryError(record, events[i..], byId)
      invariant |byId| == i
    {
      var e := events[i];
      assert events[i..][0] == e && events[i..][1..] == events[i + 1..];
      var wrong := SpaceCheck(record, e);
      if wrong.Some? { return Failure(wrong.value); }
      if e.id in byId { return Failure(DuplicateObject); }
      byId := byId + {e.id};
    }
    return Success(byId);
  }

  /** Walks from the initial event to the last one, or reports that the events are no chain. */
  method Walk(events: seq<Event>, count: nat) returns (r: Result<Event, Reason>)
    requires events != [] && IdsDistinct(events) && count == |events|
    ensures r.Failure? ==> r.error == EventChainConflict && !HasChain(events)
    ensures r.Success? ==> exists c :: Arranges(c, events) && r.value == c[|c| - 1]
  {
    var initials := Initials(events);
    WalkStarts(events);
    if |initials| != 1 || initials[0].kind != Confirm { return Failure(EventChainConflict); }
    var current := initials[0];
    var visited: set<Identifier> := {};
    ghost var c := [current];
    ghost var before: seq<Event> := [];
    while true
      invariant Walked(c, events) && c == before + [current] && IdsDistinct(before)
      invariant visited == Ids(before) && |visited| == |before|
      invariant |c| <= |events|
      decreases |events| - |before|
    {
      FreshId(before, current);
      if current.id in visited { return Failure(EventChainConflict); }
      visited := visited + {current.id};
      IdsGrow(before, current);
      before := c;
      var next := Followers(events, current.id);
      FollowersContents(events, current.id);
      if |next| > 1 {
        WalkFails(c, events);
        return Failure(EventChainConflict);
      }
      if next == [] { break; }
      if next[0].from != Some(current.To()) {
        WalkFails(c, events);
        return Failure(EventChainConflict);
      }
      WalkContinues(c, events, next[0]);
      current := next[0];
      c := c + [current];
      WalkedFits(c, events);
    }
    if |visited| != count {
      WalkFails(c, events);
      return Failure(EventChainConflict);
    }
    WalkEnds(c, events);
    return Success(current);
  }

  ghost function Ids(events: seq<Event>): set<Identifier> {
    set i | 0 <= i < |events| :: events[i].id
  }

  lemma FreshId(before: seq<Event>, current: Event)
    requires IdsDistinct(before + [current])
    ensures current.id !in Ids(before)
  {
    var all := before + [current];
    assert all[|before|] == current;
    assert forall i :: 0 <= i < |before| ==> all[i] == before[i];
  }

  lemma IdsGrow(before: seq<Event>, current: Event)
    ensures Ids(before + [current]) == Ids(before) + {current.id}
  {
    var all := before + [current];
    assert all[|before|] == current;
    assert forall i :: 0 <= i < |before| ==> all[i] == before[i];
  }

  /** The program's verdict is the design's. */
  method ValidateEventChain(record: Record, events: seq<Event>) returns (r: Result<(), Reason>)
    ensures r == Verdict(record, events)
    ensures r.Success? <==> Accepted(record, events)
  {
    VerdictAccepts(record, events);
    if events == [] { return Failure(MissingReference); }
    var byId := Enter(record, events);
    if byId.Failure? { return Failure(byId.error); }
    EntryAccepts(record, events, {});
    var last := Walk(events, |byId.value|);
    if last.Failure? { return Failure(last.error); }
    ghost var c :| Arranges(c, events) && last.value == c[|c| - 1];
    forall d | Arranges(d, events) ensures d == c { ChainUnique(c, d, events); }
    if record.state != last.value.To() || record.lastEvent != last.value.id { return Failure(StateProjectionMismatch); }
    return Success(());
  }
}
