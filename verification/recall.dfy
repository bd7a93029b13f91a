/**
 From sources to recall: proposals over resolved fragments, records materialized from proposals, and
 context packs over both, each under governance no weaker than what it rests on.
 */
module Recall {
  import opened CoreModel
  import opened Governances
  import E = MemoryEvents
  import opened SourceFragments
  import opened Wrappers

  /** Type, subject, content, times, confidence and importance: carried over unchanged or refused. */
  datatype Claim = Claim(kind: string, subject: string, content: string, observedAt: string, validTime: string, confidence: string, importance: string)

  datatype Proposal = Proposal(id: Identifier, space: Identifier, governance: Governance, fragments: seq<Identifier>, targets: seq<Identifier>, claim: Claim)

  datatype Decision = Decision(id: Identifier, space: Identifier, proposal: Identifier, accept: bool, result: Option<Identifier>)

  datatype Memory = Memory(
    id: Identifier, space: Identifier, governance: Governance, proposal: Identifier, decision: Identifier,
    fragments: seq<Identifier>, supersedes: seq<Identifier>, claim: Claim, state: E.State, lastEvent: Identifier)

  datatype Resolved = Resolved(fragment: Fragment, source: Source)

  predicate ResolvedValid(r: Resolved) { r.fragment.Valid() && r.source.Valid() }

  function SetOf(ids: seq<Identifier>): set<Identifier> {
    set i | 0 <= i < |ids| :: ids[i]
  }

  // ---------------------------------------------------------------- proposals

  /** The resolved fragments are exactly the ones the proposal names, each once. */
  predicate ExactIds(expected: seq<Identifier>, actual: seq<Identifier>) {
    E.Unique(actual) && SetOf(expected) == SetOf(actual)
  }

  function FragmentIds(rs: seq<Resolved>): (ids: seq<Identifier>)
    ensures |ids| == |rs| && forall i :: 0 <= i < |rs| ==> ids[i] == rs[i].fragment.id
  {
    seq(|rs|, i requires 0 <= i < |rs| => rs[i].fragment.id)
  }

  /** One resolved fragment supports the proposal. */
  predicate Supports(p: Proposal, r: Resolved)
    requires p.governance.Valid() && ResolvedValid(r)
  {
    && r.fragment.space == p.space && r.source.space == p.space
    && Resolves(r.fragment, r.source) && r.fragment.governance.deletion == Active
    && NoWeaker(p.governance, r.fragment.governance)
  }

  /** The proposal rests on exactly these fragments, and there is at least one. */
  predicate RestsOn(p: Proposal, rs: seq<Resolved>)
    requires p.governance.Valid() && forall r :: r in rs ==> ResolvedValid(r)
  {
    && rs != [] && ExactIds(p.fragments, FragmentIds(rs)) && p.governance.deletion == Active
    && forall i :: 0 <= i < |rs| ==> Supports(p, rs[i])
  }

  method RequireExactIds(expected: seq<Identifier>, actual: seq<Identifier>) returns (r: Result<(), Reason>)
    ensures r.Success? <==> ExactIds(expected, actual)
    ensures r.Failure? ==> r.error == if E.Unique(actual) then MissingReference else DuplicateObject
  {
    var actualSet: set<Identifier> := {};
    for i := 0 to |actual|
      invariant actualSet == set j | 0 <= j < i :: actual[j]
      invariant forall j, k :: 0 <= j < k < i ==> actual[j] != actual[k]
    {
      if actual[i] in actualSet { return Failure(DuplicateObject); }
      actualSet := actualSet + {actual[i]};
    }
    if SetOf(expected) != actualSet { return Failure(MissingReference); }
    return Success(());
  }

  method ValidateProposalSources(p: Proposal, rs: seq<Resolved>) returns (r: Result<(), Reason>)
    requires p.governance.Valid() && forall x :: x in rs ==> ResolvedValid(x)
    ensures r.Success? <==> RestsOn(p, rs)
  {
    hide Resolves, NoWeaker;
    assert forall i :: 0 <= i < |rs| ==> rs[i] in rs;
    var ids := RequireExactIds(p.fragments, FragmentIds(rs));
    if ids.Failure? { return Failure(ids.error); }
    if p.governance.deletion != Active { return Failure(RecallBlocked); }
    var governances: seq<Governance> := [];
    for i := 0 to |rs|
      invariant |governances| == i && forall j :: 0 <= j < i ==> governances[j] == rs[j].fragment.governance
      invariant forall j :: 0 <= j < i ==>
        && rs[j].fragment.space == p.space && rs[j].source.space == p.space
        && Resolves(rs[j].fragment, rs[j].source) && rs[j].fragment.governance.deletion == Active
    {
      if rs[i].fragment.space != p.space || rs[i].source.space != p.space {
        assert !Supports(p, rs[i]);
        return Failure(NamespaceMismatch);
      }
      var resolved := ValidateResolution(rs[i].fragment, rs[i].source);
      if resolved.Failure? {
        assert !Supports(p, rs[i]);
        return Failure(resolved.error);
      }
      if rs[i].fragment.governance.deletion != Active {
        assert !Supports(p, rs[i]);
        return Failure(RecallBlocked);
      }
      governances := governances + [rs[i].fragment.governance];
    }
    SupportedByGovernance(p, rs, governances);
    r := ValidateDerivation(p.governance, governances);
  }

  /** Among otherwise fitting fragments, support is a matter of governance alone. */
  lemma SupportedByGovernance(p: Proposal, rs: seq<Resolved>, governances: seq<Governance>)
    requires p.governance.Valid()
    requires |governances| == |rs| && forall j :: 0 <= j < |rs| ==> governances[j] == rs[j].fragment.governance
    requires forall g :: g in governances ==> g.Valid()
    requires forall j :: 0 <= j < |rs| ==>
      && ResolvedValid(rs[j]) && rs[j].fragment.space == p.space && rs[j].source.space == p.space
      && Resolves(rs[j].fragment, rs[j].source) && rs[j].fragment.governance.deletion == Active
    ensures (forall i :: 0 <= i < |rs| ==> Supports(p, rs[i])) <==> (forall g :: g in governances ==> NoWeaker(p.governance, g))
  {
    hide Resolves, NoWeaker;
    if forall i :: 0 <= i < |rs| ==> Supports(p, rs[i]) {
      forall g | g in governances ensures NoWeaker(p.governance, g) {
        var i :| 0 <= i < |governances| && governances[i] == g;
        assert Supports(p, rs[i]);
      }
    } else {
      var i :| 0 <= i < |rs| && !Supports(p, rs[i]);
      assert governances[i] in governances;
    }
  }

  // ---------------------------------------------------------------- materialization

  /** The record carries over exactly what was proposed and accepted. */
  predicate CarriesOver(p: Proposal, d: Decision, m: Memory, e: E.Event) {
    && d.proposal == p.id && d.accept && d.result == Some(m.id) && m.proposal == p.id && m.decision == d.id
    && e.memory == m.id && e.kind == E.Confirm && e.cause == MemoryDecision && e.causeId == d.id
    && m.claim == p.claim && SetOf(m.fragments) == SetOf(p.fragments) && SetOf(m.supersedes) == SetOf(p.targets)
  }

  /** Accept decision, record and initial event belong together, under governance no weaker. */
  predicate Materializes(p: Proposal, d: Decision, m: Memory, e: E.Event)
    requires p.governance.Valid() && m.governance.Valid()
  {
    && d.space == p.space && m.space == p.space && e.space == p.space
    && p.governance.deletion == Active && m.governance.deletion == Active
    && CarriesOver(p, d, m, e) && NoWeaker(m.governance, p.governance)
    && m.state == E.Confirmed && m.lastEvent == e.id && e.previous == None && e.from == None && e.effective == None
  }

  /** Why a record does not belong to the proposal. */
  function MaterializationError(p: Proposal, d: Decision, m: Memory, e: E.Event): Reason
    requires p.governance.Valid() && m.governance.Valid()
  {
    if !(p.space == d.space == m.space == e.space) then NamespaceMismatch
    else if p.governance.deletion != Active || m.governance.deletion != Active then RecallBlocked
    else if !CarriesOver(p, d, m, e) then MaterializationMismatch
    else if !NoWeaker(m.governance, p.governance) then GovernanceMismatch
    else StateProjectionMismatch
  }

  method ValidateMaterialization(p: Proposal, d: Decision, m: Memory, e: E.Event) returns (r: Result<(), Reason>)
    requires p.governance.Valid() && m.governance.Valid()
    ensures r == if Materializes(p, d, m, e) then Success(()) else Failure(MaterializationError(p, d, m, e))
  {
    if d.space != p.space || m.space != p.space || e.space != p.space { return Failure(NamespaceMismatch); }
    if p.governance.deletion != Active || m.governance.deletion != Active { return Failure(RecallBlocked); }
    if d.proposal != p.id || !d.accept || d.result != Some(m.id) || m.proposal != p.id || m.decision != d.id
       || e.memory != m.id || e.kind != E.Confirm || e.cause != MemoryDecision || e.causeId != d.id {
      return Failure(MaterializationMismatch);
    }
    if m.claim != p.claim || SetOf(m.fragments) != SetOf(p.fragments) || SetOf(m.supersedes) != SetOf(p.targets) {
      return Failure(MaterializationMismatch);
    }
    var derived := ValidateDerivation(m.governance, [p.governance]);
    assert p.governance in [p.governance];
    if derived.Failure? { return Failure(derived.error); }
    if m.state != E.Confirmed || m.lastEvent != e.id || e.previous.Some? || e.from.Some? || e.effective.Some?
       || e.To() != E.Confirmed {
      return Failure(StateProjectionMismatch);
    }
    return Success(());
  }

  /** A freshly materialized record is exactly a record whose event chain is its initial event. */
  lemma MaterializedChain(p: Proposal, d: Decision, m: Memory, e: E.Event)
    requires p.governance.Valid() && m.governance.Valid() && Materializes(p, d, m, e)
    ensures E.Accepted(E.Record(m.space, m.id, m.state, m.lastEvent), [e])
  {
    var c := [e];
    assert E.Arranges(c, [e]) && E.Shows(E.Record(m.space, m.id, m.state, m.lastEvent), c[|c| - 1]);
  }

  // ---------------------------------------------------------------- context packs

  datatype ObjectKind = FragmentObject | MemoryObject | OtherObject

  datatype ObjectRef = ObjectRef(kind: ObjectKind, id: Identifier)

  datatype ItemType = FragmentItem | MemoryItem | ConflictNotice | Constraint

  datatype Item = Item(kind: ItemType, refs: seq<ObjectRef>, citations: seq<Identifier>)

  /** A citation names its fragment by identity, place and content. */
  datatype Citation = Citation(id: Identifier, fragment: Identifier, source: Identifier, start: nat, end: nat, content: Bytes)

  datatype Pack = Pack(space: Identifier, governance: Governance, items: seq<Item>, citations: seq<Citation>)

  /** Everything a pack may refer to, by identity. */
  datatype Library = Library(sources: map<Identifier, Source>, fragments: map<Identifier, Fragment>, memories: map<Identifier, Memory>) {
    predicate Valid() {
      && (forall k :: k in sources ==> sources[k].Valid())
      && (forall k :: k in fragments ==> fragments[k].Valid())
      && (forall k :: k in memories ==> memories[k].governance.Valid())
    }
  }

  /** A reference is admitted: the object is there, may be recalled, and governs no more strictly. */
  predicate RefAdmitted(pack: Pack, kind: ItemType, ref: ObjectRef, library: Library)
    requires pack.governance.Valid() && library.Valid()
  {
    match ref.kind
    case FragmentObject =>
      && kind != MemoryItem && ref.id in library.fragments
      && var f := library.fragments[ref.id];
         f.source in library.sources && f.space == pack.space && Resolves(f, library.sources[f.source])
         && f.governance.deletion == Active && NoWeaker(pack.governance, f.governance)
    case MemoryObject =>
      && kind != FragmentItem && ref.id in library.memories
      && var m := library.memories[ref.id];
         m.space == pack.space && m.governance.deletion == Active && (kind == MemoryItem ==> m.state == E.Confirmed)
         && NoWeaker(pack.governance, m.governance)
    case OtherObject => false
  }

  /** A citation is exact: it names a resolved fragment, its source, its place and its content. */
  predicate CitationExact(pack: Pack, c: Citation, library: Library)
    requires pack.governance.Valid() && library.Valid()
  {
    && c.fragment in library.fragments && c.source in library.sources
    && var f, s := library.fragments[c.fragment], library.sources[c.source];
       s.space == pack.space && f.space == pack.space && Resolves(f, s) && f.governance.deletion == Active
       && NoWeaker(pack.governance, s.governance) && NoWeaker(pack.governance, f.governance)
       && c.source == f.source && c.start == f.start && c.end == f.end && c.content == f.content
  }

  /** The item refers to the cited fragment, directly or through a record that rests on it. */
  predicate ItemAccepts(item: Item, c: Citation, library: Library) {
    exists i :: 0 <= i < |item.refs| && RefCarries(item.kind, item.refs[i], c, library)
  }

  predicate RefCarries(kind: ItemType, ref: ObjectRef, c: Citation, library: Library) {
    || (kind != MemoryItem && ref.kind == FragmentObject && ref.id == c.fragment)
    || (kind != FragmentItem && ref.kind == MemoryObject && ref.id in library.memories
        && c.fragment in library.memories[ref.id].fragments)
  }

  function CitationOf(citations: seq<Citation>, id: Identifier): Option<Citation> {
    if citations == [] then None else if citations[0].id == id then Some(citations[0]) else CitationOf(citations[1..], id)
  }

  predicate ItemAdmitted(pack: Pack, item: Item, library: Library)
    requires pack.governance.Valid() && library.Valid()
  {
    && (forall k :: 0 <= k < |item.citations| ==>
         var c := CitationOf(pack.citations, item.citations[k]); c.Some? && ItemAccepts(item, c.value, library))
    && (forall k :: 0 <= k < |item.refs| ==> RefAdmitted(pack, item.kind, item.refs[k], library))
  }

  ghost predicate Used(pack: Pack, id: Identifier) {
    exists i, k :: 0 <= i < |pack.items| && 0 <= k < |pack.items[i].citations| && pack.items[i].citations[k] == id
  }

  /** The pack resolves: every item and citation is admitted, and no citation is left unused. */
  ghost predicate Resolvable(pack: Pack, library: Library)
    requires pack.governance.Valid() && library.Valid()
  {
    && pack.governance.deletion == Active
    && (forall i :: 0 <= i < |pack.items| ==> ItemAdmitted(pack, pack.items[i], library))
    && (forall k :: 0 <= k < |pack.citations| ==> Used(pack, pack.citations[k].id) && CitationExact(pack, pack.citations[k], library))
  }

  // ---------------------------------------------------------------- end to end

  /** Where a record came from: the proposal, its resolved fragments, the decision and the first event. */
  datatype Origin = Origin(proposal: Proposal, resolved: seq<Resolved>, decision: Decision, first: E.Event)

  /**
   The record was materialized from this origin. Since then only its state and its last event may have
   changed, so superseded and contradicted records have origins like confirmed ones.
   */
  predicate Originates(o: Origin, m: Memory)
    requires m.governance.Valid()
  {
    && o.proposal.governance.Valid() && (forall x :: x in o.resolved ==> ResolvedValid(x))
    && RestsOn(o.proposal, o.resolved)
    && Materializes(o.proposal, o.decision, m.(state := E.Confirmed, lastEvent := o.first.id), o.first)
  }

  /** The source lies under a reference: as the fragment's own source, or under the record's proposal. */
  ghost predicate UnderRef(ref: ObjectRef, library: Library, s: Source)
    requires library.Valid()
  {
    match ref.kind
    case FragmentObject =>
      && ref.id in library.fragments
      && Lookup(library.sources, library.fragments[ref.id].source) == Some(s)
    case MemoryObject =>
      && ref.id in library.memories
      && exists o: Origin, n :: Originates(o, library.memories[ref.id]) && 0 <= n < |o.resolved| && o.resolved[n].source == s
    case OtherObject => false
  }

  /** The source lies under the pack: under a reference of an item, or under a citation. */
  ghost predicate Underlies(pack: Pack, library: Library, s: Source)
    requires library.Valid()
  {
    || (exists i, k :: 0 <= i < |pack.items| && 0 <= k < |pack.items[i].refs| && UnderRef(pack.items[i].refs[k], library, s))
    || (exists k :: 0 <= k < |pack.citations| && Lookup(library.sources, pack.citations[k].source) == Some(s))
  }

  /** When a fragment supports a proposal, by itself and its source. */
  lemma SupportsExactly(p: Proposal, r: Resolved)
    requires p.governance.Valid() && ResolvedValid(r)
    ensures Supports(p, r) <==>
              && r.fragment.source == r.source.id && p.space == r.fragment.space == r.source.space
              && r.fragment.governance.deletion == Active && r.source.governance.deletion == Active
              && NoWeaker(p.governance, r.fragment.governance) && NoWeaker(r.fragment.governance, r.source.governance)
              && r.fragment.end <= |r.source.content| && r.source.content[r.fragment.start..r.fragment.end] == r.fragment.content
  {
  }

  /** What an accepting decision makes of a proposal, field by field. */
  lemma MaterializesExactly(p: Proposal, d: Decision, m: Memory, e: E.Event)
    requires p.governance.Valid() && m.governance.Valid()
    ensures Materializes(p, d, m, e) <==>
              && p.space == d.space == m.space == e.space
              && p.governance.deletion == Active && m.governance.deletion == Active && NoWeaker(m.governance, p.governance)
              && d == Decision(d.id, p.space, p.id, true, Some(m.id))
              && m == Memory(m.id, p.space, m.governance, p.id, d.id, m.fragments, m.supersedes, p.claim, E.Confirmed, e.id)
              && (forall f :: f in m.fragments <==> f in p.fragments) && (forall t :: t in m.supersedes <==> t in p.targets)
              && e == E.Event(e.id, p.space, m.id, None, E.Confirm, None, MemoryDecision, d.id, e.related, None)
  {
    SameSets(m.fragments, p.fragments);
    SameSets(m.supersedes, p.targets);
  }

  lemma SameSets(a: seq<Identifier>, b: seq<Identifier>)
    ensures SetOf(a) == SetOf(b) <==> forall x :: x in a <==> x in b
  {
    assert forall x :: x in SetOf(a) <==> x in a;
    assert forall x :: x in SetOf(b) <==> x in b;
  }

  /** Which references an item of a kind may hold, and to what. */
  lemma RefExactly(pack: Pack, kind: ItemType, ref: ObjectRef, library: Library)
    requires pack.governance.Valid() && library.Valid()
    ensures RefAdmitted(pack, kind, ref, library) <==>
              || (&& ref.kind == FragmentObject && kind in {FragmentItem, ConflictNotice, Constraint}
                  && ref.id in library.fragments && library.fragments[ref.id].source in library.sources
                  && var f := library.fragments[ref.id];
                     f.space == pack.space && f.governance.deletion == Active && NoWeaker(pack.governance, f.governance)
                     && Resolves(f, library.sources[f.source]))
              || (&& ref.kind == MemoryObject && kind in {MemoryItem, ConflictNotice, Constraint} && ref.id in library.memories
                  && var m := library.memories[ref.id];
                     m.space == pack.space && m.governance.deletion == Active && NoWeaker(pack.governance, m.governance)
                     && (kind == MemoryItem ==> m.state == E.Confirmed))
  {
  }

  /** An exact citation repeats its fragment's source, place and bytes, which are the source's bytes at that place. */
  lemma CitationExactly(pack: Pack, c: Citation, library: Library)
    requires pack.governance.Valid() && library.Valid()
    ensures CitationExact(pack, c, library) <==>
              && c.fragment in library.fragments && c.source in library.sources
              && var f, s := library.fragments[c.fragment], library.sources[c.source];
                 && pack.space == f.space == s.space && f.source == s.id == c.source
                 && f.governance.deletion == Active && s.governance.deletion == Active
                 && NoWeaker(pack.governance, s.governance) && NoWeaker(pack.governance, f.governance)
                 && NoWeaker(f.governance, s.governance)
                 && c.start == f.start && c.end == f.end <= |s.content| && c.content == f.content == s.content[f.start..f.end]
  {
  }

  /** What the pack owes a source: its namespace, no lower sensitivity, no later end, and nothing deleted on either side. */
  predicate Honours(pack: Pack, s: Source)
    requires pack.governance.Valid()
  {
    && s.Valid() && s.space == pack.space
    && (s.governance.sensitivity == Restricted ==> pack.governance.sensitivity == Restricted)
    && (s.governance.sensitivity == Sensitive ==> pack.governance.sensitivity != Personal)
    && RetentionNoLater(pack.governance.retention, s.governance.retention)
    && s.governance.deletion == Active && pack.governance.deletion == Active
  }

  /** A record's governance, at any later state, is no weaker than that of every source it rests on. */
  lemma RecordHonoursSources(m: Memory, o: Origin, n: nat)
    requires m.governance.Valid() && Originates(o, m) && n < |o.resolved|
    ensures o.resolved[n] in o.resolved && o.resolved[n].source.Valid()
    ensures NoWeaker(m.governance, o.resolved[n].source.governance) && o.resolved[n].source.space == m.space
    ensures o.resolved[n].source.governance.deletion == Active && o.resolved[n].fragment.id in SetOf(m.fragments)
  {
    var r := o.resolved[n];
    assert r in o.resolved && ResolvedValid(r) && Supports(o.proposal, r);
    DerivationIsPreorder(m.governance, o.proposal.governance, r.fragment.governance);
    DerivationIsPreorder(m.governance, r.fragment.governance, r.source.governance);
    assert FragmentIds(o.resolved)[n] in SetOf(FragmentIds(o.resolved));
  }

  lemma RefHonoursSources(pack: Pack, kind: ItemType, ref: ObjectRef, library: Library, s: Source)
    requires pack.governance.Valid() && library.Valid() && pack.governance.deletion == Active
    requires RefAdmitted(pack, kind, ref, library) && UnderRef(ref, library, s)
    ensures Honours(pack, s)
  {
    match ref.kind
    case FragmentObject =>
      DerivationIsPreorder(pack.governance, library.fragments[ref.id].governance, s.governance);
    case MemoryObject =>
      var m := library.memories[ref.id];
      var o: Origin, n :| Originates(o, m) && 0 <= n < |o.resolved| && o.resolved[n].source == s;
      RecordHonoursSources(m, o, n);
      DerivationIsPreorder(pack.governance, m.governance, s.governance);
    case OtherObject =>
  }

  /**
   End to end: whatever an accepted pack shows, as a fragment, as a record in any state, or as a
   citation, it is in the namespace of every source below, no weaker than it, and all are recallable.
   */
  lemma PackNeverWeakerThanSources(pack: Pack, library: Library, s: Source)
    requires pack.governance.Valid() && library.Valid() && Resolvable(pack, library) && Underlies(pack, library, s)
    ensures Honours(pack, s)
  {
    if i, k :| 0 <= i < |pack.items| && 0 <= k < |pack.items[i].refs| && UnderRef(pack.items[i].refs[k], library, s) {
      assert ItemAdmitted(pack, pack.items[i], library);
      RefHonoursSources(pack, pack.items[i].kind, pack.items[i].refs[k], library, s);
    } else {
      var k :| 0 <= k < |pack.citations| && Lookup(library.sources, pack.citations[k].source) == Some(s);
      assert CitationExact(pack, pack.citations[k], library);
    }
  }

  // ---------------------------------------------------------------- the program

  /** Objects by identity; an identity given twice is refused. */
  method Index<T>(ids: seq<Identifier>, objects: seq<T>) returns (r: Result<map<Identifier, T>, Reason>)
    requires |ids| == |objects|
    ensures r.Success? <==> E.Unique(ids)
    ensures r.Failure? ==> r.error == DuplicateObject
    ensures r.Success? ==> forall k :: k in r.value <==> exists i :: 0 <= i < |ids| && ids[i] == k
    ensures r.Success? ==> forall i :: 0 <= i < |ids| ==> r.value[ids[i]] == objects[i]
  {
    var index: map<Identifier, T> := map[];
    for i := 0 to |ids|
      invariant forall k :: k in index <==> exists j :: 0 <= j < i && ids[j] == k
      invariant forall j :: 0 <= j < i ==> index[ids[j]] == objects[j]
      invariant forall j, k :: 0 <= j < k < i ==> ids[j] != ids[k]
    {
      if ids[i] in index {
        var j :| 0 <= j < i && ids[j] == ids[i];
        return Failure(DuplicateObject);
      }
      index := index[ids[i] := objects[i]];
    }
    return Success(index);
  }

  function SourceIds(xs: seq<Source>): seq<Identifier> { seq(|xs|, i requires 0 <= i < |xs| => xs[i].id) }

  function FragmentIdsOf(xs: seq<Fragment>): seq<Identifier> { seq(|xs|, i requires 0 <= i < |xs| => xs[i].id) }

  function MemoryIds(xs: seq<Memory>): seq<Identifier> { seq(|xs|, i requires 0 <= i < |xs| => xs[i].id) }

  /** No source, fragment or record is given twice. */
  predicate Distinct(sources: seq<Source>, fragments: seq<Fragment>, memories: seq<Memory>) {
    E.Unique(SourceIds(sources)) && E.Unique(FragmentIdsOf(fragments)) && E.Unique(MemoryIds(memories))
  }

  /** Why a reference is not admitted. */
  function RefError(pack: Pack, kind: ItemType, ref: ObjectRef, library: Library): Reason
    requires pack.governance.Valid() && library.Valid()
  {
    if ref.kind == FragmentObject && kind != MemoryItem then
      if !(ref.id in library.fragments && library.fragments[ref.id].source in library.sources) then MissingReference
      else
        var f := library.fragments[ref.id];
        if f.space != pack.space then NamespaceMismatch
        else if !Resolves(f, library.sources[f.source]) then ResolutionError(f, library.sources[f.source])
        else if f.governance.deletion != Active then RecallBlocked
        else GovernanceMismatch
    else if ref.kind == MemoryObject && kind != FragmentItem then
      if ref.id !in library.memories then MissingReference
      else
        var m := library.memories[ref.id];
        if m.space != pack.space then NamespaceMismatch
        else if m.governance.deletion != Active || (kind == MemoryItem && m.state != E.Confirmed) then RecallBlocked
        else GovernanceMismatch
    else IdentityMismatch
  }

  method ValidateRef(pack: Pack, kind: ItemType, ref: ObjectRef, library: Library) returns (r: Result<(), Reason>)
    requires pack.governance.Valid() && library.Valid()
    ensures r == if RefAdmitted(pack, kind, ref, library) then Success(()) else Failure(RefError(pack, kind, ref, library))
  {
    hide Resolves, NoWeaker, ResolutionError;
    if ref.kind == FragmentObject && kind != MemoryItem {
      if ref.id !in library.fragments { return Failure(MissingReference); }
      var f := library.fragments[ref.id];
      if f.source !in library.sources { return Failure(MissingReference); }
      if f.space != pack.space { return Failure(NamespaceMismatch); }
      var resolved := ValidateResolution(f, library.sources[f.source]);
      if resolved.Failure? { return resolved; }
      if f.governance.deletion != Active { return Failure(RecallBlocked); }
      var derived := ValidateDerivation(pack.governance, [f.governance]);
      assert f.governance in [f.governance];
      if derived.Failure? { return derived; }
    } else if ref.kind == MemoryObject && kind != FragmentItem {
      if ref.id !in library.memories { return Failure(MissingReference); }
      var m := library.memories[ref.id];
      if m.space != pack.space { return Failure(NamespaceMismatch); }
      if m.governance.deletion != Active { return Failure(RecallBlocked); }
      if kind == MemoryItem && m.state != E.Confirmed { return Failure(RecallBlocked); }
      var derived := ValidateDerivation(pack.governance, [m.governance]);
      assert m.governance in [m.governance];
      if derived.Failure? { return derived; }
    } else {
      return Failure(IdentityMismatch);
    }
    return Success(());
  }

  method ValidateItem(pack: Pack, item: Item, library: Library) returns (r: Result<(), Reason>)
    requires pack.governance.Valid() && library.Valid()
    ensures r.Success? <==> ItemAdmitted(pack, item, library)
  {
    hide RefAdmitted, ItemAccepts, CitationOf;
    for k := 0 to |item.citations|
      invariant forall n :: 0 <= n < k ==>
        var c := CitationOf(pack.citations, item.citations[n]); c.Some? && ItemAccepts(item, c.value, library)
    {
      var c := CitationOf(pack.citations, item.citations[k]);
      if c.None? { return Failure(MissingReference); }
      if !ItemAccepts(item, c.value, library) { return Failure(CitationMismatch); }
    }
    for k := 0 to |item.refs|
      invariant forall n :: 0 <= n < k ==> RefAdmitted(pack, item.kind, item.refs[n], library)
    {
      var admitted := ValidateRef(pack, item.kind, item.refs[k], library);
      if admitted.Failure? { return admitted; }
    }
    return Success(());
  }

  /** Why a citation is not exact. */
  function CitationError(pack: Pack, c: Citation, library: Library): Reason
    requires pack.governance.Valid() && library.Valid()
  {
    if c.fragment !in library.fragments || c.source !in library.sources then MissingReference
    else
      var f, s := library.fragments[c.fragment], library.sources[c.source];
      if s.space != pack.space || f.space != pack.space then NamespaceMismatch
      else if !Resolves(f, s) then ResolutionError(f, s)
      else if f.governance.deletion != Active then RecallBlocked
      else if !NoWeaker(pack.governance, s.governance) || !NoWeaker(pack.governance, f.governance) then GovernanceMismatch
      else CitationMismatch
  }

  method ValidateCitation(pack: Pack, c: Citation, library: Library) returns (r: Result<(), Reason>)
    requires pack.governance.Valid() && library.Valid()
    ensures r == if CitationExact(pack, c, library) then Success(()) else Failure(CitationError(pack, c, library))
  {
    hide Resolves, NoWeaker, ResolutionError;
    if c.fragment !in library.fragments || c.source !in library.sources { return Failure(MissingReference); }
    var f, s := library.fragments[c.fragment], library.sources[c.source];
    if s.space != pack.space || f.space != pack.space { return Failure(NamespaceMismatch); }
    var resolved := ValidateResolution(f, s);
    if resolved.Failure? { return resolved; }
    if f.governance.deletion != Active { return Failure(RecallBlocked); }
    var derived := ValidateDerivation(pack.governance, [s.governance, f.governance]);
    assert s.governance in [s.governance, f.governance] && f.governance in [s.governance, f.governance];
    if derived.Failure? { return derived; }
    if c.source != f.source || c.start != f.start || c.end != f.end || c.content != f.content { return Failure(CitationMismatch); }
    return Success(());
  }

  /** The identities the items cite. */
  method UsedCitations(pack: Pack) returns (used: set<Identifier>)
    ensures forall id :: id in used <==> Used(pack, id)
  {
    used := {};
    for i := 0 to |pack.items|
      invariant forall id :: id in used <==>
        exists j, k :: 0 <= j < i && 0 <= k < |pack.items[j].citations| && pack.items[j].citations[k] == id
    {
      used := used + SetOf(pack.items[i].citations);
    }
  }

  /** The validator admits exactly the packs that resolve over distinct sources, fragments and records. */
  method ValidateContextPack(pack: Pack, sources: seq<Source>, fragments: seq<Fragment>, memories: seq<Memory>)
    returns (r: Result<(), Reason>, ghost library: Library)
    requires pack.governance.Valid()
    requires (forall x :: x in sources ==> x.Valid()) && (forall x :: x in fragments ==> x.Valid())
    requires forall x :: x in memories ==> x.governance.Valid()
    ensures library.Valid()
    ensures r.Success? ==> Distinct(sources, fragments, memories)
    ensures Distinct(sources, fragments, memories) ==>
              && (forall k :: k in library.sources ==> library.sources[k] in sources)
              && (forall k :: k in library.fragments ==> library.fragments[k] in fragments)
              && (forall k :: k in library.memories ==> library.memories[k] in memories)
    ensures Distinct(sources, fragments, memories) ==>
              && (r.Success? <==> Resolvable(pack, library))
              && (forall i :: 0 <= i < |sources| ==> sources[i].id in library.sources && library.sources[sources[i].id] == sources[i])
              && (forall i :: 0 <= i < |fragments| ==> fragments[i].id in library.fragments && library.fragments[fragments[i].id] == fragments[i])
              && (forall i :: 0 <= i < |memories| ==> memories[i].id in library.memories && library.memories[memories[i].id] == memories[i])
  {
    hide ItemAdmitted, CitationExact, Used;
    library := Library(map[], map[], map[]);
    var s := Index(SourceIds(sources), sources);
    if s.Failure? { return Failure(DuplicateObject), library; }
    var f := Index(FragmentIdsOf(fragments), fragments);
    if f.Failure? { return Failure(DuplicateObject), library; }
    var m := Index(MemoryIds(memories), memories);
    if m.Failure? { return Failure(DuplicateObject), library; }
    assert forall i :: 0 <= i < |sources| ==> SourceIds(sources)[i] == sources[i].id && sources[i] in sources;
    assert forall i :: 0 <= i < |fragments| ==> FragmentIdsOf(fragments)[i] == fragments[i].id && fragments[i] in fragments;
    assert forall i :: 0 <= i < |memories| ==> MemoryIds(memories)[i] == memories[i].id && memories[i] in memories;
    var index := Library(s.value, f.value, m.value);
    library := index;
    r := ValidateIndexed(pack, index);
  }

  method ValidateIndexed(pack: Pack, library: Library) returns (r: Result<(), Reason>)
    requires pack.governance.Valid() && library.Valid()
    ensures r.Success? <==> Resolvable(pack, library)
  {
    hide ItemAdmitted, CitationExact, Used;
    if pack.governance.deletion != Active { return Failure(RecallBlocked); }
    for i := 0 to |pack.items|
      invariant forall j :: 0 <= j < i ==> ItemAdmitted(pack, pack.items[j], library)
    {
      var admitted := ValidateItem(pack, pack.items[i], library);
      if admitted.Failure? { return admitted; }
    }
    var used := UsedCitations(pack);
    for k := 0 to |pack.citations|
      invariant forall n :: 0 <= n < k ==> pack.citations[n].id in used
    {
      if pack.citations[k].id !in used { return Failure(CitationMismatch); }
    }
    for k := 0 to |pack.citations|
      invariant forall n :: 0 <= n < k ==> CitationExact(pack, pack.citations[n], library)
    {
      var exact := ValidateCitation(pack, pack.citations[k], library);
      if exact.Failure? { return exact; }
    }
    return Success(());
  }
}
