/** Whole deletion runs: any number of attempts, any of whose components may roll back. */
module DeletionRuns {
  import opened CoreModel
  import opened DeletionEvidences
  import opened DeletionTables
  import opened Governances
  import opened Wrappers

  function ExecutionOrder(): (order: seq<ComponentType>)
    ensures |order| == 10
  {
    [MemoryProposal, MemoryRecordComponent, SourceFragmentComponent, SourceBody, SourceMetadata,
     MemoryDecisionComponent, MemoryStateEvent, FullTextIndex, ContextCache, MinimalAudit]
  }

  /** Every component has its turn. */
  function TurnOf(c: ComponentType): (i: nat)
    ensures i < 10 && ExecutionOrder()[i] == c
  {
    match c
    case MemoryProposal => 0
    case MemoryRecordComponent => 1
    case SourceFragmentComponent => 2
    case SourceBody => 3
    case SourceMetadata => 4
    case MemoryDecisionComponent => 5
    case MemoryStateEvent => 6
    case FullTextIndex => 7
    case ContextCache => 8
    case MinimalAudit => 9
  }

  // ---------------------------------------------------------------- what a component achieves

  predicate Marked(m: map<Identifier, Content>, ids: set<Identifier>) {
    forall k :: k in m && k in ids ==> m[k].text == REDACTION_MARKER && m[k].digest == DigestOf(REDACTION_MARKER)
  }

  predicate NoLinks(links: set<(Identifier, Identifier)>, ids: set<Identifier>) {
    forall l :: l in links ==> l.0 !in ids
  }

  /** The purpose of a component is met. */
  predicate Done(t: Tables, p: Purge, c: ComponentType) {
    var refs := ClosureOf(t, c);
    var ids := Ids(refs);
    match c
    case SourceBody =>
      if t.version < 11 then t.bodies.Keys !! ids else forall i :: 0 <= i < |refs| ==> BodyAbsent(t, p, refs[i].id)
    case SourceMetadata => forall k :: k in t.artifacts && k in ids ==> t.artifacts[k].title == None && t.artifacts[k].originRef == None
    case SourceFragmentComponent => t.fragments.Keys !! ids && t.headings.Keys !! ids
    case MemoryProposal => Marked(t.proposals, ids) && NoLinks(t.proposalFragments, ids)
    case MemoryDecisionComponent => forall k :: k in t.decisions && k in ids ==> t.decisions[k] == None
    case MemoryRecordComponent => Marked(t.records, ids) && NoLinks(t.recordFragments, ids)
    case MemoryStateEvent => true
    case FullTextIndex => forall r :: r in t.recall ==> ObjectRef(r.kind, r.id) !in refs
    case ContextCache => refs == []
    case MinimalAudit => AllDeleted(t) && NoTrace(t, p)
  }

  /** Every governed object of the closures is in its final state. */
  predicate AllDeleted(t: Tables) {
    && (forall k :: k in t.artifacts && k in IdsIn(t, SourceMetadata) ==> t.artifacts[k].state == DeletionState.Deleted)
    && (forall k :: k in t.proposals && k in IdsIn(t, MemoryProposal) ==> t.proposals[k].state == DeletionState.Deleted)
    && (forall k :: k in t.records && k in IdsIn(t, MemoryRecordComponent) ==> t.records[k].state == DeletionState.Deleted)
  }

  /** Neither audit rows nor bindings of the affected lineages are left. */
  predicate NoTrace(t: Tables, p: Purge) {
    && (forall r :: r in t.audit ==> !AuditOf(t, p.space, Affected(t), r))
    && (forall r :: r in t.bindings ==> !BindingOf(p.space, Affected(t), r))
  }

  lemma EffectDoes(t: Tables, p: Purge, c: ComponentType, attempt: nat)
    requires Admits(t, p, c, attempt)
    ensures Done(Effect(t, p, c, false), p, c)
  {
    if c == MinimalAudit { AuditDoes(t, p); }
  }

  lemma AuditDoes(t: Tables, p: Purge)
    ensures Done(Effect(t, p, MinimalAudit, false), p, MinimalAudit)
  {
    StatesDone(Purged(t, p, AuditSources(ClosureOf(t, MinimalAudit))));
    TraceDone(t, p);
    hide AllDeleted, NoTrace, Finalized, Purged;
  }

  lemma StatesDone(t: Tables)
    ensures AllDeleted(Finalized(t, DeletionState.Deleted))
  {
    hide Ids;
  }

  lemma TraceDone(t: Tables, p: Purge)
    ensures NoTrace(Effect(t, p, MinimalAudit, false), p)
  {
    hide Ids, Stated;
    var sources := AuditSources(ClosureOf(t, MinimalAudit));
    var u := Effect(t, p, MinimalAudit, false);
    assert Affected(u) == Lineages(t, sources);
    forall r | r in u.audit ensures !AuditOf(u, p.space, Affected(u), r) {
      assert !AuditOf(t, p.space, Lineages(t, sources), r);
    }
  }

  /** What one component achieved, no other component undoes. */
  lemma EffectKeeps(t: Tables, p: Purge, c: ComponentType, done: ComponentType, failed: bool)
    requires Done(t, p, done) && done != MinimalAudit
    ensures Done(Effect(t, p, c, failed), p, done)
  {
    hide Effect, Done;
    match done
    case SourceBody => BodiesKept(t, p, c, failed);
    case SourceMetadata => MetadataKept(t, p, c, failed);
    case SourceFragmentComponent => FragmentsKept(t, p, c, failed);
    case MemoryProposal => ProposalsKept(t, p, c, failed);
    case MemoryDecisionComponent => DecisionsKept(t, p, c, failed);
    case MemoryRecordComponent => RecordsKept(t, p, c, failed);
    case MemoryStateEvent => EventsKept(t, p, c, failed);
    case FullTextIndex => RecallKept(t, p, c, failed);
    case ContextCache => CacheKept(t, p, c, failed);
  }

  lemma BodiesKept(t: Tables, p: Purge, c: ComponentType, failed: bool)
    requires Done(t, p, SourceBody)
    ensures Done(Effect(t, p, c, failed), p, SourceBody)
  {
    hide Effect;
    EffectFramed(t, p, c, failed);
  }

  lemma MetadataKept(t: Tables, p: Purge, c: ComponentType, failed: bool)
    requires Done(t, p, SourceMetadata)
    ensures Done(Effect(t, p, c, failed), p, SourceMetadata)
  {
    hide WithMarker, Stated, Silenced, Unlinked, Unindexed, AuditOf, BindingOf, Lineages, AuditSources;
  }

  lemma FragmentsKept(t: Tables, p: Purge, c: ComponentType, failed: bool)
    requires Done(t, p, SourceFragmentComponent)
    ensures Done(Effect(t, p, c, failed), p, SourceFragmentComponent)
  {
    hide Minimal, WithMarker, Stated, ArtifactsStated, Silenced, Unlinked, Unindexed, AuditOf, BindingOf, Lineages, AuditSources;
  }

  lemma ProposalsKept(t: Tables, p: Purge, c: ComponentType, failed: bool)
    requires Done(t, p, MemoryProposal)
    ensures Done(Effect(t, p, c, failed), p, MemoryProposal)
  {
    hide Minimal, ArtifactsStated, Silenced, Unindexed, AuditOf, BindingOf, Lineages, AuditSources;
  }

  lemma DecisionsKept(t: Tables, p: Purge, c: ComponentType, failed: bool)
    requires Done(t, p, MemoryDecisionComponent)
    ensures Done(Effect(t, p, c, failed), p, MemoryDecisionComponent)
  {
    hide Minimal, WithMarker, Stated, ArtifactsStated, Unlinked, Unindexed, AuditOf, BindingOf, Lineages, AuditSources;
  }

  lemma RecordsKept(t: Tables, p: Purge, c: ComponentType, failed: bool)
    requires Done(t, p, MemoryRecordComponent)
    ensures Done(Effect(t, p, c, failed), p, MemoryRecordComponent)
  {
    hide Minimal, ArtifactsStated, Silenced, Unindexed, AuditOf, BindingOf, Lineages, AuditSources;
  }

  lemma EventsKept(t: Tables, p: Purge, c: ComponentType, failed: bool)
    requires Done(t, p, MemoryStateEvent)
    ensures Done(Effect(t, p, c, failed), p, MemoryStateEvent)
  {
    hide Minimal, WithMarker, Stated, ArtifactsStated, Silenced, Unlinked, Unindexed, AuditOf, BindingOf, Lineages, AuditSources;
  }

  lemma RecallKept(t: Tables, p: Purge, c: ComponentType, failed: bool)
    requires Done(t, p, FullTextIndex)
    ensures Done(Effect(t, p, c, failed), p, FullTextIndex)
  {
    hide Minimal, WithMarker, Stated, ArtifactsStated, Silenced, Unlinked, AuditOf, BindingOf, Lineages, AuditSources;
  }

  lemma CacheKept(t: Tables, p: Purge, c: ComponentType, failed: bool)
    requires Done(t, p, ContextCache)
    ensures Done(Effect(t, p, c, failed), p, ContextCache)
  {
    hide Minimal, WithMarker, Stated, ArtifactsStated, Silenced, Unlinked, Unindexed, AuditOf, BindingOf, Lineages, AuditSources;
  }

  lemma DoneResults(t: Tables, u: Tables, p: Purge, c: ComponentType)
    requires Done(t, p, c) && u == t.(results := u.results, attempts := u.attempts)
    ensures Done(u, p, c)
  {
    if c == MinimalAudit { assert Affected(u) == Affected(t); }
  }

  lemma StepDoes(t: Tables, u: Tables, p: Purge, c: ComponentType, attempt: nat)
    requires Step(t, u, p, c, attempt, false, true)
    ensures Done(u, p, c)
  {
    hide Effect, Done, Admits;
    EffectDoes(t, p, c, attempt);
    DoneResults(Effect(t, p, c, false), u, p, c);
  }

  lemma StepKeeps(t: Tables, u: Tables, p: Purge, c: ComponentType, attempt: nat, failed: bool, ok: bool, done: ComponentType)
    requires Step(t, u, p, c, attempt, failed, ok) && Done(t, p, done) && done != MinimalAudit
    ensures Done(u, p, done)
  {
    hide Effect, Done, Admits;
    if ok {
      EffectKeeps(t, p, c, done, failed);
      DoneResults(Effect(t, p, c, failed), u, p, done);
    } else {
      DoneResults(t, u, p, done);
    }
  }

  // ---------------------------------------------------------------- progress

  /**
   The stored closures are of the right kinds, the bodies are where the request may take them from, and
   the request's sources are known, in its namespace, with no lineage that still has a tip.
   */
  predicate Executable(t: Tables, p: Purge) {
    && (forall c: ComponentType :: c != MinimalAudit ==> Admits(t, p, c, 0))
    && AuditShape(p, ClosureOf(t, MinimalAudit)) && Closed(t, p, AuditSources(ClosureOf(t, MinimalAudit)))
  }

  /** No result is stored under the number of an attempt still to come. */
  predicate Numbered(t: Tables) {
    forall k :: k in t.results ==> k.0 <= t.attempts
  }

  /** Whatever an attempt did before, and whether it failed, the request stays executable. */
  lemma FramedExecutable(t: Tables, u: Tables, p: Purge)
    requires Executable(t, p) && Framed(t, u, p)
    ensures Executable(u, p)
  {
    forall c: ComponentType | c != MinimalAudit ensures Admits(u, p, c, 0) { FramedAdmits(t, u, p, c); }
    var sources := AuditSources(ClosureOf(t, MinimalAudit));
    assert ClosureOf(u, MinimalAudit) == ClosureOf(t, MinimalAudit);
    forall l | l in Lineages(u, sources) ensures (p.space, l) !in u.tips { assert l in Lineages(t, sources); }
  }

  lemma FramedAdmits(t: Tables, u: Tables, p: Purge, c: ComponentType)
    requires Framed(t, u, p) && c != MinimalAudit && Admits(t, p, c, 0)
    ensures Admits(u, p, c, 0)
  {
    assert ClosureOf(u, c) == ClosureOf(t, c) && u.bodies.Keys <= t.bodies.Keys;
  }

  /** A step adds its component's result and leaves other attempts' results alone. */
  lemma StepResults(t: Tables, u: Tables, p: Purge, c: ComponentType, attempt: nat, failed: bool, ok: bool)
    requires Step(t, u, p, c, attempt, failed, ok)
    ensures ResultsOf(u, attempt) == ResultsOf(t, attempt) + {c} && u.attempts == t.attempts
    ensures attempt <= t.attempts && Numbered(t) ==> Numbered(u)
  {
    hide Admits, Effect;
    EffectRecordsNothing(t, p, c, failed);
    assert u.results == t.results[(attempt, c) := if ok then Succeeded else Status.Failed];
    forall x | x in ResultsOf(u, attempt) ensures x in ResultsOf(t, attempt) + {c} {
      assert (attempt, x) in u.results;
    }
    forall x | x in ResultsOf(t, attempt) + {c} ensures x in ResultsOf(u, attempt) {
      assert (attempt, x) in u.results;
    }
  }

  lemma EffectRecordsNothing(t: Tables, p: Purge, c: ComponentType, failed: bool)
    ensures Effect(t, p, c, failed).attempts == t.attempts
  {
  }

  // ---------------------------------------------------------------- histories

  /** What a run does next: open an attempt, or run one component's transaction. */
  datatype Move = Begin | Component(component: ComponentType, attempt: nat, failed: bool, ok: bool)

  ghost predicate Moved(t: Tables, u: Tables, p: Purge, m: Move) {
    match m
    case Begin => u == t.(attempts := t.attempts + 1)
    case Component(c, attempt, failed, ok) => Step(t, u, p, c, attempt, failed, ok)
  }

  /** The tables of a run, one before and one after every move; it may stop anywhere. */
  ghost predicate Run(ts: seq<Tables>, p: Purge, moves: seq<Move>) {
    && |ts| == |moves| + 1
    && forall i :: 0 <= i < |moves| ==> Moved(ts[i], ts[i + 1], p, moves[i])
  }

  /** Over any run, however its attempts fail or stop, nothing outside the closures changes. */
  lemma {:induction false} RunFramed(ts: seq<Tables>, p: Purge, moves: seq<Move>, k: nat)
    requires Run(ts, p, moves) && k < |ts|
    ensures Framed(ts[0], ts[k], p)
  {
    hide Framed, Step;
    if k == 0 {
      FramedSelf(ts[0], ts[0], p);
    } else {
      RunFramed(ts, p, moves, k - 1);
      assert Moved(ts[k - 1], ts[k - 1 + 1], p, moves[k - 1]);
      MoveFramed(ts[k - 1], ts[k], p, moves[k - 1]);
      FramedTransitive(ts[0], ts[k - 1], ts[k], p);
    }
  }

  lemma MoveFramed(t: Tables, u: Tables, p: Purge, m: Move)
    requires Moved(t, u, p, m)
    ensures Framed(t, u, p)
  {
    hide Framed, Step;
    match m
    case Begin => FramedSelf(t, u, p);
    case Component(c, attempt, failed, ok) => StepFramed(t, u, p, c, attempt, failed, ok);
  }

  /** The run ends with an attempt all of whose components succeeded. */
  ghost predicate EndsClean(moves: seq<Move>, attempt: nat) {
    && |moves| >= 10
    && forall i :: 0 <= i < 10 ==> moves[|moves| - 10 + i] == Component(ExecutionOrder()[i], attempt, false, true)
  }

  lemma {:induction false} CleanUpTo(ts: seq<Tables>, p: Purge, moves: seq<Move>, attempt: nat, n: nat)
    requires Run(ts, p, moves) && EndsClean(moves, attempt) && n <= 10
    ensures forall i :: 0 <= i < n ==> Done(ts[|moves| - 10 + n], p, ExecutionOrder()[i])
  {
    hide Done, Step;
    if n > 0 {
      CleanUpTo(ts, p, moves, attempt, n - 1);
      var at := |moves| - 10 + n - 1;
      assert Moved(ts[at], ts[at + 1], p, moves[at]) && moves[at] == Component(ExecutionOrder()[n - 1], attempt, false, true);
      StepDoes(ts[at], ts[at + 1], p, ExecutionOrder()[n - 1], attempt);
      forall i | 0 <= i < n - 1 ensures Done(ts[at + 1], p, ExecutionOrder()[i]) {
        StepKeeps(ts[at], ts[at + 1], p, ExecutionOrder()[n - 1], attempt, false, true, ExecutionOrder()[i]);
      }
    }
  }

  /**
   After any number of failed or interrupted attempts, an attempt without failure leaves every
   component done: no body, fragment, heading or recall row of the closures, the marker and its digest
   in every proposal and record, all governed states deleted; and since the very beginning of the run
   nothing outside the closures has changed but audit rows and bindings of the affected lineages.
   */
  lemma CleanAttemptPurges(ts: seq<Tables>, p: Purge, moves: seq<Move>, attempt: nat)
    requires Run(ts, p, moves) && EndsClean(moves, attempt)
    ensures var last := ts[|moves|];
            (forall c: ComponentType :: Done(last, p, c)) && Framed(ts[0], last, p)
  {
    hide Done, Framed, Step;
    CleanUpTo(ts, p, moves, attempt, 10);
    RunFramed(ts, p, moves, |moves|);
    forall c: ComponentType ensures Done(ts[|moves|], p, c) {
      assert ExecutionOrder()[TurnOf(c)] == c;
    }
  }

  /** The same, spelled out for what a reader of the library could still find. */
  lemma NothingReadableRemains(ts: seq<Tables>, p: Purge, moves: seq<Move>, attempt: nat, id: Identifier, row: RecallRow)
    requires Run(ts, p, moves) && EndsClean(moves, attempt)
    ensures var first, last := ts[0], ts[|moves|];
            && (id in IdsIn(first, SourceFragmentComponent) ==> id !in last.fragments && id !in last.headings)
            && (id in IdsIn(first, MemoryProposal) && id in last.proposals ==>
                 last.proposals[id] == Content(REDACTION_MARKER, DigestOf(REDACTION_MARKER), DeletionState.Deleted))
            && (id in IdsIn(first, MemoryRecordComponent) && id in last.records ==>
                 last.records[id] == Content(REDACTION_MARKER, DigestOf(REDACTION_MARKER), DeletionState.Deleted))
            && (first.version < 11 && id in IdsIn(first, SourceBody) ==> id !in last.bodies)
            && (first.version >= 11 && id in IdsIn(first, SourceBody) ==> id !in last.vaultReferences && BodyAbsent(last, p, id))
            && (row in last.recall ==> ObjectRef(row.kind, row.id) !in ClosureOf(first, FullTextIndex))
            && (id !in IdsIn(first, MemoryProposal) && id in first.proposals ==> id in last.proposals && last.proposals[id] == first.proposals[id])
            && (id !in IdsIn(first, MemoryRecordComponent) && id in first.records ==> id in last.records && last.records[id] == first.records[id])
  {
    var first, last := ts[0], ts[|moves|];
    CleanAttemptPurges(ts, p, moves, attempt);
    assert last.closure == first.closure && last.version == first.version;
    assert Done(last, p, MinimalAudit) && Done(last, p, MemoryProposal) && Done(last, p, MemoryRecordComponent);
    assert Done(last, p, SourceFragmentComponent) && Done(last, p, SourceBody) && Done(last, p, FullTextIndex);
  }
}
