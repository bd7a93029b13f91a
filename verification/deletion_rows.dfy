/**
 The ten component actions row by row: when each refuses, and what becomes of every single row of every
 table, without the functions over whole tables that the actions are proved against.
 */
module DeletionRows {
  import opened CoreModel
  import opened DeletionEvidences
  import opened DeletionRuns
  import opened DeletionTables
  import opened Governances
  import opened Wrappers

  /** The stored closure of the component names the object. */
  predicate Names(t: Tables, c: ComponentType, id: Identifier) {
    c in t.closure && exists i :: 0 <= i < |t.closure[c]| && t.closure[c][i].id == id
  }

  lemma NamesExactly(t: Tables, c: ComponentType, id: Identifier)
    ensures Names(t, c, id) <==> id in IdsIn(t, c)
  {
  }

  // ---------------------------------------------------------------- turns

  /** The contents that link to fragments go first, then fragments, bodies and metadata, and the audit last. */
  lemma TurnsInOrder()
    ensures TurnOf(MemoryProposal) == 0 && TurnOf(MemoryRecordComponent) == 1 && TurnOf(SourceFragmentComponent) == 2
    ensures TurnOf(SourceBody) == 3 && TurnOf(SourceMetadata) == 4 && TurnOf(MemoryDecisionComponent) == 5
    ensures TurnOf(MemoryStateEvent) == 6 && TurnOf(FullTextIndex) == 7 && TurnOf(ContextCache) == 8 && TurnOf(MinimalAudit) == 9
  {
  }

  // ---------------------------------------------------------------- refusals

  /** The kind of objects a component's closure may name. */
  predicate KindFits(c: ComponentType, kind: ObjectType) {
    match kind
    case SourceArtifactObject => c == SourceBody || c == SourceMetadata || c == MinimalAudit
    case SourceFragmentObject => c == SourceFragmentComponent || c == FullTextIndex
    case MemoryProposalObject => c == MemoryProposal
    case MemoryDecisionObject => c == MemoryDecisionComponent
    case MemoryRecordObject => c == MemoryRecordComponent || c == FullTextIndex
    case MemoryStateEventObject => c == MemoryStateEvent
    case DeleteRequestObject => c == MinimalAudit
    case _ => false
  }

  /** Where the body of a source under object storage has to be before the request may go on. */
  predicate BodyGone(t: Tables, p: Purge, id: Identifier) {
    || (id in t.vaultDeletions && t.vaultDeletions[id] == p.id && id !in t.vaultReferences)
    || (t.version > 11 && (id, p.id) in t.legacyReceipts && id !in t.bodies
        && id !in t.vaultAttempts && id !in t.vaultReferences && id !in t.vaultDeletions)
  }

  /** Exactly when an action other than the audit goes ahead. */
  lemma AdmitsExactly(t: Tables, p: Purge, c: ComponentType, attempt: nat)
    requires c != MinimalAudit
    ensures Admits(t, p, c, attempt) <==>
              && (forall r :: r in ClosureOf(t, c) ==> KindFits(c, r.kind))
              && (c == SourceBody && t.version > 10 ==> forall r :: r in ClosureOf(t, c) ==> BodyGone(t, p, r.id))
  {
    hide BodyAbsent, BodyGone;
    var refs := ClosureOf(t, c);
    forall r | r in refs ensures BodyGone(t, p, r.id) <==> BodyAbsent(t, p, r.id) { BodyGoneExactly(t, p, r.id); }
    assert forall i :: 0 <= i < |refs| ==> refs[i] in refs;
    if c == ContextCache && refs != [] { assert !KindFits(c, refs[0].kind); }
  }

  lemma BodyGoneExactly(t: Tables, p: Purge, id: Identifier)
    ensures BodyGone(t, p, id) <==> BodyAbsent(t, p, id)
  {
  }

  /**
   Exactly when the audit goes ahead: it names this request once and otherwise sources, each known in the
   request's namespace with no tip left in its lineage, and nine results are stored under the attempt.
   */
  lemma AuditExactly(t: Tables, p: Purge, attempt: nat)
    ensures Admits(t, p, MinimalAudit, attempt) <==>
              && (forall r :: r in ClosureOf(t, MinimalAudit) ==> KindFits(MinimalAudit, r.kind))
              && multiset(ClosureOf(t, MinimalAudit))[ObjectRef(DeleteRequestObject, p.id)] == 1
              && (forall r :: r in ClosureOf(t, MinimalAudit) && r.kind == DeleteRequestObject ==> r.id == p.id)
              && (forall r :: r in ClosureOf(t, MinimalAudit) && r.kind == SourceArtifactObject ==>
                    && r.id in t.artifacts && t.artifacts[r.id].space == p.space
                    && (p.space, t.artifacts[r.id].lineage) !in t.tips)
              && |set c: ComponentType | (attempt, c) in t.results| == 9
  {
    hide Closed, AuditShape, ResultsOf;
    ShapeExactly(p, ClosureOf(t, MinimalAudit));
    ClosedExactly(t, p, ClosureOf(t, MinimalAudit));
    RecordedExactly(t, attempt);
  }

  lemma RecordedExactly(t: Tables, attempt: nat)
    ensures ResultsOf(t, attempt) == set c: ComponentType | (attempt, c) in t.results
  {
    forall c | c in ResultsOf(t, attempt) ensures (attempt, c) in t.results {
      var k :| k in t.results && k.0 == attempt && k.1 == c;
      assert k == (attempt, c);
    }
    forall c: ComponentType | (attempt, c) in t.results ensures c in ResultsOf(t, attempt) {
      var k := (attempt, c);
      assert k in t.results && k.0 == attempt && k.1 == c;
    }
  }

  lemma ClosedExactly(t: Tables, p: Purge, refs: seq<ObjectRef>)
    ensures Closed(t, p, AuditSources(refs)) <==>
              forall r :: r in refs && r.kind == SourceArtifactObject ==>
                && r.id in t.artifacts && t.artifacts[r.id].space == p.space
                && (p.space, t.artifacts[r.id].lineage) !in t.tips
  {
    var sources := AuditSources(refs);
    assert forall s :: s in sources <==> exists i :: 0 <= i < |refs| && refs[i].kind == SourceArtifactObject && refs[i].id == s;
    assert forall i :: 0 <= i < |refs| ==> refs[i] in refs;
    assert forall s :: s in sources && s in t.artifacts ==> t.artifacts[s].lineage in Lineages(t, sources);
  }

  lemma ShapeExactly(p: Purge, refs: seq<ObjectRef>)
    ensures AuditShape(p, refs) <==>
              && (forall r :: r in refs ==> KindFits(MinimalAudit, r.kind))
              && multiset(refs)[ObjectRef(DeleteRequestObject, p.id)] == 1
              && (forall r :: r in refs && r.kind == DeleteRequestObject ==> r.id == p.id)
  {
    var own := ObjectRef(DeleteRequestObject, p.id);
    assert forall i :: 0 <= i < |refs| ==> refs[i] in refs;
    OnceExactly(refs, own);
    assert forall r :: r in refs ==> exists i :: 0 <= i < |refs| && refs[i] == r;
  }

  /** Once means somewhere, and not twice. */
  lemma {:induction false} OnceExactly(refs: seq<ObjectRef>, own: ObjectRef)
    ensures multiset(refs)[own] == 1 <==>
              && (exists i :: 0 <= i < |refs| && refs[i] == own)
              && forall i, j :: 0 <= i < j < |refs| ==> !(refs[i] == refs[j] == own)
  {
    if refs != [] {
      FirstCounts(refs, own);
      if refs[0] == own {
        NoneExactly(refs[1..], own);
        assert forall j :: 0 < j < |refs| ==> refs[j] == refs[1..][j - 1];
        assert forall j :: 0 <= j < |refs[1..]| ==> refs[1..][j] == refs[j + 1];
      } else {
        OnceExactly(refs[1..], own);
        RestCounts(refs, own);
      }
    }
  }

  lemma FirstCounts(refs: seq<ObjectRef>, own: ObjectRef)
    requires refs != []
    ensures multiset(refs)[own] == multiset(refs[1..])[own] + if refs[0] == own then 1 else 0
  {
    assert refs == [refs[0]] + refs[1..];
  }

  lemma RestCounts(refs: seq<ObjectRef>, own: ObjectRef)
    requires refs != [] && refs[0] != own
    ensures (exists i :: 0 <= i < |refs| && refs[i] == own) <==> exists i :: 0 <= i < |refs[1..]| && refs[1..][i] == own
    ensures (forall i, j :: 0 <= i < j < |refs| ==> !(refs[i] == refs[j] == own)) <==>
              forall i, j :: 0 <= i < j < |refs[1..]| ==> !(refs[1..][i] == refs[1..][j] == own)
  {
    var rest := refs[1..];
    if i :| 0 <= i < |refs| && refs[i] == own { assert rest[i - 1] == own; }
    if i :| 0 <= i < |rest| && rest[i] == own { assert refs[i + 1] == own; }
    if i, j :| 0 <= i < j < |refs| && refs[i] == refs[j] == own { assert rest[i - 1] == rest[j - 1] == own; }
    if i, j :| 0 <= i < j < |rest| && rest[i] == rest[j] == own { assert refs[i + 1] == refs[j + 1] == own; }
  }

  lemma NoneExactly(refs: seq<ObjectRef>, own: ObjectRef)
    ensures multiset(refs)[own] == 0 <==> forall i :: 0 <= i < |refs| ==> refs[i] != own
  {
    assert own in multiset(refs) <==> own in refs;
  }

  // ---------------------------------------------------------------- rows

  /** The state the audit settles on. */
  function Settled(failed: bool): DeletionState { if failed then DeletionState.Failed else DeletionState.Deleted }

  /** What becomes of a proposal or record: its component puts the marker in place of its text, the audit settles its state. */
  function ContentAfter(own: ComponentType, c: ComponentType, failed: bool, stored: Option<Content>): Option<Content> {
    match stored
    case None => None
    case Some(x) =>
      if c == own then Some(Content("[redacted:local-deletion]", DigestOf("[redacted:local-deletion]"), x.state))
      else if c == MinimalAudit then Some(Content(x.text, x.digest, Settled(failed)))
      else stored
  }

  lemma ContentTables(t: Tables, p: Purge, c: ComponentType, failed: bool)
    ensures Effect(t, p, c, failed).proposals ==
              if c == MemoryProposal then WithMarker(t.proposals, IdsIn(t, MemoryProposal))
              else if c == MinimalAudit then Stated(t.proposals, IdsIn(t, MemoryProposal), FinalState(failed))
              else t.proposals
    ensures Effect(t, p, c, failed).records ==
              if c == MemoryRecordComponent then WithMarker(t.records, IdsIn(t, MemoryRecordComponent))
              else if c == MinimalAudit then Stated(t.records, IdsIn(t, MemoryRecordComponent), FinalState(failed))
              else t.records
  {
    hide AuditSources, Ids, WithMarker, Stated, ArtifactsStated, Minimal, Silenced, Unlinked, Unindexed, AuditOf, BindingOf;
  }

  lemma ContentRows(t: Tables, p: Purge, c: ComponentType, failed: bool, id: Identifier)
    ensures Lookup(Effect(t, p, c, failed).proposals, id) ==
              if Names(t, MemoryProposal, id) then ContentAfter(MemoryProposal, c, failed, Lookup(t.proposals, id))
              else Lookup(t.proposals, id)
    ensures Lookup(Effect(t, p, c, failed).records, id) ==
              if Names(t, MemoryRecordComponent, id) then ContentAfter(MemoryRecordComponent, c, failed, Lookup(t.records, id))
              else Lookup(t.records, id)
  {
    NamesExactly(t, MemoryProposal, id);
    NamesExactly(t, MemoryRecordComponent, id);
    ContentTables(t, p, c, failed);
    hide Effect, Ids, Names, ClosureOf;
  }

  /** What becomes of a source: its component clears title and origin, the audit settles its state. */
  lemma ArtifactRows(t: Tables, p: Purge, c: ComponentType, failed: bool, id: Identifier)
    ensures Lookup(Effect(t, p, c, failed).artifacts, id) ==
              match Lookup(t.artifacts, id)
              case None => None
              case Some(x) =>
                if Names(t, SourceMetadata, id) && c == SourceMetadata then Some(Artifact(x.space, x.lineage, None, None, x.state))
                else if Names(t, SourceMetadata, id) && c == MinimalAudit then Some(Artifact(x.space, x.lineage, x.title, x.originRef, Settled(failed)))
                else Some(x)
  {
    NamesExactly(t, SourceMetadata, id);
    hide Ids, Names, AuditOf, BindingOf, Unlinked, Unindexed, Lineages;
  }

  /** Bodies before object storage, fragments and headings go with their own component and with no other. */
  lemma RemovedRows(t: Tables, p: Purge, c: ComponentType, failed: bool, id: Identifier)
    ensures Lookup(Effect(t, p, c, failed).bodies, id) ==
              if c == SourceBody && t.version < 11 && Names(t, SourceBody, id) then None else Lookup(t.bodies, id)
    ensures Lookup(Effect(t, p, c, failed).fragments, id) ==
              if c == SourceFragmentComponent && Names(t, SourceFragmentComponent, id) then None else Lookup(t.fragments, id)
    ensures Lookup(Effect(t, p, c, failed).headings, id) ==
              if c == SourceFragmentComponent && Names(t, SourceFragmentComponent, id) then None else Lookup(t.headings, id)
  {
    NamesExactly(t, SourceBody, id);
    NamesExactly(t, SourceFragmentComponent, id);
    RemovedTables(t, p, c, failed);
    hide Effect, Ids, Names, ClosureOf;
  }

  lemma RemovedTables(t: Tables, p: Purge, c: ComponentType, failed: bool)
    ensures Effect(t, p, c, failed).bodies == if c == SourceBody && t.version < 11 then t.bodies - IdsIn(t, SourceBody) else t.bodies
    ensures Effect(t, p, c, failed).fragments == if c == SourceFragmentComponent then t.fragments - IdsIn(t, c) else t.fragments
    ensures Effect(t, p, c, failed).headings == if c == SourceFragmentComponent then t.headings - IdsIn(t, c) else t.headings
    ensures Effect(t, p, c, failed).decisions == if c == MemoryDecisionComponent then Silenced(t.decisions, IdsIn(t, c)) else t.decisions
  {
    hide ClosureOf, AuditSources, Ids, WithMarker, Stated, ArtifactsStated, Minimal, Silenced, Unlinked, Unindexed, AuditOf, BindingOf;
  }

  /** A decision stays and loses its reason. */
  lemma DecisionRows(t: Tables, p: Purge, c: ComponentType, failed: bool, id: Identifier)
    ensures Lookup(Effect(t, p, c, failed).decisions, id) ==
              if c == MemoryDecisionComponent && Names(t, MemoryDecisionComponent, id) && id in t.decisions then Some(None)
              else Lookup(t.decisions, id)
  {
    NamesExactly(t, MemoryDecisionComponent, id);
    RemovedTables(t, p, c, failed);
    hide Effect, Ids, Names, ClosureOf;
  }

  lemma LinkTables(t: Tables, p: Purge, c: ComponentType, failed: bool)
    ensures Effect(t, p, c, failed).proposalFragments ==
              if c == MemoryProposal then Unlinked(t.proposalFragments, IdsIn(t, c)) else t.proposalFragments
    ensures Effect(t, p, c, failed).recordFragments ==
              if c == MemoryRecordComponent then Unlinked(t.recordFragments, IdsIn(t, c)) else t.recordFragments
    ensures Effect(t, p, c, failed).recall == if c == FullTextIndex then Unindexed(t.recall, ClosureOf(t, c)) else t.recall
  {
    hide ClosureOf, AuditSources, Ids, WithMarker, Stated, ArtifactsStated, Minimal, Silenced, Unlinked, Unindexed, AuditOf, BindingOf;
  }

  /** Links of redacted contents go, and recall rows of exactly the references the index component names. */
  lemma LinkRows(t: Tables, p: Purge, c: ComponentType, failed: bool, link: (Identifier, Identifier), row: RecallRow)
    ensures link in Effect(t, p, c, failed).proposalFragments <==>
              link in t.proposalFragments && !(c == MemoryProposal && Names(t, MemoryProposal, link.0))
    ensures link in Effect(t, p, c, failed).recordFragments <==>
              link in t.recordFragments && !(c == MemoryRecordComponent && Names(t, MemoryRecordComponent, link.0))
    ensures row in Effect(t, p, c, failed).recall <==>
              row in t.recall && !(c == FullTextIndex && ObjectRef(row.kind, row.id) in ClosureOf(t, FullTextIndex))
  {
    NamesExactly(t, MemoryProposal, link.0);
    NamesExactly(t, MemoryRecordComponent, link.0);
    LinkTables(t, p, c, failed);
    hide Effect, Ids, Names, ClosureOf;
  }

  /** The lineage is that of a source the audit names. */
  predicate OfNamedLineage(t: Tables, lineage: Identifier) {
    exists r :: r in ClosureOf(t, MinimalAudit) && r.kind == SourceArtifactObject && r.id in t.artifacts && t.artifacts[r.id].lineage == lineage
  }

  lemma LineagesExactly(t: Tables, lineage: Identifier)
    ensures OfNamedLineage(t, lineage) <==> lineage in Affected(t)
  {
    var refs := ClosureOf(t, MinimalAudit);
    if OfNamedLineage(t, lineage) {
      var r :| r in refs && r.kind == SourceArtifactObject && r.id in t.artifacts && t.artifacts[r.id].lineage == lineage;
      assert r.id in AuditSources(refs);
    }
    if lineage in Affected(t) {
      var s :| s in AuditSources(refs) && s in t.artifacts && t.artifacts[s].lineage == lineage;
      var i :| 0 <= i < |refs| && refs[i].kind == SourceArtifactObject && refs[i].id == s;
      assert refs[i] in refs;
    }
  }

  lemma AuditTables(t: Tables, p: Purge, c: ComponentType, failed: bool)
    ensures var purged := Purged(t, p, AuditSources(ClosureOf(t, MinimalAudit)));
      && Effect(t, p, c, failed).audit == (if c == MinimalAudit then purged.audit else t.audit)
      && Effect(t, p, c, failed).bindings == (if c == MinimalAudit then purged.bindings else t.bindings)
  {
    hide ClosureOf, AuditSources, Purged, Ids, WithMarker, Stated, ArtifactsStated, Minimal, Silenced, Unlinked, Unindexed;
  }

  /** Capture audit goes with the audit component, for exactly the lineages of the sources it names. */
  lemma AuditRows(t: Tables, p: Purge, c: ComponentType, failed: bool, row: AuditRow)
    ensures row in Effect(t, p, c, failed).audit <==>
              && row in t.audit
              && !(c == MinimalAudit && row.space == p.space && row.source in t.artifacts && t.artifacts[row.source].space == p.space
                   && OfNamedLineage(t, t.artifacts[row.source].lineage))
  {
    if row.source in t.artifacts { LineagesExactly(t, t.artifacts[row.source].lineage); }
    AuditTables(t, p, c, failed);
    hide OfNamedLineage, Effect, Lineages, AuditSources, ClosureOf;
  }

  /** So do origin bindings. */
  lemma BindingRows(t: Tables, p: Purge, c: ComponentType, failed: bool, row: BindingRow)
    ensures row in Effect(t, p, c, failed).bindings <==>
              row in t.bindings && !(c == MinimalAudit && row.space == p.space && OfNamedLineage(t, row.lineage))
  {
    LineagesExactly(t, row.lineage);
    AuditTables(t, p, c, failed);
    hide OfNamedLineage, Effect, Lineages, AuditSources, ClosureOf;
  }

  /** Tables that no component writes. */
  lemma OtherTables(t: Tables, p: Purge, c: ComponentType, failed: bool)
    ensures var u := Effect(t, p, c, failed);
      && u.version == t.version && u.vaultAttempts == t.vaultAttempts && u.vaultReferences == t.vaultReferences
      && u.vaultDeletions == t.vaultDeletions && u.legacyReceipts == t.legacyReceipts && u.events == t.events
      && u.tips == t.tips && u.closure == t.closure && u.attempts == t.attempts && u.results == t.results
  {
  }
}
