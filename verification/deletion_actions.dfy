/** The component actions and the attempt that runs them, proved against what they do to the tables. */
module DeletionActions {
  import opened CoreModel
  import opened DeletionEvidences
  import opened DeletionRuns
  import opened DeletionTables
  import opened Governances
  import opened Wrappers

  lemma IdsGrow(refs: seq<ObjectRef>, i: nat)
    requires i < |refs|
    ensures Ids(refs[..i + 1]) == Ids(refs[..i]) + {refs[i].id}
  {
    assert refs[..i + 1] == refs[..i] + [refs[i]];
  }

  lemma AllIds(refs: seq<ObjectRef>)
    ensures refs[..|refs|] == refs && Ids(refs[..0]) == {}
  {
  }

  /** One database transaction over the tables; dropping it undoes everything it did. */
  class Transaction {
    var tables: Tables

    constructor (tables: Tables)
      ensures this.tables == tables
    {
      this.tables := tables;
    }

    method DeleteSourceBodies(p: Purge, refs: seq<ObjectRef>) returns (r: Result<Outcome, Reason>)
      requires refs == ClosureOf(tables, SourceBody)
      modifies this
      ensures r.Success? <==> Admits(old(tables), p, SourceBody, 0)
      ensures r.Success? ==> tables == Effect(old(tables), p, SourceBody, false)
      ensures r.Success? && old(tables).version < 11 ==> r.value == if old(tables).bodies.Keys !! Ids(refs) then NotFound else Outcome.Deleted
      ensures r.Success? && old(tables).version >= 11 ==>
                (r.value == Outcome.Deleted <==> exists i :: 0 <= i < |refs| && VaultRetired(old(tables), p, refs[i].id))
    {
      if !OfType(refs, SourceArtifactObject) { return Failure(DeletionPlanMismatch); }
      if tables.version >= 11 {
        var retired := false;
        for i := 0 to |refs|
          invariant tables == old(tables)
          invariant forall k :: 0 <= k < i ==> BodyAbsent(tables, p, refs[k].id)
          invariant retired <==> exists k :: 0 <= k < i && VaultRetired(tables, p, refs[k].id)
        {
          if VaultRetired(tables, p, refs[i].id) {
            retired := true;
          } else {
            if tables.version < 12 || !LegacyAbsent(tables, p, refs[i].id) { return Failure(DeletionPlanMismatch); }
          }
        }
        return Success(if retired then Outcome.Deleted else NotFound);
      }
      var removed := 0;
      AllIds(refs);
      for i := 0 to |refs|
        invariant tables == old(tables).(bodies := old(tables).bodies - Ids(refs[..i]))
        invariant removed > 0 <==> !(old(tables).bodies.Keys !! Ids(refs[..i]))
        invariant removed >= 0
      {
        IdsGrow(refs, i);
        if refs[i].id in tables.bodies { removed := removed + 1; }
        tables := tables.(bodies := tables.bodies - {refs[i].id});
      }
      return Success(if removed == 0 then NotFound else Outcome.Deleted);
    }

    method RedactSourceMetadata(p: Purge, refs: seq<ObjectRef>) returns (r: Result<Outcome, Reason>)
      requires refs == ClosureOf(tables, SourceMetadata)
      modifies this
      ensures r.Success? <==> Admits(old(tables), p, SourceMetadata, 0)
      ensures r.Success? ==> tables == Effect(old(tables), p, SourceMetadata, false)
      ensures r.Success? ==> r.value == if old(tables).artifacts.Keys !! Ids(refs) then NotFound else RetainedMinimal
    {
      if !OfType(refs, SourceArtifactObject) { return Failure(DeletionPlanMismatch); }
      var retained := 0;
      AllIds(refs);
      assert Minimal(tables.artifacts, {}) == tables.artifacts;
      for i := 0 to |refs|
        invariant tables == old(tables).(artifacts := Minimal(old(tables).artifacts, Ids(refs[..i])))
        invariant retained > 0 <==> !(old(tables).artifacts.Keys !! Ids(refs[..i]))
        invariant retained >= 0
      {
        IdsGrow(refs, i);
        if refs[i].id in tables.artifacts {
          retained := retained + 1;
          tables := tables.(artifacts := tables.artifacts[refs[i].id := tables.artifacts[refs[i].id].(title := None, originRef := None)]);
        }
        assert tables.artifacts == Minimal(old(tables).artifacts, Ids(refs[..i + 1]));
      }
      return Success(if retained == 0 then NotFound else RetainedMinimal);
    }

    method DeleteSourceFragments(p: Purge, refs: seq<ObjectRef>) returns (r: Result<Outcome, Reason>)
      requires refs == ClosureOf(tables, SourceFragmentComponent)
      modifies this
      ensures r.Success? <==> Admits(old(tables), p, SourceFragmentComponent, 0)
      ensures r.Success? ==> tables == Effect(old(tables), p, SourceFragmentComponent, false)
      ensures r.Success? ==> r.value == if old(tables).fragments.Keys !! Ids(refs) then NotFound else Outcome.Deleted
    {
      if !OfType(refs, SourceFragmentObject) { return Failure(DeletionPlanMismatch); }
      var removed := 0;
      AllIds(refs);
      for i := 0 to |refs|
        invariant tables == old(tables).(headings := old(tables).headings - Ids(refs[..i]), fragments := old(tables).fragments - Ids(refs[..i]))
        invariant removed > 0 <==> !(old(tables).fragments.Keys !! Ids(refs[..i]))
        invariant removed >= 0
      {
        IdsGrow(refs, i);
        tables := tables.(headings := tables.headings - {refs[i].id});
        if refs[i].id in tables.fragments { removed := removed + 1; }
        tables := tables.(fragments := tables.fragments - {refs[i].id});
      }
      return Success(if removed == 0 then NotFound else Outcome.Deleted);
    }

    method RedactMemoryProposals(p: Purge, refs: seq<ObjectRef>) returns (r: Result<Outcome, Reason>)
      requires refs == ClosureOf(tables, MemoryProposal)
      modifies this
      ensures r.Success? <==> Admits(old(tables), p, MemoryProposal, 0)
      ensures r.Success? ==> tables == Effect(old(tables), p, MemoryProposal, false)
      ensures r.Success? ==> r.value == if old(tables).proposals.Keys !! Ids(refs) then NotFound else Outcome.Redacted
    {
      if !OfType(refs, MemoryProposalObject) { return Failure(DeletionPlanMismatch); }
      var redacted := 0;
      AllIds(refs);
      assert WithMarker(tables.proposals, {}) == tables.proposals && Unlinked(tables.proposalFragments, {}) == tables.proposalFragments;
      for i := 0 to |refs|
        invariant tables == old(tables).(proposalFragments := Unlinked(old(tables).proposalFragments, Ids(refs[..i])),
                                         proposals := WithMarker(old(tables).proposals, Ids(refs[..i])))
        invariant redacted > 0 <==> !(old(tables).proposals.Keys !! Ids(refs[..i]))
        invariant redacted >= 0
      {
        IdsGrow(refs, i);
        tables := tables.(proposalFragments := Unlinked(tables.proposalFragments, {refs[i].id}));
        if refs[i].id in tables.proposals { redacted := redacted + 1; }
        tables := tables.(proposals := MarkOne(tables.proposals, refs[i].id));
        assert tables.proposals == WithMarker(old(tables).proposals, Ids(refs[..i + 1]));
      }
      return Success(if redacted == 0 then NotFound else Outcome.Redacted);
    }

    method RetainMemoryDecisions(p: Purge, refs: seq<ObjectRef>) returns (r: Result<Outcome, Reason>)
      requires refs == ClosureOf(tables, MemoryDecisionComponent)
      modifies this
      ensures r.Success? <==> Admits(old(tables), p, MemoryDecisionComponent, 0)
      ensures r.Success? ==> tables == Effect(old(tables), p, MemoryDecisionComponent, false)
      ensures r.Success? ==> r.value == if old(tables).decisions.Keys !! Ids(refs) then NotFound else RetainedMinimal
    {
      if !OfType(refs, MemoryDecisionObject) { return Failure(DeletionPlanMismatch); }
      var retained := 0;
      AllIds(refs);
      assert Silenced(tables.decisions, {}) == tables.decisions;
      for i := 0 to |refs|
        invariant tables == old(tables).(decisions := Silenced(old(tables).decisions, Ids(refs[..i])))
        invariant retained > 0 <==> !(old(tables).decisions.Keys !! Ids(refs[..i]))
        invariant retained >= 0
      {
        IdsGrow(refs, i);
        if refs[i].id in tables.decisions {
          retained := retained + 1;
          tables := tables.(decisions := tables.decisions[refs[i].id := None]);
        }
        assert tables.decisions == Silenced(old(tables).decisions, Ids(refs[..i + 1]));
      }
      return Success(if retained == 0 then NotFound else RetainedMinimal);
    }

    method RedactMemoryRecords(p: Purge, refs: seq<ObjectRef>) returns (r: Result<Outcome, Reason>)
      requires refs == ClosureOf(tables, MemoryRecordComponent)
      modifies this
      ensures r.Success? <==> Admits(old(tables), p, MemoryRecordComponent, 0)
      ensures r.Success? ==> tables == Effect(old(tables), p, MemoryRecordComponent, false)
      ensures r.Success? ==> r.value == if old(tables).records.Keys !! Ids(refs) then NotFound else Outcome.Redacted
    {
      if !OfType(refs, MemoryRecordObject) { return Failure(DeletionPlanMismatch); }
      var redacted := 0;
      AllIds(refs);
      assert WithMarker(tables.records, {}) == tables.records && Unlinked(tables.recordFragments, {}) == tables.recordFragments;
      for i := 0 to |refs|
        invariant tables == old(tables).(recordFragments := Unlinked(old(tables).recordFragments, Ids(refs[..i])),
                                         records := WithMarker(old(tables).records, Ids(refs[..i])))
        invariant redacted > 0 <==> !(old(tables).records.Keys !! Ids(refs[..i]))
        invariant redacted >= 0
      {
        IdsGrow(refs, i);
        tables := tables.(recordFragments := Unlinked(tables.recordFragments, {refs[i].id}));
        if refs[i].id in tables.records { redacted := redacted + 1; }
        tables := tables.(records := MarkOne(tables.records, refs[i].id));
        assert tables.records == WithMarker(old(tables).records, Ids(refs[..i + 1]));
      }
      return Success(if redacted == 0 then NotFound else Outcome.Redacted);
    }

    method RetainMemoryEvents(p: Purge, refs: seq<ObjectRef>) returns (r: Result<Outcome, Reason>)
      requires refs == ClosureOf(tables, MemoryStateEvent)
      ensures r.Success? <==> Admits(tables, p, MemoryStateEvent, 0)
      ensures r.Success? ==> r.value == if tables.events !! Ids(refs) then NotFound else RetainedMinimal
    {
      if !OfType(refs, MemoryStateEventObject) { return Failure(DeletionPlanMismatch); }
      var retained := 0;
      AllIds(refs);
      for i := 0 to |refs|
        invariant retained > 0 <==> !(tables.events !! Ids(refs[..i]))
        invariant retained >= 0
      {
        IdsGrow(refs, i);
        if refs[i].id in tables.events { retained := retained + 1; }
      }
      return Success(if retained == 0 then NotFound else RetainedMinimal);
    }

    method DeleteFullTextRows(p: Purge, refs: seq<ObjectRef>) returns (r: Result<Outcome, Reason>)
      requires refs == ClosureOf(tables, FullTextIndex)
      modifies this
      ensures r.Success? <==> Admits(old(tables), p, FullTextIndex, 0)
      ensures r.Success? ==> tables == Effect(old(tables), p, FullTextIndex, false)
      ensures r.Success? ==> r.value == if tables.recall == old(tables).recall then NotFound else Outcome.Deleted
    {
      var removed := 0;
      var rows := tables.recall;
      AllIds(refs);
      assert Unindexed(rows, []) == rows;
      for i := 0 to |refs|
        invariant rows == Unindexed(tables.recall, refs[..i])
        invariant removed > 0 <==> rows != tables.recall
        invariant removed >= 0 && tables == old(tables)
        invariant forall k :: 0 <= k < i ==> refs[k].kind == SourceFragmentObject || refs[k].kind == MemoryRecordObject
      {
        if refs[i].kind != SourceFragmentObject && refs[i].kind != MemoryRecordObject { return Failure(DeletionPlanMismatch); }
        UnindexedGrows(tables.recall, refs, i);
        var kept := Unindexed(rows, [refs[i]]);
        RowsGone(rows, kept);
        removed := removed + |rows - kept|;
        rows := kept;
        if exists row :: row in rows && ObjectRef(row.kind, row.id) == refs[i] { return Failure(DeletionPlanMismatch); }
      }
      tables := tables.(recall := rows);
      return Success(if removed == 0 then NotFound else Outcome.Deleted);
    }

    /** Nothing of a context cache is stored; a closure that names any of it is refused. */
    method VerifyContextCacheAbsent(p: Purge, refs: seq<ObjectRef>) returns (r: Result<Outcome, Reason>)
      requires refs == ClosureOf(tables, ContextCache)
      ensures r == if Admits(tables, p, ContextCache, 0) then Success(NotFound) else Failure(DeletionPlanMismatch)
    {
      if refs != [] { return Failure(DeletionPlanMismatch); }
      return Success(NotFound);
    }

    method FinalizeArtifacts(artifacts: map<Identifier, Artifact>, refs: seq<ObjectRef>, state: DeletionState)
      returns (r: map<Identifier, Artifact>)
      ensures r == ArtifactsStated(artifacts, Ids(refs), state)
    {
      r := artifacts;
      AllIds(refs);
      assert ArtifactsStated(artifacts, {}, state) == artifacts;
      for i := 0 to |refs|
        invariant r == ArtifactsStated(artifacts, Ids(refs[..i]), state)
      {
        IdsGrow(refs, i);
        if refs[i].id in r { r := r[refs[i].id := r[refs[i].id].(state := state)]; }
        assert r == ArtifactsStated(artifacts, Ids(refs[..i + 1]), state);
      }
    }

    method FinalizeContents(contents: map<Identifier, Content>, refs: seq<ObjectRef>, state: DeletionState)
      returns (r: map<Identifier, Content>)
      ensures r == Stated(contents, Ids(refs), state)
    {
      r := contents;
      AllIds(refs);
      assert Stated(contents, {}, state) == contents;
      for i := 0 to |refs|
        invariant r == Stated(contents, Ids(refs[..i]), state)
      {
        IdsGrow(refs, i);
        if refs[i].id in r { r := r[refs[i].id := r[refs[i].id].(state := state)]; }
        assert r == Stated(contents, Ids(refs[..i + 1]), state);
      }
    }

    /** The lineages of the request's sources; every one of them has to be known in the namespace. */
    method CollectLineages(p: Purge, sources: seq<ObjectRef>) returns (r: Option<set<Identifier>>)
      ensures r.Some? <==> forall s :: s in Ids(sources) ==> s in tables.artifacts && tables.artifacts[s].space == p.space
      ensures r.Some? ==> r.value == Lineages(tables, Ids(sources))
    {
      var lineages: set<Identifier> := {};
      AllIds(sources);
      for i := 0 to |sources|
        invariant forall s :: s in Ids(sources[..i]) ==> s in tables.artifacts && tables.artifacts[s].space == p.space
        invariant lineages == Lineages(tables, Ids(sources[..i]))
      {
        IdsGrow(sources, i);
        var id := sources[i].id;
        if id !in tables.artifacts || tables.artifacts[id].space != p.space {
          assert id in Ids(sources);
          return None;
        }
        lineages := lineages + {tables.artifacts[id].lineage};
      }
      return Some(lineages);
    }

    method PurgeSourceEntryState(p: Purge, sources: seq<ObjectRef>) returns (ok: bool)
      modifies this
      ensures ok <==> Closed(old(tables), p, Ids(sources))
      ensures ok ==> tables == Purged(old(tables), p, Ids(sources))
    {
      var collected := CollectLineages(p, sources);
      if collected.None? { return false; }
      var lineages := collected.value;
      ghost var done: set<Identifier> := {};
      assert tables == PurgedOf(tables, p, {});
      while lineages != {}
        invariant done + lineages == Lineages(old(tables), Ids(sources)) && done !! lineages
        invariant tables == PurgedOf(old(tables), p, done)
        invariant forall l :: l in done ==> (p.space, l) !in old(tables).tips
        decreases lineages
      {
        var lineage :| lineage in lineages;
        if (p.space, lineage) in tables.tips { return false; }
        tables := PurgedOf(tables, p, {lineage});
        assert tables == PurgedOf(old(tables), p, done + {lineage});
        done, lineages := done + {lineage}, lineages - {lineage};
      }
      return true;
    }

    method RetainMinimalAudit(p: Purge, refs: seq<ObjectRef>, attempt: nat, failed: bool) returns (r: Result<Outcome, Reason>)
      requires refs == ClosureOf(tables, MinimalAudit)
      modifies this
      ensures r.Success? <==> Admits(old(tables), p, MinimalAudit, attempt)
      ensures r.Success? ==> tables == Effect(old(tables), p, MinimalAudit, failed) && r.value == RetainedMinimal
    {
      hide Purged, Finalized, Closed, Stated, ArtifactsStated;
      var requests := Filtered(refs, DeleteRequestObject);
      var sources := Filtered(refs, SourceArtifactObject);
      FilteredAudit(p, refs);
      if |requests| != 1 || requests[0].id != p.id || |requests| + |sources| != |refs| { return Failure(DeletionPlanMismatch); }
      if |ResultsOf(tables, attempt)| != 9 { return Failure(DeletionPlanMismatch); }
      FilteredIds(refs);
      var purged := PurgeSourceEntryState(p, sources);
      if !purged { return Failure(DeletionPlanMismatch); }
      ghost var before := tables;
      PurgedKeeps(old(tables), p, AuditSources(refs));
      var artifacts := FinalizeArtifacts(tables.artifacts, ClosureOf(tables, SourceMetadata), FinalState(failed));
      tables := tables.(artifacts := artifacts);
      var proposals := FinalizeContents(tables.proposals, ClosureOf(tables, MemoryProposal), FinalState(failed));
      tables := tables.(proposals := proposals);
      var records := FinalizeContents(tables.records, ClosureOf(tables, MemoryRecordComponent), FinalState(failed));
      tables := tables.(records := records);
      FinalizedParts(before, FinalState(failed));
      return Success(RetainedMinimal);
    }
  }

  /** The tables without the audit rows and bindings of these lineages. */
  function PurgedOf(t: Tables, p: Purge, lineages: set<Identifier>): Tables {
    t.(audit := (set r | r in t.audit && !AuditOf(t, p.space, lineages, r)),
       bindings := (set r | r in t.bindings && !BindingOf(p.space, lineages, r)))
  }

  lemma PurgedKeeps(t: Tables, p: Purge, sources: set<Identifier>)
    ensures Purged(t, p, sources).closure == t.closure
  {
  }

  lemma FinalizedParts(t: Tables, state: DeletionState)
    ensures Finalized(t, state) == t.(artifacts := ArtifactsStated(t.artifacts, IdsIn(t, SourceMetadata), state))
                                    .(proposals := Stated(t.proposals, IdsIn(t, MemoryProposal), state))
                                    .(records := Stated(t.records, IdsIn(t, MemoryRecordComponent), state))
  {
  }

  function Filtered(refs: seq<ObjectRef>, kind: ObjectType): seq<ObjectRef> {
    if refs == [] then []
    else if refs[0].kind == kind then [refs[0]] + Filtered(refs[1..], kind)
    else Filtered(refs[1..], kind)
  }

  lemma IdsHead(r: ObjectRef, rest: seq<ObjectRef>)
    ensures Ids([r] + rest) == {r.id} + Ids(rest)
  {
    var all := [r] + rest;
    assert all[0] == r && forall i :: 0 <= i < |rest| ==> rest[i] == all[i + 1];
    forall id | id in Ids(rest) ensures id in Ids(all) {
      var i :| 0 <= i < |rest| && rest[i].id == id;
      assert all[i + 1].id == id;
    }
  }

  lemma {:induction false} FilteredIds(refs: seq<ObjectRef>)
    ensures Ids(Filtered(refs, SourceArtifactObject)) == AuditSources(refs)
  {
    if refs != [] {
      FilteredIds(refs[1..]);
      var rest := Filtered(refs[1..], SourceArtifactObject);
      assert forall i :: 0 < i < |refs| ==> refs[i] == refs[1..][i - 1];
      assert AuditSources(refs) == AuditSources(refs[1..]) + if refs[0].kind == SourceArtifactObject then {refs[0].id} else {};
      if refs[0].kind == SourceArtifactObject {
        IdsHead(refs[0], rest);
      }
    }
  }

  lemma FilteredAudit(p: Purge, refs: seq<ObjectRef>)
    ensures var requests, sources := Filtered(refs, DeleteRequestObject), Filtered(refs, SourceArtifactObject);
            AuditShape(p, refs) <==> |requests| == 1 && requests[0].id == p.id && |requests| + |sources| == |refs|
  {
    FilteredCounts(refs);
    FilteredOnce(refs);
    FilteredMembers(refs, DeleteRequestObject);
    var requests := Filtered(refs, DeleteRequestObject);
    if |requests| == 1 { assert requests[0] in requests; }
  }

  lemma {:induction false} FilteredMembers(refs: seq<ObjectRef>, kind: ObjectType)
    ensures forall r :: r in Filtered(refs, kind) <==> r in refs && r.kind == kind
  {
    if refs != [] {
      FilteredMembers(refs[1..], kind);
      assert refs == [refs[0]] + refs[1..];
    }
  }

  lemma {:induction false} FilteredCounts(refs: seq<ObjectRef>)
    ensures var requests, sources := Filtered(refs, DeleteRequestObject), Filtered(refs, SourceArtifactObject);
            && |requests| + |sources| <= |refs|
            && (|requests| + |sources| == |refs| <==> forall i :: 0 <= i < |refs| ==> refs[i].kind == SourceArtifactObject || refs[i].kind == DeleteRequestObject)
  {
    if refs != [] {
      FilteredCounts(refs[1..]);
      assert forall i :: 0 < i < |refs| ==> refs[i] == refs[1..][i - 1];
    }
  }

  lemma {:induction false} FilteredOnce(refs: seq<ObjectRef>)
    ensures |Filtered(refs, DeleteRequestObject)| <= 1 <==>
              forall i, j :: 0 <= i < j < |refs| ==> !(refs[i].kind == refs[j].kind == DeleteRequestObject)
  {
    if refs != [] {
      FilteredOnce(refs[1..]);
      FilteredMembers(refs[1..], DeleteRequestObject);
      assert forall i :: 0 < i < |refs| ==> refs[i] == refs[1..][i - 1];
      var rest := Filtered(refs[1..], DeleteRequestObject);
      if rest != [] {
        assert rest[0] in rest;
        var k :| 0 <= k < |refs[1..]| && refs[1..][k] == rest[0];
        assert refs[k + 1].kind == DeleteRequestObject;
      }
      if j :| 0 < j < |refs| && refs[j].kind == DeleteRequestObject { assert refs[1..][j - 1] in rest; }
    }
  }

  lemma UnindexedGrows(rows: set<RecallRow>, refs: seq<ObjectRef>, i: nat)
    requires i < |refs|
    ensures Unindexed(Unindexed(rows, refs[..i]), [refs[i]]) == Unindexed(rows, refs[..i + 1])
    ensures forall row :: row in Unindexed(rows, refs[..i + 1]) ==> ObjectRef(row.kind, row.id) != refs[i]
  {
    assert refs[..i + 1] == refs[..i] + [refs[i]];
  }

  function MarkOne(m: map<Identifier, Content>, id: Identifier): map<Identifier, Content> {
    if id in m then m[id := Content(REDACTION_MARKER, DigestOf(REDACTION_MARKER), m[id].state)] else m
  }

  lemma RowsGone(before: set<RecallRow>, after: set<RecallRow>)
    requires after <= before
    ensures after != before <==> |before - after| > 0
  {
    if after != before {
      var row :| row in before && row !in after;
      assert row in before - after;
    } else {
      assert before - after == {};
    }
  }

  // ---------------------------------------------------------------- attempts

  /** Whether any component before has failed. */
  predicate AnyFailed(oks: seq<bool>) { exists i :: 0 <= i < |oks| && !oks[i] }

  /** Every governed source, proposal and record of the closures is in the state, the others as they were. */
  predicate Governed(t: Tables, u: Tables, state: DeletionState) {
    && (forall k <- t.artifacts.Keys :: k in u.artifacts &&
          if k in IdsIn(t, SourceMetadata) then u.artifacts[k] == t.artifacts[k].(state := state) else u.artifacts[k] == t.artifacts[k])
    && (forall k <- t.proposals.Keys :: k in u.proposals &&
          if k in IdsIn(t, MemoryProposal) then u.proposals[k] == t.proposals[k].(state := state) else u.proposals[k] == t.proposals[k])
    && (forall k <- t.records.Keys :: k in u.records &&
          if k in IdsIn(t, MemoryRecordComponent) then u.records[k] == t.records[k].(state := state) else u.records[k] == t.records[k])
  }

  /** The audit settles every governed state by whether a component before it failed. */
  lemma AuditGoverns(t: Tables, u: Tables, p: Purge, attempt: nat, failed: bool)
    requires Step(t, u, p, MinimalAudit, attempt, failed, true)
    ensures Governed(t, u, if failed then DeletionState.Failed else DeletionState.Deleted)
  {
    hide Admits, Purged, Governed, Finalized, IdsIn;
    var purged := Purged(t, p, AuditSources(ClosureOf(t, MinimalAudit)));
    PurgedLeaves(t, p, AuditSources(ClosureOf(t, MinimalAudit)));
    FinalizedGoverns(t, purged, u, if failed then DeletionState.Failed else DeletionState.Deleted);
  }

  lemma PurgedLeaves(t: Tables, p: Purge, sources: set<Identifier>)
    ensures var u := Purged(t, p, sources);
            u.artifacts == t.artifacts && u.proposals == t.proposals && u.records == t.records && u.closure == t.closure
  {
  }

  lemma FinalizedGoverns(t: Tables, purged: Tables, u: Tables, state: DeletionState)
    requires purged.artifacts == t.artifacts && purged.proposals == t.proposals && purged.records == t.records && purged.closure == t.closure
    requires u == Finalized(purged, state).(results := u.results)
    ensures Governed(t, u, state)
  {
    hide IdsIn;
    SameClosures(t, purged);
    assert u.artifacts == ArtifactsStated(t.artifacts, IdsIn(t, SourceMetadata), state);
    assert u.proposals == Stated(t.proposals, IdsIn(t, MemoryProposal), state);
    assert u.records == Stated(t.records, IdsIn(t, MemoryRecordComponent), state);
  }

  lemma SameClosures(t: Tables, u: Tables)
    requires u.closure == t.closure
    ensures forall c :: IdsIn(u, c) == IdsIn(t, c)
  {
  }

  /** One attempt: the tables before and after every component, each in its turn, told of failures so far. */
  ghost predicate Attempted(states: seq<Tables>, p: Purge, attempt: nat, oks: seq<bool>) {
    && |oks| == 10 && |states| == 11
    && forall i :: 0 <= i < 10 ==> Step(states[i], states[i + 1], p, ExecutionOrder()[i], attempt, AnyFailed(oks[..i]), oks[i])
  }

  /** The stored database; components run in transactions of their own. */
  class DeletionDatabase {
    var tables: Tables

    constructor (tables: Tables)
      ensures this.tables == tables
    {
      this.tables := tables;
    }

    /** Runs one action in a transaction. A fault is any storage error that undoes the transaction. */
    method RunAction(p: Purge, c: ComponentType, attempt: nat, failed: bool, fault: bool) returns (done: Option<Tables>)
      ensures done.Some? <==> Admits(tables, p, c, attempt) && !fault
      ensures done.Some? ==> done.value == Effect(tables, p, c, failed)
    {
      var transaction := new Transaction(tables);
      var refs := ClosureOf(tables, c);
      var r: Result<Outcome, Reason>;
      match c {
        case SourceBody => r := transaction.DeleteSourceBodies(p, refs);
        case SourceMetadata => r := transaction.RedactSourceMetadata(p, refs);
        case SourceFragmentComponent => r := transaction.DeleteSourceFragments(p, refs);
        case MemoryProposal => r := transaction.RedactMemoryProposals(p, refs);
        case MemoryDecisionComponent => r := transaction.RetainMemoryDecisions(p, refs);
        case MemoryRecordComponent => r := transaction.RedactMemoryRecords(p, refs);
        case MemoryStateEvent => r := transaction.RetainMemoryEvents(p, refs);
        case FullTextIndex => r := transaction.DeleteFullTextRows(p, refs);
        case ContextCache => r := transaction.VerifyContextCacheAbsent(p, refs);
        case MinimalAudit => r := transaction.RetainMinimalAudit(p, refs, attempt, failed);
      }
      if r.Failure? || fault { return None; }
      return Some(transaction.tables);
    }

    /**
     One attempt over all ten components. A component that refuses or is undone is recorded as failed
     and the attempt goes on; the audit then marks the governed objects as failed.
     */
    method ExecuteRequest(p: Purge, faults: seq<bool>) returns (attempt: nat, oks: seq<bool>, ghost states: seq<Tables>)
      requires |faults| == 10
      modifies this
      ensures attempt == old(tables).attempts + 1
      ensures Attempted(states, p, attempt, oks) && states[0] == old(tables).(attempts := attempt) && tables == states[10]
      ensures forall i :: 0 <= i < 10 ==> (oks[i] <==> Admits(states[i], p, ExecutionOrder()[i], attempt) && !faults[i])
      ensures oks[9] ==> Governed(states[9], tables, if AnyFailed(oks[..9]) then DeletionState.Failed else DeletionState.Deleted)
      ensures old(Executable(tables, p)) ==> Executable(tables, p)
      ensures old(Numbered(tables)) ==> Numbered(tables)
      ensures old(Executable(tables, p) && Numbered(tables)) && (forall i :: 0 <= i < 10 ==> !faults[i]) ==> !AnyFailed(oks)
    {
      hide Admits, Effect, Executable, ResultsOf, Governed, Numbered;
      attempt := tables.attempts + 1;
      tables := tables.(attempts := attempt);
      oks := [];
      states := [tables];
      var hasFailed := false;
      for i := 0 to 10
        invariant |oks| == i && |states| == i + 1 && states[0] == old(tables).(attempts := attempt) && states[i] == tables
        invariant hasFailed == AnyFailed(oks)
        invariant forall k :: 0 <= k < i ==> Step(states[k], states[k + 1], p, ExecutionOrder()[k], attempt, AnyFailed(oks[..k]), oks[k])
        invariant forall k :: 0 <= k < i ==> (oks[k] <==> Admits(states[k], p, ExecutionOrder()[k], attempt) && !faults[k])
      {
        var c := ExecutionOrder()[i];
        var done := RunAction(p, c, attempt, hasFailed, faults[i]);
        var before := tables;
        if done.Some? {
          tables := done.value.(results := before.results[(attempt, c) := Succeeded]);
        } else {
          hasFailed := true;
          tables := before.(results := before.results[(attempt, c) := Status.Failed]);
        }
        AttemptGrows(oks, done.Some?);
        assert oks[..i] == oks;
        oks, states := oks + [done.Some?], states + [tables];
        assert forall k :: 0 <= k < i ==> oks[..k] == oks[..i][..k];
      }
      AttemptEnds(old(tables), states, p, attempt, oks);
    }
  }

  lemma AttemptGrows(oks: seq<bool>, ok: bool)
    ensures AnyFailed(oks + [ok]) <==> AnyFailed(oks) || !ok
  {
    var all := oks + [ok];
    assert all[|oks|] == ok;
    if AnyFailed(oks) {
      var i :| 0 <= i < |oks| && !oks[i];
      assert !all[i];
    }
  }

  /** The request stays executable through an attempt, whatever fails in it. */
  lemma {:induction false} AttemptExecutable(states: seq<Tables>, p: Purge, attempt: nat, oks: seq<bool>, n: nat)
    requires Attempted(states, p, attempt, oks) && n <= 10 && Executable(states[0], p)
    ensures Executable(states[n], p)
  {
    hide Executable, Step, Framed;
    if n > 0 {
      var i := n - 1;
      AttemptExecutable(states, p, attempt, oks, i);
      assert Step(states[i], states[i + 1], p, ExecutionOrder()[i], attempt, AnyFailed(oks[..i]), oks[i]);
      StepFramed(states[i], states[n], p, ExecutionOrder()[i], attempt, AnyFailed(oks[..i]), oks[i]);
      FramedExecutable(states[i], states[n], p);
    }
  }

  /** Results are stored under the attempt's own number, one for each component that had its turn. */
  lemma {:induction false} AttemptNumbered(states: seq<Tables>, p: Purge, attempt: nat, oks: seq<bool>, n: nat)
    requires Attempted(states, p, attempt, oks) && n <= 10 && ResultsOf(states[0], attempt) == {}
    ensures ResultsOf(states[n], attempt) == set i | 0 <= i < n :: ExecutionOrder()[i]
    ensures attempt <= states[0].attempts && Numbered(states[0]) ==> attempt <= states[n].attempts && Numbered(states[n])
  {
    hide Step, Numbered, ResultsOf;
    if n > 0 {
      var i := n - 1;
      AttemptNumbered(states, p, attempt, oks, i);
      assert Step(states[i], states[i + 1], p, ExecutionOrder()[i], attempt, AnyFailed(oks[..i]), oks[i]);
      StepResults(states[i], states[n], p, ExecutionOrder()[i], attempt, AnyFailed(oks[..i]), oks[i]);
    }
  }

  lemma BeginsUnrecorded(t: Tables)
    requires Numbered(t)
    ensures var begun := t.(attempts := t.attempts + 1); Numbered(begun) && ResultsOf(begun, t.attempts + 1) == {}
  {
    assert forall k :: k in t.results ==> k.0 != t.attempts + 1;
  }

  /** Nine components come before the audit, each once. */
  lemma NineBefore()
    ensures |set i | 0 <= i < 9 :: ExecutionOrder()[i]| == 9
  {
    var order := ExecutionOrder();
    assert (set i | 0 <= i < 9 :: order[i]) == {order[0], order[1], order[2], order[3], order[4], order[5], order[6], order[7], order[8]};
  }

  /** An executable request without a storage fault succeeds in all ten components, however earlier attempts ended. */
  lemma CleanAttemptSucceeds(states: seq<Tables>, p: Purge, attempt: nat, oks: seq<bool>)
    requires Attempted(states, p, attempt, oks) && Executable(states[0], p) && ResultsOf(states[0], attempt) == {}
    requires forall i :: 0 <= i < 10 && Admits(states[i], p, ExecutionOrder()[i], attempt) ==> oks[i]
    ensures !AnyFailed(oks)
  {
    hide Step, Executable;
    forall i | 0 <= i < 10 ensures oks[i] {
      AttemptExecutable(states, p, attempt, oks, i);
      AttemptNumbered(states, p, attempt, oks, i);
      if i == 9 { NineBefore(); }
      TurnAdmitted(states[i], p, attempt, i);
    }
  }

  lemma TurnAdmitted(t: Tables, p: Purge, attempt: nat, i: nat)
    requires i < 10 && Executable(t, p) && (i == 9 ==> |ResultsOf(t, attempt)| == 9)
    ensures Admits(t, p, ExecutionOrder()[i], attempt)
  {
    var c := ExecutionOrder()[i];
    if i < 9 { assert c != MinimalAudit && Admits(t, p, c, 0); }
  }

  /** What an attempt leaves, from whatever tables it began. */
  lemma AttemptEnds(before: Tables, states: seq<Tables>, p: Purge, attempt: nat, oks: seq<bool>)
    requires Attempted(states, p, attempt, oks) && attempt == before.attempts + 1 && states[0] == before.(attempts := attempt)
    ensures oks[9] ==> Governed(states[9], states[10], if AnyFailed(oks[..9]) then DeletionState.Failed else DeletionState.Deleted)
    ensures Executable(before, p) ==> Executable(states[10], p)
    ensures Numbered(before) ==> Numbered(states[10])
    ensures Executable(before, p) && Numbered(before)
            && (forall i :: 0 <= i < 10 && Admits(states[i], p, ExecutionOrder()[i], attempt) ==> oks[i])
            ==> !AnyFailed(oks)
  {
    hide Step, Executable, Governed, ResultsOf, Framed, Admits;
    if oks[9] {
      assert Step(states[9], states[9 + 1], p, ExecutionOrder()[9], attempt, AnyFailed(oks[..9]), oks[9]);
      AuditGoverns(states[9], states[10], p, attempt, AnyFailed(oks[..9]));
    }
    if Executable(before, p) {
      FramedSelf(before, states[0], p);
      FramedExecutable(before, states[0], p);
      AttemptExecutable(states, p, attempt, oks, 10);
    }
    if Numbered(before) {
      BeginsUnrecorded(before);
      AttemptNumbered(states, p, attempt, oks, 10);
      if Executable(before, p) && forall i :: 0 <= i < 10 && Admits(states[i], p, ExecutionOrder()[i], attempt) ==> oks[i] {
        CleanAttemptSucceeds(states, p, attempt, oks);
      }
    }
  }

  /** The moves of an attempt, for the history of a whole run. */
  ghost function MovesOf(attempt: nat, oks: seq<bool>): (moves: seq<Move>)
    requires |oks| == 10
    ensures |moves| == 10
    ensures forall i :: 0 <= i < 10 ==> moves[i] == Component(ExecutionOrder()[i], attempt, AnyFailed(oks[..i]), oks[i])
  {
    seq(10, i requires 0 <= i < 10 => Component(ExecutionOrder()[i], attempt, AnyFailed(oks[..i]), oks[i]))
  }

  /** After any run so far, an attempt whose ten results are all successes has purged everything. */
  lemma SuccessfulAttemptPurges(ts: seq<Tables>, p: Purge, moves: seq<Move>, attempt: nat, oks: seq<bool>, states: seq<Tables>)
    requires Run(ts, p, moves) && Attempted(states, p, attempt, oks)
    requires states[0] == ts[|moves|].(attempts := ts[|moves|].attempts + 1) && !AnyFailed(oks)
    ensures (forall c: ComponentType :: Done(states[10], p, c)) && Framed(ts[0], states[10], p)
  {
    hide Done, Framed, Step;
    var longer := moves + [Begin] + MovesOf(attempt, oks);
    var run := ts + states;
    forall i | 0 <= i < |longer| ensures Moved(run[i], run[i + 1], p, longer[i]) {
      if i < |moves| {
        assert Moved(ts[i], ts[i + 1], p, moves[i]);
      } else if i > |moves| {
        var k := i - |moves| - 1;
        assert longer[i] == MovesOf(attempt, oks)[k] && run[i] == states[k] && run[i + 1] == states[k + 1];
      }
    }
    forall i | 0 <= i < 10 ensures longer[|longer| - 10 + i] == Component(ExecutionOrder()[i], attempt, false, true) {
      NoneFailed(oks, i);
      assert longer[|longer| - 10 + i] == MovesOf(attempt, oks)[i];
    }
    CleanAttemptPurges(run, p, longer, attempt);
    assert run[|longer|] == states[10] && run[0] == ts[0];
  }

  lemma NoneFailed(oks: seq<bool>, i: nat)
    requires !AnyFailed(oks) && i < |oks|
    ensures oks[i] && !AnyFailed(oks[..i])
  {
    forall k | 0 <= k < i ensures oks[..i][k] { assert oks[k]; }
  }
}
