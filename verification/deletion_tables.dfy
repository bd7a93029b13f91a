/**
 What the ten component actions of a local deletion do to the stored tables, as functions of the
 tables before, and what they never do.
 */
module DeletionTables {
  import opened CoreModel
  import opened DeletionEvidences
  import opened Governances
  import opened Wrappers

  const REDACTION_MARKER := "[redacted:local-deletion]"

  /** The digest of a text, without collisions. */
  datatype TextDigest = DigestOf(text: string)

  datatype Content = Content(text: string, digest: TextDigest, state: DeletionState)

  datatype Artifact = Artifact(space: Identifier, lineage: Identifier, title: Option<string>, originRef: Option<string>, state: DeletionState)

  datatype RecallRow = RecallRow(kind: ObjectType, id: Identifier, text: string)

  datatype AuditRow = AuditRow(space: Identifier, source: Identifier, fact: string)

  datatype BindingRow = BindingRow(space: Identifier, lineage: Identifier, binding: Identifier)

  /** The tables one request touches or reads; closures, attempts and results are those of the request. */
  datatype Tables = Tables(
    version: nat,
    bodies: map<Identifier, string>,
    vaultAttempts: set<Identifier>,
    vaultReferences: set<Identifier>,
    vaultDeletions: map<Identifier, Identifier>,
    legacyReceipts: set<(Identifier, Identifier)>,
    artifacts: map<Identifier, Artifact>,
    fragments: map<Identifier, string>,
    headings: map<Identifier, seq<string>>,
    proposals: map<Identifier, Content>,
    proposalFragments: set<(Identifier, Identifier)>,
    decisions: map<Identifier, Option<string>>,
    records: map<Identifier, Content>,
    recordFragments: set<(Identifier, Identifier)>,
    events: set<Identifier>,
    recall: set<RecallRow>,
    tips: set<(Identifier, Identifier)>,
    audit: set<AuditRow>,
    bindings: set<BindingRow>,
    closure: map<ComponentType, seq<ObjectRef>>,
    attempts: nat,
    results: map<(nat, ComponentType), Status>)

  datatype Purge = Purge(id: Identifier, space: Identifier)

  // ---------------------------------------------------------------- closures

  function ClosureOf(t: Tables, c: ComponentType): seq<ObjectRef> {
    if c in t.closure then t.closure[c] else []
  }

  function Ids(refs: seq<ObjectRef>): set<Identifier> {
    set i | 0 <= i < |refs| :: refs[i].id
  }

  function IdsIn(t: Tables, c: ComponentType): set<Identifier> { Ids(ClosureOf(t, c)) }

  predicate OfType(refs: seq<ObjectRef>, kind: ObjectType) {
    forall i :: 0 <= i < |refs| ==> refs[i].kind == kind
  }

  /** The closure of the audit component: the request itself and sources. */
  function AuditSources(refs: seq<ObjectRef>): set<Identifier> {
    set i | 0 <= i < |refs| && refs[i].kind == SourceArtifactObject :: refs[i].id
  }

  // ---------------------------------------------------------------- single tables

  function WithMarker(m: map<Identifier, Content>, ids: set<Identifier>): map<Identifier, Content> {
    map k | k in m :: if k in ids then Content(REDACTION_MARKER, DigestOf(REDACTION_MARKER), m[k].state) else m[k]
  }

  function Stated(m: map<Identifier, Content>, ids: set<Identifier>, state: DeletionState): map<Identifier, Content> {
    map k | k in m :: if k in ids then m[k].(state := state) else m[k]
  }

  function ArtifactsStated(m: map<Identifier, Artifact>, ids: set<Identifier>, state: DeletionState): map<Identifier, Artifact> {
    map k | k in m :: if k in ids then m[k].(state := state) else m[k]
  }

  function Minimal(m: map<Identifier, Artifact>, ids: set<Identifier>): map<Identifier, Artifact> {
    map k | k in m :: if k in ids then m[k].(title := None, originRef := None) else m[k]
  }

  function Silenced(m: map<Identifier, Option<string>>, ids: set<Identifier>): map<Identifier, Option<string>> {
    map k | k in m :: if k in ids then None else m[k]
  }

  function Unlinked(links: set<(Identifier, Identifier)>, ids: set<Identifier>): set<(Identifier, Identifier)> {
    set l | l in links && l.0 !in ids
  }

  function Unindexed(rows: set<RecallRow>, refs: seq<ObjectRef>): set<RecallRow> {
    set r | r in rows && ObjectRef(r.kind, r.id) !in refs
  }

  // ---------------------------------------------------------------- audit

  function Lineages(t: Tables, sources: set<Identifier>): set<Identifier> {
    set s | s in sources && s in t.artifacts :: t.artifacts[s].lineage
  }

  /** The audit row belongs to a source of one of these lineages. */
  predicate AuditOf(t: Tables, space: Identifier, lineages: set<Identifier>, row: AuditRow) {
    row.space == space && row.source in t.artifacts && t.artifacts[row.source].space == space
    && t.artifacts[row.source].lineage in lineages
  }

  predicate BindingOf(space: Identifier, lineages: set<Identifier>, row: BindingRow) {
    row.space == space && row.lineage in lineages
  }

  /** All sources are the namespace's own, and no lineage still has a tip. */
  predicate Closed(t: Tables, p: Purge, sources: set<Identifier>) {
    && (forall s :: s in sources ==> s in t.artifacts && t.artifacts[s].space == p.space)
    && forall l :: l in Lineages(t, sources) ==> (p.space, l) !in t.tips
  }

  function Purged(t: Tables, p: Purge, sources: set<Identifier>): Tables {
    var lineages := Lineages(t, sources);
    t.(audit := (set r | r in t.audit && !AuditOf(t, p.space, lineages, r)),
       bindings := (set r | r in t.bindings && !BindingOf(p.space, lineages, r)))
  }

  function Finalized(t: Tables, state: DeletionState): Tables {
    t.(artifacts := ArtifactsStated(t.artifacts, IdsIn(t, SourceMetadata), state),
       proposals := Stated(t.proposals, IdsIn(t, MemoryProposal), state),
       records := Stated(t.records, IdsIn(t, MemoryRecordComponent), state))
  }

  /** The closure of the audit is one reference to the request among sources. */
  predicate AuditShape(p: Purge, refs: seq<ObjectRef>) {
    && (exists i :: 0 <= i < |refs| && refs[i] == ObjectRef(DeleteRequestObject, p.id))
    && (forall i :: 0 <= i < |refs| ==> refs[i].kind == SourceArtifactObject || refs[i] == ObjectRef(DeleteRequestObject, p.id))
    && (forall i, j :: 0 <= i < j < |refs| ==> !(refs[i].kind == refs[j].kind == DeleteRequestObject))
  }

  predicate AuditReady(t: Tables, p: Purge, attempt: nat) {
    && AuditShape(p, ClosureOf(t, MinimalAudit))
    && |ResultsOf(t, attempt)| == 9
    && Closed(t, p, AuditSources(ClosureOf(t, MinimalAudit)))
  }

  function ResultsOf(t: Tables, attempt: nat): set<ComponentType> {
    set k | k in t.results && k.0 == attempt :: k.1
  }

  // ---------------------------------------------------------------- bodies

  /** The vault has retired the object for this request, and no reference is left. */
  predicate VaultRetired(t: Tables, p: Purge, source: Identifier) {
    source in t.vaultDeletions && t.vaultDeletions[source] == p.id && source !in t.vaultReferences
  }

  /** An earlier deletion removed the inline body, and nothing of the source is in the vault. */
  predicate LegacyAbsent(t: Tables, p: Purge, source: Identifier) {
    && (source, p.id) in t.legacyReceipts && source !in t.bodies && source !in t.vaultAttempts
    && source !in t.vaultReferences && source !in t.vaultDeletions
  }

  predicate BodyAbsent(t: Tables, p: Purge, source: Identifier) {
    VaultRetired(t, p, source) || (t.version >= 12 && LegacyAbsent(t, p, source))
  }

  // ---------------------------------------------------------------- effects

  /** The action finds its closure, and the tables, as it demands; otherwise it refuses. */
  predicate Admits(t: Tables, p: Purge, c: ComponentType, attempt: nat) {
    var refs := ClosureOf(t, c);
    match c
    case SourceBody =>
      OfType(refs, SourceArtifactObject) && (t.version >= 11 ==> forall i :: 0 <= i < |refs| ==> BodyAbsent(t, p, refs[i].id))
    case SourceMetadata => OfType(refs, SourceArtifactObject)
    case SourceFragmentComponent => OfType(refs, SourceFragmentObject)
    case MemoryProposal => OfType(refs, MemoryProposalObject)
    case MemoryDecisionComponent => OfType(refs, MemoryDecisionObject)
    case MemoryRecordComponent => OfType(refs, MemoryRecordObject)
    case MemoryStateEvent => OfType(refs, MemoryStateEventObject)
    case FullTextIndex => forall i :: 0 <= i < |refs| ==> refs[i].kind == SourceFragmentObject || refs[i].kind == MemoryRecordObject
    case ContextCache => refs == []
    case MinimalAudit => AuditReady(t, p, attempt)
  }

  function FinalState(failed: bool): DeletionState { if failed then DeletionState.Failed else DeletionState.Deleted }

  /** The tables after an admitted action. */
  function Effect(t: Tables, p: Purge, c: ComponentType, failed: bool): Tables {
    var refs := ClosureOf(t, c);
    var ids := Ids(refs);
    match c
    case SourceBody => if t.version < 11 then t.(bodies := t.bodies - ids) else t
    case SourceMetadata => t.(artifacts := Minimal(t.artifacts, ids))
    case SourceFragmentComponent => t.(headings := t.headings - ids, fragments := t.fragments - ids)
    case MemoryProposal => t.(proposalFragments := Unlinked(t.proposalFragments, ids), proposals := WithMarker(t.proposals, ids))
    case MemoryDecisionComponent => t.(decisions := Silenced(t.decisions, ids))
    case MemoryRecordComponent => t.(recordFragments := Unlinked(t.recordFragments, ids), records := WithMarker(t.records, ids))
    case MemoryStateEvent => t
    case FullTextIndex => t.(recall := Unindexed(t.recall, refs))
    case ContextCache => t
    case MinimalAudit => Finalized(Purged(t, p, AuditSources(refs)), FinalState(failed))
  }

  /** A component's transaction: the action with its success, or nothing but its failure. */
  ghost predicate Step(t: Tables, u: Tables, p: Purge, c: ComponentType, attempt: nat, failed: bool, ok: bool) {
    if ok then Admits(t, p, c, attempt) && u == Effect(t, p, c, failed).(results := t.results[(attempt, c) := Succeeded])
    else u == t.(results := t.results[(attempt, c) := Status.Failed])
  }

  // ---------------------------------------------------------------- what stays

  /** Entries outside `ids` are untouched, entries inside may only vanish or change. */
  predicate SameOutside<V(==)>(a: map<Identifier, V>, b: map<Identifier, V>, ids: set<Identifier>) {
    && b.Keys <= a.Keys
    && forall k :: k in a && k !in ids ==> k in b && b[k] == a[k]
  }

  /** The lineages whose audit rows and origin bindings the request may remove. */
  function Affected(t: Tables): set<Identifier> { Lineages(t, AuditSources(ClosureOf(t, MinimalAudit))) }

  /** Nothing outside the closures has changed, except audit rows and bindings of the affected lineages. */
  predicate Framed(t: Tables, u: Tables, p: Purge) {
    && FramedFixed(t, u)
    && SameOutside(t.bodies, u.bodies, IdsIn(t, SourceBody))
    && SameOutside(t.artifacts, u.artifacts, IdsIn(t, SourceMetadata))
    && SameOutside(t.fragments, u.fragments, IdsIn(t, SourceFragmentComponent))
    && SameOutside(t.headings, u.headings, IdsIn(t, SourceFragmentComponent))
    && SameOutside(t.proposals, u.proposals, IdsIn(t, MemoryProposal))
    && SameOutside(t.decisions, u.decisions, IdsIn(t, MemoryDecisionComponent))
    && SameOutside(t.records, u.records, IdsIn(t, MemoryRecordComponent))
    && FramedSets(t, u, p)
    && (forall k :: k in t.artifacts ==> k in u.artifacts && u.artifacts[k].space == t.artifacts[k].space && u.artifacts[k].lineage == t.artifacts[k].lineage)
  }

  /** Tables no component writes. */
  predicate FramedFixed(t: Tables, u: Tables) {
    && u.version == t.version && u.vaultAttempts == t.vaultAttempts && u.vaultReferences == t.vaultReferences
    && u.vaultDeletions == t.vaultDeletions && u.legacyReceipts == t.legacyReceipts && u.events == t.events
    && u.tips == t.tips && u.closure == t.closure
  }

  predicate FramedSets(t: Tables, u: Tables, p: Purge) {
    && u.proposalFragments <= t.proposalFragments && u.recordFragments <= t.recordFragments && u.recall <= t.recall
    && u.audit <= t.audit && u.bindings <= t.bindings
    && (forall l :: l in t.proposalFragments && l.0 !in IdsIn(t, MemoryProposal) ==> l in u.proposalFragments)
    && (forall l :: l in t.recordFragments && l.0 !in IdsIn(t, MemoryRecordComponent) ==> l in u.recordFragments)
    && (forall r :: r in t.recall && ObjectRef(r.kind, r.id) !in ClosureOf(t, FullTextIndex) ==> r in u.recall)
    && (forall r :: r in t.audit && !AuditOf(t, p.space, Affected(t), r) ==> r in u.audit)
    && (forall r :: r in t.bindings && !BindingOf(p.space, Affected(t), r) ==> r in u.bindings)
  }

  lemma FramedSelf(t: Tables, u: Tables, p: Purge)
    requires u == t.(results := u.results, attempts := u.attempts)
    ensures Framed(t, u, p)
  {
  }

  lemma MapsOutside(t: Tables, ids: set<Identifier>, state: DeletionState)
    ensures SameOutside(t.bodies, t.bodies - ids, ids)
    ensures SameOutside(t.fragments, t.fragments - ids, ids) && SameOutside(t.headings, t.headings - ids, ids)
    ensures SameOutside(t.artifacts, Minimal(t.artifacts, ids), ids)
    ensures SameOutside(t.artifacts, ArtifactsStated(t.artifacts, ids, state), ids)
    ensures SameOutside(t.proposals, WithMarker(t.proposals, ids), ids) && SameOutside(t.records, WithMarker(t.records, ids), ids)
    ensures SameOutside(t.proposals, Stated(t.proposals, ids, state), ids) && SameOutside(t.records, Stated(t.records, ids, state), ids)
    ensures SameOutside(t.decisions, Silenced(t.decisions, ids), ids)
  {
  }

  /** Maps that change only inside the closures keep the frame. */
  lemma MapsFramed(t: Tables, u: Tables, p: Purge)
    requires u == t.(bodies := u.bodies, artifacts := u.artifacts, fragments := u.fragments, headings := u.headings,
                     proposals := u.proposals, decisions := u.decisions, records := u.records)
    requires SameOutside(t.bodies, u.bodies, IdsIn(t, SourceBody)) && SameOutside(t.artifacts, u.artifacts, IdsIn(t, SourceMetadata))
    requires SameOutside(t.fragments, u.fragments, IdsIn(t, SourceFragmentComponent))
    requires SameOutside(t.headings, u.headings, IdsIn(t, SourceFragmentComponent))
    requires SameOutside(t.proposals, u.proposals, IdsIn(t, MemoryProposal))
    requires SameOutside(t.decisions, u.decisions, IdsIn(t, MemoryDecisionComponent))
    requires SameOutside(t.records, u.records, IdsIn(t, MemoryRecordComponent))
    requires forall k :: k in t.artifacts ==> k in u.artifacts && u.artifacts[k].space == t.artifacts[k].space && u.artifacts[k].lineage == t.artifacts[k].lineage
    ensures Framed(t, u, p)
  {
    hide SameOutside;
  }

  lemma NothingOutside(t: Tables)
    ensures SameOutside(t.bodies, t.bodies, IdsIn(t, SourceBody)) && SameOutside(t.artifacts, t.artifacts, IdsIn(t, SourceMetadata))
    ensures SameOutside(t.fragments, t.fragments, IdsIn(t, SourceFragmentComponent))
    ensures SameOutside(t.headings, t.headings, IdsIn(t, SourceFragmentComponent))
    ensures SameOutside(t.proposals, t.proposals, IdsIn(t, MemoryProposal))
    ensures SameOutside(t.decisions, t.decisions, IdsIn(t, MemoryDecisionComponent))
    ensures SameOutside(t.records, t.records, IdsIn(t, MemoryRecordComponent))
  {
  }

  /** Sets that lose only rows of the closures keep the frame. */
  lemma SetsFramed(t: Tables, u: Tables, p: Purge)
    requires u == t.(proposalFragments := u.proposalFragments, recordFragments := u.recordFragments, recall := u.recall,
                     audit := u.audit, bindings := u.bindings)
    requires FramedSets(t, u, p)
    ensures Framed(t, u, p)
  {
    hide SameOutside, FramedSets;
    NothingOutside(t);
  }

  lemma PurgedFramed(t: Tables, p: Purge)
    ensures Framed(t, Purged(t, p, AuditSources(ClosureOf(t, MinimalAudit))), p)
  {
    hide SameOutside;
    SetsFramed(t, Purged(t, p, AuditSources(ClosureOf(t, MinimalAudit))), p);
  }

  lemma FinalizedFramed(t: Tables, p: Purge, state: DeletionState)
    ensures Framed(t, Finalized(t, state), p)
  {
    hide Minimal, WithMarker, Silenced, Ids;
    NothingOutside(t);
    MapsOutside(t, IdsIn(t, SourceMetadata), state);
    MapsOutside(t, IdsIn(t, MemoryProposal), state);
    MapsOutside(t, IdsIn(t, MemoryRecordComponent), state);
    hide SameOutside, Framed;
    MapsFramed(t, Finalized(t, state), p);
  }

  lemma EffectFramed(t: Tables, p: Purge, c: ComponentType, failed: bool)
    ensures Framed(t, Effect(t, p, c, failed), p)
  {
    hide Framed, Purged, Finalized, WithMarker, Minimal, Silenced, Unlinked, Unindexed, Ids;
    FramedSelf(t, t, p);
    match c
    case SourceBody => BodiesFramed(t, p);
    case SourceMetadata => MetadataFramed(t, p);
    case SourceFragmentComponent => FragmentsFramed(t, p);
    case MemoryProposal => ProposalsFramed(t, p);
    case MemoryDecisionComponent => DecisionsFramed(t, p);
    case MemoryRecordComponent => RecordsFramed(t, p);
    case FullTextIndex => IndexFramed(t, p);
    case MinimalAudit => AuditFramed(t, p, FinalState(failed));
    case _ =>
  }

  lemma BodiesFramed(t: Tables, p: Purge)
    ensures Framed(t, t.(bodies := t.bodies - IdsIn(t, SourceBody)), p)
  {
    hide SameOutside, Framed, WithMarker, Silenced, Unlinked;
    NothingOutside(t);
    MapsOutside(t, IdsIn(t, SourceBody), DeletionState.Active);
    MapsFramed(t, t.(bodies := t.bodies - IdsIn(t, SourceBody)), p);
  }

  lemma FragmentsFramed(t: Tables, p: Purge)
    ensures Framed(t, t.(headings := t.headings - IdsIn(t, SourceFragmentComponent), fragments := t.fragments - IdsIn(t, SourceFragmentComponent)), p)
  {
    hide SameOutside, Framed, WithMarker, Silenced, Unlinked;
    NothingOutside(t);
    MapsOutside(t, IdsIn(t, SourceFragmentComponent), DeletionState.Active);
    MapsFramed(t, t.(headings := t.headings - IdsIn(t, SourceFragmentComponent), fragments := t.fragments - IdsIn(t, SourceFragmentComponent)), p);
  }

  lemma DecisionsFramed(t: Tables, p: Purge)
    ensures Framed(t, t.(decisions := Silenced(t.decisions, IdsIn(t, MemoryDecisionComponent))), p)
  {
    hide SameOutside, Framed, WithMarker, Silenced, Unlinked;
    NothingOutside(t);
    MapsOutside(t, IdsIn(t, MemoryDecisionComponent), DeletionState.Active);
    MapsFramed(t, t.(decisions := Silenced(t.decisions, IdsIn(t, MemoryDecisionComponent))), p);
  }

  lemma ProposalsFramed(t: Tables, p: Purge)
    ensures Framed(t, t.(proposalFragments := Unlinked(t.proposalFragments, IdsIn(t, MemoryProposal)),
                        proposals := WithMarker(t.proposals, IdsIn(t, MemoryProposal))), p)
  {
    hide SameOutside, Framed, WithMarker, Silenced, Unlinked;
    NothingOutside(t);
    MapsOutside(t, IdsIn(t, MemoryProposal), DeletionState.Active);
    LinksFramed(t, t.(proposalFragments := Unlinked(t.proposalFragments, IdsIn(t, MemoryProposal)),
                        proposals := WithMarker(t.proposals, IdsIn(t, MemoryProposal))), p);
  }

  lemma RecordsFramed(t: Tables, p: Purge)
    ensures Framed(t, t.(recordFragments := Unlinked(t.recordFragments, IdsIn(t, MemoryRecordComponent)),
                        records := WithMarker(t.records, IdsIn(t, MemoryRecordComponent))), p)
  {
    hide SameOutside, Framed, WithMarker, Silenced, Unlinked;
    NothingOutside(t);
    MapsOutside(t, IdsIn(t, MemoryRecordComponent), DeletionState.Active);
    LinksFramed(t, t.(recordFragments := Unlinked(t.recordFragments, IdsIn(t, MemoryRecordComponent)),
                        records := WithMarker(t.records, IdsIn(t, MemoryRecordComponent))), p);
  }

  lemma AuditFramed(t: Tables, p: Purge, state: DeletionState)
    ensures Framed(t, Finalized(Purged(t, p, AuditSources(ClosureOf(t, MinimalAudit))), state), p)
  {
    hide Framed, Purged, Finalized;
    var purged := Purged(t, p, AuditSources(ClosureOf(t, MinimalAudit)));
    PurgedFramed(t, p);
    FinalizedFramed(purged, p, state);
    FramedTransitive(t, purged, Finalized(purged, state), p);
  }

  lemma IndexFramed(t: Tables, p: Purge)
    ensures Framed(t, t.(recall := Unindexed(t.recall, ClosureOf(t, FullTextIndex))), p)
  {
    hide SameOutside;
    SetsFramed(t, t.(recall := Unindexed(t.recall, ClosureOf(t, FullTextIndex))), p);
  }

  lemma MetadataFramed(t: Tables, p: Purge)
    ensures Framed(t, t.(artifacts := Minimal(t.artifacts, IdsIn(t, SourceMetadata))), p)
  {
    NothingOutside(t);
    MapsOutside(t, IdsIn(t, SourceMetadata), DeletionState.Active);
    hide SameOutside, Framed;
    MapsFramed(t, t.(artifacts := Minimal(t.artifacts, IdsIn(t, SourceMetadata))), p);
  }

  /** Redacting contents and their links keeps the frame. */
  lemma LinksFramed(t: Tables, u: Tables, p: Purge)
    requires u == t.(proposalFragments := u.proposalFragments, proposals := u.proposals,
                     recordFragments := u.recordFragments, records := u.records)
    requires u.proposalFragments == t.proposalFragments || u.proposalFragments == Unlinked(t.proposalFragments, IdsIn(t, MemoryProposal))
    requires u.recordFragments == t.recordFragments || u.recordFragments == Unlinked(t.recordFragments, IdsIn(t, MemoryRecordComponent))
    requires SameOutside(t.proposals, u.proposals, IdsIn(t, MemoryProposal))
    requires SameOutside(t.records, u.records, IdsIn(t, MemoryRecordComponent))
    ensures Framed(t, u, p)
  {
    hide SameOutside;
    NothingOutside(t);
  }

  /** One component leaves everything outside the closures alone, whether it succeeds or fails. */
  lemma StepFramed(t: Tables, u: Tables, p: Purge, c: ComponentType, attempt: nat, failed: bool, ok: bool)
    requires Step(t, u, p, c, attempt, failed, ok)
    ensures Framed(t, u, p)
  {
    hide Effect, Framed;
    if ok {
      var e := Effect(t, p, c, failed);
      EffectFramed(t, p, c, failed);
      FramedResults(t, e, u, p);
    } else {
      FramedSelf(t, u, p);
    }
  }

  lemma FramedResults(t: Tables, e: Tables, u: Tables, p: Purge)
    requires Framed(t, e, p) && u == e.(results := u.results, attempts := u.attempts)
    ensures Framed(t, u, p)
  {
  }

  lemma FramedTransitive(t: Tables, u: Tables, v: Tables, p: Purge)
    requires Framed(t, u, p) && Framed(u, v, p)
    ensures Framed(t, v, p)
  {
    hide SameOutside, FramedSets;
    OutsideTransitive(t.bodies, u.bodies, v.bodies, IdsIn(t, SourceBody));
    OutsideTransitive(t.artifacts, u.artifacts, v.artifacts, IdsIn(t, SourceMetadata));
    OutsideTransitive(t.fragments, u.fragments, v.fragments, IdsIn(t, SourceFragmentComponent));
    OutsideTransitive(t.headings, u.headings, v.headings, IdsIn(t, SourceFragmentComponent));
    OutsideTransitive(t.proposals, u.proposals, v.proposals, IdsIn(t, MemoryProposal));
    OutsideTransitive(t.decisions, u.decisions, v.decisions, IdsIn(t, MemoryDecisionComponent));
    OutsideTransitive(t.records, u.records, v.records, IdsIn(t, MemoryRecordComponent));
    SetsTransitive(t, u, v, p);
  }

  lemma OutsideTransitive<V>(a: map<Identifier, V>, b: map<Identifier, V>, c: map<Identifier, V>, ids: set<Identifier>)
    requires SameOutside(a, b, ids) && SameOutside(b, c, ids)
    ensures SameOutside(a, c, ids)
  {
  }

  lemma SetsTransitive(t: Tables, u: Tables, v: Tables, p: Purge)
    requires FramedSets(t, u, p) && FramedSets(u, v, p) && u.closure == t.closure
    requires SameOutside(t.artifacts, u.artifacts, IdsIn(t, SourceMetadata))
    requires forall k :: k in t.artifacts ==> k in u.artifacts && u.artifacts[k].space == t.artifacts[k].space && u.artifacts[k].lineage == t.artifacts[k].lineage
    ensures FramedSets(t, v, p)
  {
    assert Affected(u) == Affected(t);
    forall r | r in t.audit && !AuditOf(t, p.space, Affected(t), r) ensures r in v.audit {
      assert !AuditOf(u, p.space, Affected(u), r);
    }
  }
}
