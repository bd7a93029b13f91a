/**
 The SQLite half of the vault: the tables the coordinators read and the atomic transactions they
 commit. A transaction either refuses and changes nothing or yields the complete new tables.
 */
module Databases {
  import opened Wrappers
  import opened Objects

  datatype Inventory = NoInventory | Migrating | ObjectsReady

  datatype RowState = Planned | Prepared | Referenced | Retired | Committed | Abandoning | Abandoned

  /** One request to store a source; its fingerprint binds every field. */
  datatype Capture = Capture(binding: Id, meta: Metadata, body: seq<Byte>, details: string)

  /** A row of the attempts table; only rows of kind `capture` carry a request. */
  datatype Row = Row(meta: Metadata, state: RowState, attempt: Option<Attempt>, request: Option<Capture>)

  datatype DeletionState = Active | Pending | Failed | Deleted

  /** The canonical source facts without the body. */
  datatype Artifact = Artifact(meta: Metadata, details: string, deletion: DeletionState)

  datatype Deletion = Deletion(request: Id, done: bool)

  datatype Database = Database(
    inventory: Inventory,
    attempts: map<Id, Row>,
    references: map<Id, Attempt>,
    bodies: map<Id, seq<Byte>>,
    artifacts: map<Id, Artifact>,
    plans: map<Id, set<Id>>,
    deletions: map<Id, Deletion>)

  /** The exact selection an abandonment was confirmed for. */
  datatype Target = Target(source: Id, request: Capture, attempt: Attempt, meta: Metadata)

  datatype Transaction =
    | InitializeInventory
    | Prepare(source: Id, attempt: Attempt)
    | CommitReference(source: Id)
    | RetireInline(source: Id)
    | FinishMigration
    | PrepareCapture(capture: Capture, attempt: Attempt)
    | CommitCapture(capture: Capture)
    | BeginAbandonment(target: Target)
    | FinishAbandonment(target: Target)
    | BeginDeletion(request: Id, targets: set<Id>)
    | FinishRetirement(request: Id, source: Id)
    | ExecuteDeletion(request: Id, failed: bool)

  /** The source whose request still has to be finished or abandoned. */
  predicate HasState(db: Database, state: RowState) {
    exists id :: id in db.attempts && db.attempts[id].state == state
  }

  predicate DeletionInProgress(db: Database) {
    exists id :: id in db.artifacts && (db.artifacts[id].deletion == Pending || db.artifacts[id].deletion == Failed)
  }

  datatype Decision = Refuse | Idempotent | Store

  /** Whether a capture may be stored now, was stored before, or is refused. */
  function Decide(db: Database, c: Capture): Decision {
    var id := c.meta.source;
    if DeletionInProgress(db) || HasState(db, Abandoning) then Refuse
    else if exists j :: j in db.attempts && db.attempts[j].state == Prepared && db.attempts[j].request != Some(c) then Refuse
    else if id in db.attempts && db.attempts[id].request.Some? then
      if db.attempts[id].state == Abandoned || db.attempts[id].request != Some(c) then Refuse
      else if db.attempts[id].state == Committed then
        if id in db.artifacts && db.artifacts[id] == Artifact(c.meta, c.details, Active) then Idempotent else Refuse
      else if id in db.artifacts then Refuse else Store
    else if id in db.artifacts then Refuse
    else Store
  }

  function SetState(db: Database, id: Id, state: RowState): Database
    requires id in db.attempts
  {
    db.(attempts := db.attempts[id := db.attempts[id].(state := state)])
  }

  /** The row an abandonment target selects, when every field still agrees. */
  predicate Selects(db: Database, t: Target) {
    && t.source in db.attempts
    && db.attempts[t.source].request == Some(t.request)
    && db.attempts[t.source].attempt == Some(t.attempt)
    && db.attempts[t.source].meta == t.meta
    && db.attempts[t.source].state in {Prepared, Abandoning, Abandoned}
  }

  /** A target that may enter a new deletion plan. */
  predicate Deletable(db: Database, id: Id) {
    && id in db.artifacts && db.artifacts[id].deletion == Active
    && id in db.references
    && id in db.attempts && db.attempts[id].state in {Retired, Committed}
  }

  /** The guarded update of an abandonment: the state it starts from and no committed facts. */
  predicate Uncommitted(db: Database, t: Target, from: RowState) {
    db.attempts.Keys >= {t.source} && db.attempts[t.source].state == from
    && t.source !in db.references && t.source !in db.artifacts
  }

  /** The tables after the transaction, or `None` when it is refused and rolled back. */
  function Commit(db: Database, tx: Transaction): Option<Database> {
    match tx
    case InitializeInventory =>
      if db.inventory == NoInventory then
        Some(db.(inventory := Migrating,
                 attempts := map id | id in db.artifacts.Keys * db.bodies.Keys
                   :: Row(db.artifacts[id].meta, Planned, None, None)))
      else if db.inventory == Migrating then Some(db)
      else None
    case Prepare(id, a) =>
      if db.inventory == Migrating && id in db.attempts && db.attempts[id].state in {Planned, Prepared} then
        Some(db.(attempts := db.attempts[id := db.attempts[id].(state := Prepared, attempt := Some(a))]))
      else None
    case CommitReference(id) =>
      if db.inventory == Migrating && id in db.attempts && db.attempts[id].state == Prepared
         && db.attempts[id].attempt.Some? && id !in db.references
      then
        Some(SetState(db, id, Referenced).(references := db.references[id := db.attempts[id].attempt.value]))
      else None
    case RetireInline(id) =>
      if db.inventory == Migrating && id in db.attempts && db.attempts[id].state == Referenced && id in db.bodies then
        Some(SetState(db, id, Retired).(bodies := db.bodies - {id}))
      else None
    case FinishMigration =>
      if db.inventory != NoInventory && forall id :: id in db.attempts ==> db.attempts[id].state == Retired then
        Some(db.(inventory := ObjectsReady))
      else None
    case PrepareCapture(c, a) =>
      var id := c.meta.source;
      if db.inventory != ObjectsReady then None
      else if HasState(db, Prepared) then
        if id in db.attempts && db.attempts[id].state == Prepared && db.attempts[id].request == Some(c) then
          Some(db.(attempts := db.attempts[id := db.attempts[id].(attempt := Some(a))]))
        else None
      else if id in db.attempts || HasState(db, Abandoning) then None
      else Some(db.(attempts := db.attempts[id := Row(c.meta, Prepared, Some(a), Some(c))]))
    case CommitCapture(c) =>
      var id := c.meta.source;
      if db.inventory == ObjectsReady && Decide(db, c) == Store
         && id in db.attempts && db.attempts[id].state == Prepared && db.attempts[id].request == Some(c)
         && db.attempts[id].attempt.Some? && id !in db.references
      then
        Some(SetState(db, id, Committed).(
          references := db.references[id := db.attempts[id].attempt.value],
          artifacts := db.artifacts[id := Artifact(c.meta, c.details, Active)]))
      else None
    case BeginAbandonment(t) =>
      if db.inventory != ObjectsReady || !Selects(db, t) then None
      else if db.attempts[t.source].state != Prepared then Some(db)
      else if Uncommitted(db, t, Prepared) then Some(SetState(db, t.source, Abandoning))
      else None
    case FinishAbandonment(t) =>
      if db.inventory != ObjectsReady || !Selects(db, t) then None
      else if db.attempts[t.source].state == Abandoned then Some(db)
      else if Uncommitted(db, t, Abandoning) then Some(SetState(db, t.source, Abandoned))
      else None
    case BeginDeletion(r, targets) =>
      if db.inventory != ObjectsReady then None
      else if r in db.plans then
        if db.plans[r] == targets then Some(db) else None
      else if HasState(db, Prepared) || HasState(db, Abandoning) || DeletionInProgress(db) then None
      else if forall id :: id in targets ==> Deletable(db, id) then
        Some(db.(plans := db.plans[r := targets],
                 references := db.references - targets,
                 artifacts := map id | id in db.artifacts
                   :: if id in targets then db.artifacts[id].(deletion := Pending) else db.artifacts[id],
                 deletions := db.deletions + map id | id in targets :: Deletion(r, false)))
      else None
    case FinishRetirement(r, id) =>
      if db.inventory == ObjectsReady && r in db.plans && id in db.deletions && db.deletions[id].request == r then
        Some(db.(deletions := db.deletions[id := Deletion(r, true)]))
      else None
    case ExecuteDeletion(r, failed) =>
      if db.inventory == ObjectsReady && r in db.plans
         && forall id :: id in db.deletions && db.deletions[id].request == r ==> db.deletions[id].done
      then
        Some(db.(artifacts := map id | id in db.artifacts
          :: if id in db.plans[r] then db.artifacts[id].(deletion := if failed then Failed else Deleted) else db.artifacts[id]))
      else None
  }
}
