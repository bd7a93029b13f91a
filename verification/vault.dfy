/**
 The vault as one state machine: the disk and the database, changed by licensed disk operations, by
 committed transactions and by crashes, in any order. The coordinators (modules BodyMigration and
 Coordinators) only ever produce such events, so what is proved here of every lawful history holds of
 every interleaving of migration, capture, abandonment, deletion and reconciliation, cut off anywhere.
 */
module Vaults {
  import opened Wrappers
  import opened Objects
  import opened Disks
  import opened Databases

  datatype Vault = Vault(disk: Disk, db: Database)

  datatype Event =
    | OnDisk(op: DiskOp)
    | OnDatabase(tx: Transaction)
    | Crash(garbage: map<Inode, Content>)

  /** The row an attempt on disk belongs to. */
  predicate OwnedBy(db: Database, a: Attempt, meta: Metadata) {
    && a.locator.source in db.attempts
    && db.attempts[a.locator.source].attempt == Some(a)
    && db.attempts[a.locator.source].meta == meta
  }

  /** The stored decision to remove the object. */
  predicate Retiring(db: Database, id: Id) {
    || (id in db.attempts && db.attempts[id].state == Abandoning)
    || (id in db.deletions && !db.deletions[id].done)
  }

  /** The object of the row is to stay, or to become, the committed one. */
  predicate Kept(db: Database, id: Id) {
    id in db.attempts && db.attempts[id].state in {Prepared, Referenced, Retired, Committed} && id !in db.deletions
  }

  /** Which row states allow which disk operations. */
  predicate Authorized(db: Database, op: DiskOp) {
    match op
    case Create(a, _, m) => OwnedBy(db, a, m) && db.attempts[a.locator.source].state == Prepared
    case Write(a, _, m) => OwnedBy(db, a, m) && db.attempts[a.locator.source].state == Prepared
    case Link(a, m) => OwnedBy(db, a, m) && db.attempts[a.locator.source].state == Prepared
    case Unlink(a, m) => OwnedBy(db, a, m) && Kept(db, a.locator.source)
    case RemoveStaging(a, m) => OwnedBy(db, a, m) && Retiring(db, a.locator.source)
    case RemoveObject(a, m) => OwnedBy(db, a, m) && Retiring(db, a.locator.source)
    case _ => true
  }

  /** What a coordinator has established about the disk before it commits the transaction. */
  ghost predicate Evidence(v: Vault, tx: Transaction) {
    match tx
    case InitializeInventory =>
      v.db.inventory == NoInventory ==> v.disk.objects == map[] && v.disk.staging == map[]
    case Prepare(id, a) =>
      id in v.db.attempts && a.locator == LocatorFor(v.db.attempts[id].meta) && GoneFor(v, id)
    case CommitReference(id) => id in v.db.attempts && PublishedFor(v, id)
    case RetireInline(id) => id in v.db.attempts && PublishedFor(v, id)
    case PrepareCapture(c, a) =>
      a.locator == LocatorFor(c.meta) && Matches(c.meta, c.body) && Decide(v.db, c) == Store
      && (c.meta.source in v.db.attempts ==> GoneFor(v, c.meta.source))
    case CommitCapture(c) => c.meta.source in v.db.attempts && PublishedFor(v, c.meta.source)
    case FinishAbandonment(t) => v.db.attempts.Keys >= {t.source} && RemovedFor(v, t.source)
    case FinishRetirement(_, id) => id in v.db.attempts && RemovedFor(v, id)
    case _ => true
  }

  /** No name of the row's current attempt is visible. */
  predicate GoneFor(v: Vault, id: Id)
    requires id in v.db.attempts
  {
    var row := v.db.attempts[id];
    row.attempt.Some? ==>
      row.attempt.value !in v.disk.staging && row.attempt.value.locator !in v.disk.objects
  }

  predicate PublishedFor(v: Vault, id: Id)
    requires id in v.db.attempts
  {
    var row := v.db.attempts[id];
    row.attempt.Some? && PublishedOnly(v.disk, row.meta, row.attempt.value)
  }

  predicate RemovedFor(v: Vault, id: Id)
    requires id in v.db.attempts
  {
    var row := v.db.attempts[id];
    row.attempt.Some? && DurablyAbsent(v.disk, row.attempt.value)
  }

  ghost predicate Permitted(v: Vault, e: Event) {
    match e
    case OnDisk(op) => Licensed(v.disk, op) && Authorized(v.db, op)
    case OnDatabase(tx) => Evidence(v, tx) && Commit(v.db, tx).Some?
    case Crash(_) => true
  }

  ghost function Next(v: Vault, e: Event): Vault
    requires Permitted(v, e)
  {
    match e
    case OnDisk(op) => v.(disk := Apply(v.disk, op))
    case OnDatabase(tx) => v.(db := Commit(v.db, tx).value)
    case Crash(garbage) => v.(disk := Crashed(v.disk, garbage))
  }

  /** One event and the vault after it. */
  datatype Entry = Entry(event: Event, after: Vault)

  /** The vault before the `i`-th event of a history that began at `v`. */
  ghost function At(v: Vault, es: seq<Entry>, i: nat): Vault
    requires i <= |es|
  {
    if i == 0 then v else es[i - 1].after
  }

  ghost predicate HappenedAt(v: Vault, es: seq<Entry>, i: nat)
    requires i < |es|
  {
    Permitted(At(v, es, i), es[i].event) && es[i].after == Next(At(v, es, i), es[i].event)
  }

  /** A history in which every event was permitted where it happened. */
  ghost predicate History(v: Vault, es: seq<Entry>) {
    forall i {:trigger HappenedAt(v, es, i)} :: 0 <= i < |es| ==> HappenedAt(v, es, i)
  }

  // ---------------------------------------------------------------- the invariant

  /** What holds of the two names of one attempt, in both views. */
  predicate NamesSound(d: Disk, meta: Metadata, a: Attempt, retiring: bool) {
    && (a.locator in d.objects ==> Solid(d, d.objects[a.locator], meta, a))
    && (a.locator in d.durableObjects ==> Solid(d, d.durableObjects[a.locator], meta, a))
    && (a in d.staging ==> d.staging[a] in d.data)
    && (a in d.durableStaging ==> d.durableStaging[a] in d.data)
    && OneFile(d, a)
    && (!retiring ==>
         && (a.locator in d.durableObjects ==> a.locator in d.objects)
         && (a in d.durableStaging && a !in d.staging ==> a.locator in d.durableObjects))
  }

  /** All entries of the attempt name the same file. */
  predicate OneFile(d: Disk, a: Attempt) {
    && (a.locator in d.objects && a.locator in d.durableObjects ==> d.objects[a.locator] == d.durableObjects[a.locator])
    && (a in d.staging && a in d.durableStaging ==> d.staging[a] == d.durableStaging[a])
    && (a.locator in d.objects && a in d.staging ==> d.objects[a.locator] == d.staging[a])
    && (a.locator in d.objects && a in d.durableStaging ==> d.objects[a.locator] == d.durableStaging[a])
    && (a.locator in d.durableObjects && a in d.staging ==> d.durableObjects[a.locator] == d.staging[a])
    && (a.locator in d.durableObjects && a in d.durableStaging ==> d.durableObjects[a.locator] == d.durableStaging[a])
  }

  predicate HasBody(db: Database, id: Id, meta: Metadata) {
    id in db.bodies && Matches(meta, db.bodies[id])
  }

  predicate RowFormed(db: Database, id: Id)
    requires id in db.attempts
  {
    var row := db.attempts[id];
    && row.meta.source == id
    && (row.state == Planned <==> row.attempt.None?)
    && (row.attempt.Some? ==> row.attempt.value.locator == LocatorFor(row.meta))
    && (row.request.Some? ==> row.request.value.meta == row.meta && Matches(row.meta, row.request.value.body))
    && (row.request.Some? ==> row.state in {Prepared, Committed, Abandoning, Abandoned})
    && (row.request.None? ==> row.state in {Planned, Prepared, Referenced, Retired})
    && (db.inventory == Migrating ==> row.request.None?)
    && (db.inventory == ObjectsReady && row.request.None? ==> row.state == Retired)
    && (row.request.None? || row.state == Committed ==> id in db.artifacts && db.artifacts[id].meta == row.meta)
    && (row.request.Some? && row.state != Committed ==> id !in db.artifacts)
    && (id in db.deletions ==> row.state in {Retired, Committed} && id in db.artifacts && db.artifacts[id].deletion != Active)
  }

  /** The database facts of one row, by its state. */
  predicate RowStored(db: Database, id: Id)
    requires id in db.attempts
  {
    var row := db.attempts[id];
    && (row.state in {Referenced, Retired, Committed} && id !in db.deletions ==> Lookup(db.references, id) == row.attempt)
    && (row.state !in {Referenced, Retired, Committed} || id in db.deletions ==> id !in db.references)
    && (row.request.None? && row.state != Retired ==> HasBody(db, id, row.meta))
    && (row.request.Some? || row.state == Retired ==> id !in db.bodies)
  }

  /** What the disk holds for one row, by its state. */
  predicate RowOnDisk(v: Vault, id: Id)
    requires id in v.db.attempts
  {
    var row := v.db.attempts[id];
    row.attempt.Some? ==>
      var a := row.attempt.value;
      && NamesSound(v.disk, row.meta, a, Retiring(v.db, id))
      && (row.state in {Referenced, Retired, Committed} && id !in v.db.deletions ==> PublishedOnly(v.disk, row.meta, a))
      && (row.state == Abandoned || (id in v.db.deletions && v.db.deletions[id].done) ==> DurablyAbsent(v.disk, a))
  }

  ghost predicate RowsSound(db: Database) {
    forall id :: id in db.attempts ==> RowFormed(db, id) && RowStored(db, id)
  }

  ghost predicate RowsOnDisk(v: Vault) {
    forall id :: id in v.db.attempts ==> RowOnDisk(v, id)
  }

  /** Every name, visible or durable, belongs to the current attempt of a row. */
  ghost predicate NamesOwned(v: Vault) {
    && (forall l :: l in v.disk.objects || l in v.disk.durableObjects ==> LocatorOwned(v.db, l))
    && (forall a :: a in v.disk.staging || a in v.disk.durableStaging ==> AttemptOwned(v.db, a))
  }

  predicate AttemptOwned(db: Database, a: Attempt) {
    a.locator.source in db.attempts && db.attempts[a.locator.source].attempt == Some(a)
  }

  predicate LocatorOwned(db: Database, l: Locator) {
    && l.source in db.attempts && db.attempts[l.source].attempt.Some?
    && db.attempts[l.source].attempt.value.locator == l
  }

  /** A source is being deleted exactly by the plan that lists it. */
  ghost predicate PlansSound(db: Database) {
    && (forall id :: id in db.deletions ==> InItsPlan(db, id))
    && (forall r, id :: r in db.plans && id in db.plans[r] ==> id in db.deletions && db.deletions[id].request == r)
    && (db.inventory != ObjectsReady ==> db.plans == map[])
  }

  /** Inline bodies and canonical facts agree, and every active source is inventoried. */
  ghost predicate FactsSound(db: Database) {
    && (forall id :: id in db.artifacts ==> db.artifacts[id].meta.source == id)
    && (forall id :: id in db.bodies ==> id in db.artifacts && Matches(db.artifacts[id].meta, db.bodies[id]))
    && (db.inventory == NoInventory ==> db.attempts == map[])
    && (db.inventory == Migrating ==> forall id :: id in db.bodies ==> id in db.attempts)
    && (db.inventory == ObjectsReady ==> db.bodies == map[])
    && (db.inventory != NoInventory ==>
        forall id :: id in db.artifacts && db.artifacts[id].deletion == Active ==> id in db.attempts)
    && (db.inventory == NoInventory ==>
        forall id :: id in db.artifacts && db.artifacts[id].deletion == Active ==> id in db.bodies)
  }

  ghost predicate Inventoried(db: Database) {
    && (forall id :: id in db.references ==> id in db.attempts)
    && (forall id :: id in db.deletions ==> id in db.attempts)
  }

  /** Facts outside the attempts table. */
  ghost predicate TablesSound(db: Database) {
    Inventoried(db) && PlansSound(db) && FactsSound(db)
  }

  /** At most one capture is unresolved. */
  ghost predicate OnePending(db: Database) {
    db.inventory == ObjectsReady ==>
      forall i, j :: Unresolved(db, i) && Unresolved(db, j) ==> i == j
  }

  predicate Unresolved(db: Database, id: Id) {
    id in db.attempts && db.attempts[id].state in {Prepared, Abandoning}
  }

  predicate InItsPlan(db: Database, id: Id)
    requires id in db.deletions
  {
    db.deletions[id].request in db.plans && id in db.plans[db.deletions[id].request]
  }

  ghost predicate Inv(v: Vault) {
    RowsSound(v.db) && TablesSound(v.db) && OnePending(v.db) && RowsOnDisk(v) && NamesOwned(v)
  }

  /** A library before its first migration: inline bodies only and empty object directories. */
  ghost predicate Fresh(v: Vault) {
    && v.disk == EMPTY
    && v.db.inventory == NoInventory && v.db.attempts == map[] && v.db.references == map[]
    && v.db.plans == map[] && v.db.deletions == map[]
    && (forall id :: id in v.db.artifacts ==> v.db.artifacts[id].meta.source == id)
    && (forall id :: id in v.db.bodies ==> id in v.db.artifacts && Matches(v.db.artifacts[id].meta, v.db.bodies[id]))
    && (forall id :: id in v.db.artifacts && v.db.artifacts[id].deletion == Active ==> id in v.db.bodies)
  }

  lemma FreshIsSound(v: Vault)
    requires Fresh(v)
    ensures Inv(v)
  {
  }

  // ---------------------------------------------------------------- every event keeps the invariant

  lemma OtherNamesKept(d: Disk, op: DiskOp, meta: Metadata, a: Attempt, retiring: bool)
    requires Licensed(d, op) && NamesSound(d, meta, a, retiring)
    requires !IsSync(op) && op.attempt.locator.source != a.locator.source
    ensures NamesSound(Apply(d, op), meta, a, retiring)
    ensures PublishedOnly(d, meta, a) ==> PublishedOnly(Apply(d, op), meta, a)
    ensures DurablyAbsent(d, a) ==> DurablyAbsent(Apply(d, op), a)
  {
  }

  lemma SyncKeepsNames(d: Disk, op: DiskOp, meta: Metadata, a: Attempt, retiring: bool)
    requires Licensed(d, op) && NamesSound(d, meta, a, retiring)
    requires IsSync(op)
    ensures NamesSound(Apply(d, op), meta, a, retiring)
    ensures PublishedOnly(d, meta, a) ==> PublishedOnly(Apply(d, op), meta, a)
    ensures DurablyAbsent(d, a) ==> DurablyAbsent(Apply(d, op), a)
  {
    var l, e := a.locator, Apply(d, op);
    assert Lookup(e.durableObjects, l) in {Lookup(d.durableObjects, l), Lookup(d.objects, l)};
    assert Lookup(e.durableStaging, a) in {Lookup(d.durableStaging, a), Lookup(d.staging, a)};
  }

  lemma OwnRowKept(v: Vault, op: DiskOp)
    requires Inv(v) && Permitted(v, OnDisk(op))
    requires !IsSync(op)
    ensures RowOnDisk(Next(v, OnDisk(op)), op.attempt.locator.source)
  {
    var id := op.attempt.locator.source;
    assert RowFormed(v.db, id) && RowOnDisk(v, id);
  }

  lemma DiskEventKeepsInv(v: Vault, op: DiskOp)
    requires Inv(v) && Permitted(v, OnDisk(op))
    ensures Inv(Next(v, OnDisk(op)))
  {
    var w := Next(v, OnDisk(op));
    forall id | id in w.db.attempts
      ensures RowOnDisk(w, id)
    {
      assert RowFormed(v.db, id) && RowOnDisk(v, id);
      var row := v.db.attempts[id];
      if row.attempt.Some? {
        if IsSync(op) {
          SyncKeepsNames(v.disk, op, row.meta, row.attempt.value, Retiring(v.db, id));
        } else if op.attempt.locator.source != id {
          OtherNamesKept(v.disk, op, row.meta, row.attempt.value, Retiring(v.db, id));
        } else {
          OwnRowKept(v, op);
        }
      }
    }
    NamesStayOwned(v, op);
  }

  lemma NamesStayOwned(v: Vault, op: DiskOp)
    requires NamesOwned(v) && Licensed(v.disk, op) && Authorized(v.db, op)
    ensures NamesOwned(v.(disk := Apply(v.disk, op)))
  {
    var d, e := v.disk, Apply(v.disk, op);
    forall l | l in e.objects || l in e.durableObjects
      ensures LocatorOwned(v.db, l)
    {
      assert Lookup(e.durableObjects, l) in {Lookup(d.durableObjects, l), Lookup(d.objects, l)};
      assert l in d.objects || l in d.durableObjects || (op.Link? && l == op.attempt.locator);
    }
    forall a | a in e.staging || a in e.durableStaging
      ensures AttemptOwned(v.db, a)
    {
      assert Lookup(e.durableStaging, a) in {Lookup(d.durableStaging, a), Lookup(d.staging, a)};
      assert a in d.staging || a in d.durableStaging || (op.Create? && a == op.attempt);
    }
  }

  lemma CrashKeepsNames(d: Disk, garbage: map<Inode, Content>, meta: Metadata, a: Attempt, retiring: bool)
    requires NamesSound(d, meta, a, retiring)
    ensures NamesSound(Crashed(d, garbage), meta, a, retiring)
    ensures PublishedOnly(d, meta, a) ==> PublishedOnly(Crashed(d, garbage), meta, a)
    ensures DurablyAbsent(d, a) ==> DurablyAbsent(Crashed(d, garbage), a)
  {
  }

  lemma CrashKeepsInv(v: Vault, garbage: map<Inode, Content>)
    requires Inv(v)
    ensures Inv(Next(v, Crash(garbage)))
  {
    var w := Next(v, Crash(garbage));
    forall id | id in w.db.attempts
      ensures RowOnDisk(w, id)
    {
      assert RowOnDisk(v, id);
      var row := v.db.attempts[id];
      if row.attempt.Some? { CrashKeepsNames(v.disk, garbage, row.meta, row.attempt.value, Retiring(v.db, id)); }
    }
  }

  /** A row whose own entries in the tables a transaction leaves alone stays sound. */
  lemma UntouchedRow(db: Database, e: Database, id: Id)
    requires RowsSound(db) && e.inventory == db.inventory
    requires id in db.attempts && id in e.attempts && e.attempts[id] == db.attempts[id]
    requires Lookup(e.references, id) == Lookup(db.references, id)
    requires Lookup(e.bodies, id) == Lookup(db.bodies, id)
    requires Lookup(e.artifacts, id) == Lookup(db.artifacts, id)
    requires Lookup(e.deletions, id) == Lookup(db.deletions, id)
    ensures RowFormed(e, id) && RowStored(e, id)
  {
    assert RowFormed(db, id) && RowStored(db, id);
  }

  predicate MustBePublished(db: Database, id: Id) {
    id in db.attempts && db.attempts[id].state in {Referenced, Retired, Committed} && id !in db.deletions
  }

  predicate MustBeGone(db: Database, id: Id) {
    id in db.attempts && (db.attempts[id].state == Abandoned || (id in db.deletions && db.deletions[id].done))
  }

  /** A transaction leaves the disk alone; a row keeps its names as long as its claims are covered. */
  lemma SameNames(v: Vault, w: Vault, id: Id)
    requires w.disk == v.disk && RowsOnDisk(v)
    requires id in v.db.attempts && id in w.db.attempts
    requires w.db.attempts[id].meta == v.db.attempts[id].meta && w.db.attempts[id].attempt == v.db.attempts[id].attempt
    requires Retiring(v.db, id) && !Retiring(w.db, id) ==> RemovedFor(v, id)
    requires MustBePublished(w.db, id) ==> MustBePublished(v.db, id) || PublishedFor(v, id)
    requires MustBeGone(w.db, id) ==> MustBeGone(v.db, id) || RemovedFor(v, id)
    ensures RowOnDisk(w, id)
  {
    assert RowOnDisk(v, id);
  }

  /** The source has no name on the disk. */
  ghost predicate Vacant(d: Disk, id: Id) {
    && (forall l: Locator :: l.source == id ==> l !in d.objects && l !in d.durableObjects)
    && (forall a: Attempt :: a.locator.source == id ==> a !in d.staging && a !in d.durableStaging)
  }

  /** Before a new attempt replaces the old one, no view of the disk holds a name of the source. */
  lemma NoNamesLeft(v: Vault, id: Id)
    requires Inv(v) && id in v.db.attempts && v.db.attempts[id].state in {Planned, Prepared} && GoneFor(v, id)
    ensures Vacant(v.disk, id)
  {
    assert RowFormed(v.db, id) && RowStored(v.db, id) && RowOnDisk(v, id);
  }

  /** The source a transaction works on, when it is a single one. */
  function Subject(tx: Transaction): Option<Id> {
    match tx
    case Prepare(id, _) => Some(id)
    case CommitReference(id) => Some(id)
    case RetireInline(id) => Some(id)
    case PrepareCapture(c, _) => Some(c.meta.source)
    case CommitCapture(c) => Some(c.meta.source)
    case BeginAbandonment(t) => Some(t.source)
    case FinishAbandonment(t) => Some(t.source)
    case FinishRetirement(_, id) => Some(id)
    case _ => None
  }

  /** The tables agree on one source. */
  predicate SameAt(db: Database, e: Database, id: Id) {
    && Lookup(e.attempts, id) == Lookup(db.attempts, id)
    && Lookup(e.references, id) == Lookup(db.references, id)
    && Lookup(e.bodies, id) == Lookup(db.bodies, id)
    && Lookup(e.artifacts, id) == Lookup(db.artifacts, id)
    && Lookup(e.deletions, id) == Lookup(db.deletions, id)
  }

  /** The tables agree on every other source. */
  ghost predicate OnlyAt(db: Database, e: Database, id: Id) {
    e.inventory == db.inventory && e.plans == db.plans && forall j :: j != id ==> SameAt(db, e, j)
  }

  /** The part of the evidence that concerns the database only. */
  ghost predicate WellPosed(db: Database, tx: Transaction) {
    match tx
    case Prepare(id, a) => id in db.attempts && a.locator == LocatorFor(db.attempts[id].meta)
    case PrepareCapture(c, a) => a.locator == LocatorFor(c.meta) && Matches(c.meta, c.body) && Decide(db, c) == Store
    case _ => true
  }

  lemma PrepareCaptureEffect(db: Database, e: Database, c: Capture, a: Attempt)
    requires Commit(db, PrepareCapture(c, a)) == Some(e)
    ensures c.meta.source in e.attempts
    ensures e == db.(attempts := db.attempts[c.meta.source := e.attempts[c.meta.source]])
  {
  }

  lemma SubjectEffect(db: Database, tx: Transaction, id: Id)
    requires Commit(db, tx).Some? && Subject(tx) == Some(id)
    ensures OnlyAt(db, Commit(db, tx).value, id)
  {
    if tx.PrepareCapture? {
      PrepareCaptureEffect(db, Commit(db, tx).value, tx.capture, tx.attempt);
    } else {
      OtherEffect(db, tx, id);
    }
  }

  lemma OtherEffect(db: Database, tx: Transaction, id: Id)
    requires Commit(db, tx).Some? && Subject(tx) == Some(id) && !tx.PrepareCapture?
    ensures OnlyAt(db, Commit(db, tx).value, id)
  {
    var e := Commit(db, tx).value;
    forall j | j != id
      ensures SameAt(db, e, j)
    {
    }
  }

  lemma SubjectFit(db: Database, tx: Transaction, id: Id)
    requires RowsSound(db) && TablesSound(db) && WellPosed(db, tx)
    requires Commit(db, tx).Some? && Subject(tx) == Some(id)
    ensures id in Commit(db, tx).value.attempts && SubjectFits(db, Commit(db, tx).value, id)
  {
    SubjectTables(db, tx, id);
    SubjectPending(db, tx, id);
    hide Commit, RowsSound, TablesSound, WellPosed;
  }

  lemma SubjectTables(db: Database, tx: Transaction, id: Id)
    requires RowsSound(db) && TablesSound(db) && WellPosed(db, tx)
    requires Commit(db, tx).Some? && Subject(tx) == Some(id)
    ensures id in Commit(db, tx).value.attempts && TablesFit(db, Commit(db, tx).value, id)
  {
    assert id in db.attempts ==> RowFormed(db, id) && RowStored(db, id);
  }

  lemma SubjectPending(db: Database, tx: Transaction, id: Id)
    requires RowsSound(db) && TablesSound(db) && WellPosed(db, tx)
    requires Commit(db, tx).Some? && Subject(tx) == Some(id)
    ensures PendingFits(db, Commit(db, tx).value, id)
  {
    assert id in db.attempts ==> RowFormed(db, id);
    hide RowFormed, RowStored;
  }

  lemma SubjectRow(db: Database, tx: Transaction, id: Id)
    requires RowsSound(db) && TablesSound(db) && WellPosed(db, tx)
    requires Commit(db, tx).Some? && Subject(tx) == Some(id)
    ensures id in Commit(db, tx).value.attempts
    ensures RowFormed(Commit(db, tx).value, id) && RowStored(Commit(db, tx).value, id)
  {
    if tx.PrepareCapture? || tx.CommitCapture? { CapturedRow(db, tx, id); } else { OtherSubjectRow(db, tx, id); }
    hide Commit, RowsSound, TablesSound, WellPosed, RowFormed, RowStored;
  }

  lemma CapturedRow(db: Database, tx: Transaction, id: Id)
    requires RowsSound(db) && TablesSound(db) && WellPosed(db, tx) && (tx.PrepareCapture? || tx.CommitCapture?)
    requires Commit(db, tx).Some? && Subject(tx) == Some(id)
    ensures id in Commit(db, tx).value.attempts
    ensures RowFormed(Commit(db, tx).value, id) && RowStored(Commit(db, tx).value, id)
  {
    assert id in db.attempts ==> RowFormed(db, id) && RowStored(db, id);
  }

  lemma OtherSubjectRow(db: Database, tx: Transaction, id: Id)
    requires RowsSound(db) && TablesSound(db) && WellPosed(db, tx) && !(tx.PrepareCapture? || tx.CommitCapture?)
    requires Commit(db, tx).Some? && Subject(tx) == Some(id)
    ensures id in Commit(db, tx).value.attempts
    ensures RowFormed(Commit(db, tx).value, id) && RowStored(Commit(db, tx).value, id)
  {
    assert id in db.attempts ==> RowFormed(db, id) && RowStored(db, id);
  }

  lemma OtherRows(db: Database, e: Database, id: Id)
    requires RowsSound(db) && OnlyAt(db, e, id)
    requires id in e.attempts ==> RowFormed(e, id) && RowStored(e, id)
    ensures RowsSound(e)
  {
    forall j | j in e.attempts
      ensures RowFormed(e, j) && RowStored(e, j)
    {
      if j != id {
        assert SameAt(db, e, j);
        UntouchedRow(db, e, j);
      }
    }
  }

  /** The entries of the subject itself fit the other tables. */
  ghost predicate SubjectFits(db: Database, e: Database, id: Id)
    requires id in e.attempts
  {
    TablesFit(db, e, id) && PendingFits(db, e, id)
  }

  predicate TablesFit(db: Database, e: Database, id: Id)
    requires id in e.attempts
  {
    && (id in e.references ==> id in e.attempts)
    && (id in e.deletions <==> id in db.deletions)
    && (id in e.deletions ==> e.deletions[id].request == db.deletions[id].request)
    && (id in e.bodies ==> Lookup(db.bodies, id) == Some(e.bodies[id]))
    && (id in db.artifacts ==> Lookup(e.artifacts, id) == Some(db.artifacts[id]))
    && (id in e.artifacts ==> e.artifacts[id].meta.source == id)
    && e.inventory != NoInventory
    && (e.inventory == ObjectsReady ==> id !in e.bodies)
  }

  ghost predicate PendingFits(db: Database, e: Database, id: Id) {
    e.inventory == ObjectsReady && Unresolved(e, id) && !Unresolved(db, id) ==>
      !HasState(db, Prepared) && !HasState(db, Abandoning)
  }

  lemma OtherTables(db: Database, e: Database, id: Id)
    requires TablesSound(db) && OnlyAt(db, e, id) && id in e.attempts && SubjectFits(db, e, id)
    ensures TablesSound(e)
  {
    forall j | j in e.references ensures j in e.attempts {
      assert j != id ==> SameAt(db, e, j);
    }
    forall j | j in e.deletions ensures j in e.attempts && InItsPlan(e, j) {
      assert j != id ==> SameAt(db, e, j);
    }
    forall r, j | r in e.plans && j in e.plans[r] ensures j in e.deletions && e.deletions[j].request == r {
      assert j != id ==> SameAt(db, e, j);
    }
    forall j | j in e.artifacts ensures e.artifacts[j].meta.source == j {
      assert j != id ==> SameAt(db, e, j);
    }
    forall j | j in e.bodies ensures j in e.artifacts && Matches(e.artifacts[j].meta, e.bodies[j]) && e.inventory != ObjectsReady && j in e.attempts {
      assert j != id ==> SameAt(db, e, j);
    }
    forall j | j in e.artifacts && e.artifacts[j].deletion == Active ensures j in e.attempts {
      assert j != id ==> SameAt(db, e, j);
    }
  }

  lemma OtherPending(db: Database, e: Database, id: Id)
    requires OnePending(db) && OnlyAt(db, e, id) && id in e.attempts && SubjectFits(db, e, id)
    ensures OnePending(e)
  {
    forall i, j | e.inventory == ObjectsReady && Unresolved(e, i) && Unresolved(e, j)
      ensures i == j
    {
      forall k | k != id && Unresolved(e, k)
        ensures Unresolved(db, k) && (HasState(db, Prepared) || HasState(db, Abandoning))
      {
        assert SameAt(db, e, k);
        assert db.attempts[k].state == Prepared || db.attempts[k].state == Abandoning;
      }
    }
  }

  /** A source without any row has no name either. */
  lemma NoRowNoNames(v: Vault, id: Id)
    requires NamesOwned(v) && id !in v.db.attempts
    ensures Vacant(v.disk, id)
  {
    assert forall l: Locator :: l.source == id ==> !LocatorOwned(v.db, l);
    assert forall a: Attempt :: a.locator.source == id ==> !AttemptOwned(v.db, a);
  }

  /** Only a preparation gives a row another attempt. */
  lemma SubjectKeepsAttempt(db: Database, tx: Transaction, id: Id)
    requires Commit(db, tx).Some? && Subject(tx) == Some(id) && !tx.Prepare? && !tx.PrepareCapture?
    requires id in db.deletions ==> id in db.attempts
    ensures id in db.attempts && id in Commit(db, tx).value.attempts
    ensures Commit(db, tx).value.attempts[id].attempt == db.attempts[id].attempt
    ensures Commit(db, tx).value.attempts[id].meta == db.attempts[id].meta
  {
  }

  lemma SubjectPrepared(db: Database, tx: Transaction, id: Id)
    requires RowsSound(db) && Inventoried(db) && WellPosed(db, tx)
    requires Commit(db, tx).Some? && Subject(tx) == Some(id) && (tx.Prepare? || tx.PrepareCapture?)
    ensures id in db.attempts ==> db.attempts[id].state in {Planned, Prepared}
    ensures id in Commit(db, tx).value.attempts && Commit(db, tx).value.attempts[id].state == Prepared
    ensures id !in Commit(db, tx).value.deletions
    ensures Commit(db, tx).value.attempts[id].attempt.Some? ==> Commit(db, tx).value.attempts[id].attempt.value.locator.source == id
  {
    assert id in db.attempts ==> RowFormed(db, id);
  }

  /** Evidence covers every claim a transaction makes about the disk. */
  lemma SubjectClaims(v: Vault, w: Vault, tx: Transaction, id: Id)
    requires Evidence(v, tx) && Commit(v.db, tx) == Some(w.db) && Subject(tx) == Some(id)
    requires !tx.Prepare? && !tx.PrepareCapture? && id in v.db.attempts
    requires RowFormed(v.db, id)
    ensures Retiring(v.db, id) && !Retiring(w.db, id) ==> RemovedFor(v, id)
    ensures MustBePublished(w.db, id) ==> MustBePublished(v.db, id) || PublishedFor(v, id)
    ensures MustBeGone(w.db, id) ==> MustBeGone(v.db, id) || RemovedFor(v, id)
  {
  }

  lemma SubjectOnDisk(v: Vault, w: Vault, tx: Transaction, id: Id)
    requires Inv(v) && Permitted(v, OnDatabase(tx)) && Subject(tx) == Some(id) && w == Next(v, OnDatabase(tx))
    ensures id in w.db.attempts && RowOnDisk(w, id)
    ensures Vacant(v.disk, id) || (id in v.db.attempts && w.db.attempts[id].attempt == v.db.attempts[id].attempt)
  {
    if tx.Prepare? || tx.PrepareCapture? {
      SubjectPrepared(v.db, tx, id);
      if id in v.db.attempts { NoNamesLeft(v, id); } else { NoRowNoNames(v, id); }
    } else {
      SubjectKeepsAttempt(v.db, tx, id);
      assert RowFormed(v.db, id);
      SubjectClaims(v, w, tx, id);
      SameNames(v, w, id);
    }
  }

  lemma OtherNames(v: Vault, w: Vault, id: Id)
    requires w.disk == v.disk && RowsOnDisk(v) && OnlyAt(v.db, w.db, id)
    requires id in w.db.attempts ==> RowOnDisk(w, id)
    ensures RowsOnDisk(w)
  {
    forall j | j in w.db.attempts
      ensures RowOnDisk(w, j)
    {
      if j != id {
        assert SameAt(v.db, w.db, j);
        SameNames(v, w, j);
      }
    }
  }

  lemma SubjectNames(v: Vault, w: Vault, id: Id)
    requires NamesOwned(v) && w.disk == v.disk && OnlyAt(v.db, w.db, id) && id in w.db.attempts
    requires Vacant(v.disk, id) || (id in v.db.attempts && w.db.attempts[id].attempt == v.db.attempts[id].attempt)
    ensures NamesOwned(w)
  {
    forall l | l in w.disk.objects || l in w.disk.durableObjects
      ensures LocatorOwned(w.db, l)
    {
      assert LocatorOwned(v.db, l);
      assert l.source != id ==> SameAt(v.db, w.db, l.source);
    }
    forall a | a in w.disk.staging || a in w.disk.durableStaging
      ensures AttemptOwned(w.db, a)
    {
      assert AttemptOwned(v.db, a);
      assert a.locator.source != id ==> SameAt(v.db, w.db, a.locator.source);
    }
  }

  lemma SubjectKeepsInv(v: Vault, tx: Transaction, id: Id)
    requires Inv(v) && Permitted(v, OnDatabase(tx)) && Subject(tx) == Some(id)
    ensures Inv(Next(v, OnDatabase(tx)))
  {
    var w := Next(v, OnDatabase(tx));
    SubjectEffect(v.db, tx, id);
    SubjectFit(v.db, tx, id);
    SubjectRow(v.db, tx, id);
    OtherRows(v.db, w.db, id);
    OtherTables(v.db, w.db, id);
    OtherPending(v.db, w.db, id);
    SubjectOnDisk(v, w, tx, id);
    OtherNames(v, w, id);
    SubjectNames(v, w, id);
  }

  lemma InitializeKeepsInv(v: Vault)
    requires Inv(v) && Permitted(v, OnDatabase(InitializeInventory))
    ensures Inv(Next(v, OnDatabase(InitializeInventory)))
  {
  }

  lemma FinishMigrationRows(db: Database, e: Database)
    requires RowsSound(db) && Commit(db, FinishMigration) == Some(e)
    ensures RowsSound(e) && forall id :: id in db.attempts ==> id !in db.bodies && e.attempts[id].state == Retired
  {
    forall id | id in e.attempts
      ensures RowFormed(e, id) && RowStored(e, id) && id !in db.bodies
    {
      assert RowFormed(db, id) && RowStored(db, id);
    }
  }

  /** A transaction that leaves rows and deletions alone keeps everything said about the disk. */
  lemma SameRows(v: Vault, w: Vault)
    requires w.disk == v.disk && w.db.attempts == v.db.attempts && w.db.deletions == v.db.deletions
    requires RowsOnDisk(v) && NamesOwned(v)
    ensures RowsOnDisk(w) && NamesOwned(w)
  {
    forall id | id in w.db.attempts
      ensures RowOnDisk(w, id)
    {
      SameNames(v, w, id);
    }
  }

  lemma FinishMigrationKeepsInv(v: Vault, w: Vault)
    requires Inv(v) && w.disk == v.disk && Commit(v.db, FinishMigration) == Some(w.db)
    ensures Inv(w)
  {
    FinishMigrationRows(v.db, w.db);
    FinishMigrationTables(v.db, w.db);
    SameRows(v, w);
    NonePending(w.db);
  }

  lemma NonePending(db: Database)
    requires forall id :: id in db.attempts ==> db.attempts[id].state == Retired
    ensures OnePending(db)
  {
    assert forall id :: !Unresolved(db, id);
  }

  lemma FinishMigrationTables(db: Database, e: Database)
    requires TablesSound(db) && Commit(db, FinishMigration) == Some(e)
    requires forall id :: id in db.attempts ==> id !in db.bodies
    ensures TablesSound(e)
  {
    assert forall id :: id in e.deletions ==> InItsPlan(db, id);
    assert forall id :: id in db.bodies ==> id in db.attempts;
  }

  lemma BeginDeletionRow(db: Database, e: Database, r: Id, targets: set<Id>, id: Id)
    requires RowsSound(db) && TablesSound(db) && id in db.attempts
    requires r !in db.plans && Commit(db, BeginDeletion(r, targets)) == Some(e)
    ensures RowFormed(e, id) && RowStored(e, id) && e.attempts == db.attempts
    ensures id in targets ==> id !in db.deletions && Lookup(e.deletions, id) == Some(Deletion(r, false))
    ensures id in targets ==> id !in e.references && id in e.artifacts && e.artifacts[id].deletion == Pending
    ensures id !in targets ==> Lookup(e.deletions, id) == Lookup(db.deletions, id)
    ensures id !in targets ==> Lookup(e.references, id) == Lookup(db.references, id) && Lookup(e.artifacts, id) == Lookup(db.artifacts, id)
  {
    assert RowFormed(db, id) && RowStored(db, id);
    assert id in targets ==> Deletable(db, id);
  }

  lemma BeginDeletionPlans(db: Database, e: Database, r: Id, targets: set<Id>)
    requires RowsSound(db) && PlansSound(db)
    requires r !in db.plans && Commit(db, BeginDeletion(r, targets)) == Some(e)
    ensures PlansSound(e)
  {
    forall q, id | q in e.plans && id in e.plans[q]
      ensures id in e.deletions && e.deletions[id].request == q
    {
      if id in targets { assert Deletable(db, id) && RowStored(db, id); }
    }
    forall id | id in e.deletions
      ensures InItsPlan(e, id)
    {
      assert id in db.deletions ==> InItsPlan(db, id);
    }
  }

  lemma BeginDeletionFacts(db: Database, e: Database, r: Id, targets: set<Id>)
    requires Inventoried(db) && FactsSound(db)
    requires r !in db.plans && Commit(db, BeginDeletion(r, targets)) == Some(e)
    ensures Inventoried(e) && FactsSound(e)
  {
    assert forall id :: id in targets ==> Deletable(db, id);
  }

  lemma BeginDeletionKeepsInv(v: Vault, r: Id, targets: set<Id>)
    requires Inv(v) && Permitted(v, OnDatabase(BeginDeletion(r, targets)))
    ensures Inv(Next(v, OnDatabase(BeginDeletion(r, targets))))
  {
    var w := Next(v, OnDatabase(BeginDeletion(r, targets)));
    if r !in v.db.plans {
      forall id | id in w.db.attempts
        ensures RowFormed(w.db, id) && RowStored(w.db, id) && RowOnDisk(w, id)
      {
        BeginDeletionRow(v.db, w.db, r, targets, id);
        SameNames(v, w, id);
      }
      BeginDeletionPlans(v.db, w.db, r, targets);
      BeginDeletionFacts(v.db, w.db, r, targets);
    }
  }

  lemma ExecuteDeletionRow(db: Database, e: Database, r: Id, failed: bool, id: Id)
    requires RowsSound(db) && TablesSound(db) && id in db.attempts
    requires Commit(db, ExecuteDeletion(r, failed)) == Some(e)
    ensures RowFormed(e, id) && RowStored(e, id)
  {
    assert RowFormed(db, id) && RowStored(db, id);
  }

  lemma ExecuteDeletionTables(db: Database, e: Database, r: Id, failed: bool)
    requires TablesSound(db) && Commit(db, ExecuteDeletion(r, failed)) == Some(e)
    ensures TablesSound(e)
  {
    forall id | id in e.deletions
      ensures InItsPlan(e, id)
    {
      assert InItsPlan(db, id);
    }
    forall id | id in e.artifacts
      ensures e.artifacts[id].meta == db.artifacts[id].meta
      ensures e.artifacts[id].deletion == Active ==> db.artifacts[id].deletion == Active
    {
    }
  }

  lemma ExecuteDeletionKeepsInv(v: Vault, w: Vault, r: Id, failed: bool)
    requires Inv(v) && w.disk == v.disk && Commit(v.db, ExecuteDeletion(r, failed)) == Some(w.db)
    ensures Inv(w)
  {
    forall id | id in w.db.attempts
      ensures RowFormed(w.db, id) && RowStored(w.db, id)
    {
      ExecuteDeletionRow(v.db, w.db, r, failed, id);
    }
    ExecuteDeletionTables(v.db, w.db, r, failed);
    SameRows(v, w);
    assert forall id :: Unresolved(w.db, id) ==> Unresolved(v.db, id);
  }

  /** No event of any coordinator, and no crash, breaks the invariant. */
  lemma EventKeepsInv(v: Vault, e: Event)
    requires Inv(v) && Permitted(v, e)
    ensures Inv(Next(v, e))
  {
    match e
    case OnDisk(op) => DiskEventKeepsInv(v, op);
    case Crash(garbage) => CrashKeepsInv(v, garbage);
    case OnDatabase(tx) =>
      match tx {
        case InitializeInventory => InitializeKeepsInv(v);
        case FinishMigration => FinishMigrationKeepsInv(v, Next(v, e));
        case BeginDeletion(r, targets) => BeginDeletionKeepsInv(v, r, targets);
        case ExecuteDeletion(r, failed) => ExecuteDeletionKeepsInv(v, Next(v, e), r, failed);
        case _ => SubjectKeepsInv(v, tx, Subject(tx).value);
      }
  }

  /** The invariant holds at every moment of every history. */
  lemma {:induction false} HistoryKeepsInv(v: Vault, es: seq<Entry>, k: nat)
    requires Inv(v) && History(v, es) && k <= |es|
    ensures Inv(At(v, es, k))
  {
    if k > 0 {
      HistoryKeepsInv(v, es, k - 1);
      assert HappenedAt(v, es, k - 1);
      EventKeepsInv(At(v, es, k - 1), es[k - 1].event);
    }
  }
}
