/** What every lawful history of the vault keeps, whichever coordinators took part and wherever they were cut off. */
module VaultTheorems {
  import opened Wrappers
  import opened Objects
  import opened Disks
  import opened Databases
  import opened Vaults

  // ---------------------------------------------------------------- bodies

  /** The source's bytes are still inline, or a committed reference leads to a durable file with exactly them. */
  ghost predicate Recoverable(v: Vault, id: Id, body: seq<Byte>) {
    || Lookup(v.db.bodies, id) == Some(body)
    || (id in v.db.references && Holds(v.disk, v.db.references[id], body))
  }

  predicate Holds(d: Disk, a: Attempt, body: seq<Byte>) {
    && a.locator in d.durableObjects && d.durableObjects[a.locator] in d.data
    && d.durableObjects[a.locator] in d.synced
    && d.data[d.durableObjects[a.locator]].Sealed? && d.data[d.durableObjects[a.locator]].body == body
  }

  /** Canonical facts are never rewritten and an inline body is kept as it is or removed. */
  ghost predicate Persists(v: Vault, w: Vault, id: Id) {
    && (id in v.db.artifacts ==> id in w.db.artifacts && w.db.artifacts[id].meta == v.db.artifacts[id].meta
                                 && w.db.artifacts[id].details == v.db.artifacts[id].details)
    && (id in w.db.bodies ==> Lookup(v.db.bodies, id) == Some(w.db.bodies[id]))
    && (v.db.inventory != NoInventory && id in v.db.attempts ==> id in w.db.attempts)
    && (v.db.inventory != NoInventory ==> w.db.inventory != NoInventory)
    && (id in v.db.deletions ==> id in w.db.deletions)
  }

  lemma EventPersists(v: Vault, e: Event, id: Id)
    requires Inv(v) && Permitted(v, e)
    ensures Persists(v, Next(v, e), id)
  {
    if e.OnDatabase? { CommitPersists(v, Next(v, e), e.tx, id); }
  }

  lemma CommitPersists(v: Vault, w: Vault, tx: Transaction, id: Id)
    requires id in v.db.attempts ==> RowFormed(v.db, id)
    requires v.db.inventory == NoInventory ==> v.db.attempts == map[]
    requires Commit(v.db, tx) == Some(w.db)
    ensures Persists(v, w, id)
  {
    if Subject(tx).Some? && Subject(tx) != Some(id) {
      SubjectEffect(v.db, tx, Subject(tx).value);
      assert SameAt(v.db, w.db, id);
    }
  }

  lemma {:induction false} HistoryPersists(v: Vault, es: seq<Entry>, k: nat, id: Id)
    requires Inv(v) && History(v, es) && k <= |es|
    ensures Persists(v, At(v, es, k), id)
  {
    if k > 0 {
      HistoryPersists(v, es, k - 1, id);
      HistoryKeepsInv(v, es, k - 1);
      assert HappenedAt(v, es, k - 1);
      EventPersists(At(v, es, k - 1), es[k - 1].event, id);
    }
  }

  /** In one sound state: whoever has facts but no deletion plan has its body somewhere safe. */
  lemma SoundIsRecoverable(v: Vault, id: Id, body: seq<Byte>)
    requires Inv(v) && id in v.db.artifacts && Matches(v.db.artifacts[id].meta, body)
    requires v.db.inventory == NoInventory ==> id in v.db.bodies
    requires v.db.inventory != NoInventory ==> id in v.db.attempts && id !in v.db.deletions
    ensures Recoverable(v, id, body)
  {
    if id in v.db.bodies {
      assert Sha256(v.db.bodies[id]) == Sha256(body);
    } else {
      assert RowFormed(v.db, id) && RowStored(v.db, id) && RowOnDisk(v, id);
    }
  }

  /**
   Body migration never loses a body. However the library's history continues after the first
   migration starts, with any interruptions, restarts and crashes, a body that was inline at the
   beginning is recoverable until a deletion plan for its source was committed.
   */
  lemma BodyNeverLost(v: Vault, es: seq<Entry>, k: nat, id: Id)
    requires Fresh(v) && History(v, es) && k <= |es| && id in v.db.bodies
    ensures var w := At(v, es, k);
      id in w.db.deletions || Recoverable(w, id, v.db.bodies[id])
  {
    FreshIsSound(v);
    HistoryKeepsInv(v, es, k);
    HistoryPersists(v, es, k, id);
    BodyTracked(v, es, k, id);
    var w := At(v, es, k);
    if id !in w.db.deletions { SoundIsRecoverable(w, id, v.db.bodies[id]); }
  }

  /** A migrated body stays inline until the inventory is made, and is inventoried from then on. */
  lemma {:induction false} BodyTracked(v: Vault, es: seq<Entry>, k: nat, id: Id)
    requires Fresh(v) && History(v, es) && k <= |es| && id in v.db.bodies
    ensures var w := At(v, es, k); if w.db.inventory == NoInventory then id in w.db.bodies else id in w.db.attempts
  {
    if k > 0 {
      BodyTracked(v, es, k - 1, id);
      FreshIsSound(v);
      HistoryKeepsInv(v, es, k - 1);
      assert HappenedAt(v, es, k - 1);
      EventPersists(At(v, es, k - 1), es[k - 1].event, id);
    }
  }

  /** A stored capture is recoverable from the moment it is committed until its deletion is planned. */
  lemma CaptureNeverLost(v: Vault, es: seq<Entry>, k: nat, id: Id, body: seq<Byte>)
    requires Inv(v) && History(v, es) && k <= |es| && v.db.inventory != NoInventory
    requires id in v.db.artifacts && id in v.db.attempts && Matches(v.db.artifacts[id].meta, body)
    ensures id in At(v, es, k).db.deletions || Recoverable(At(v, es, k), id, body)
  {
    HistoryKeepsInv(v, es, k);
    HistoryPersists(v, es, k, id);
    if id !in At(v, es, k).db.deletions { SoundIsRecoverable(At(v, es, k), id, body); }
  }

  // ---------------------------------------------------------------- names

  /** Some name of the attempt can be opened. */
  predicate Visible(d: Disk, a: Attempt) {
    a in d.staging || a.locator in d.objects
  }

  /**
   The last link of an object goes only while its stored state is abandoning or deleting; a crash can
   take only an attempt none of whose names was durable, and never one that a row relies on.
   */
  lemma LastLinkNeedsIntent(v: Vault, e: Event, id: Id)
    requires Inv(v) && Permitted(v, e)
    requires id in v.db.attempts && v.db.attempts[id].attempt.Some?
    requires Visible(v.disk, v.db.attempts[id].attempt.value)
    requires !Visible(Next(v, e).disk, v.db.attempts[id].attempt.value)
    ensures !e.Crash? ==> Retiring(v.db, id) && e.OnDisk? && (e.op.RemoveStaging? || e.op.RemoveObject?)
    ensures e.Crash? ==>
      && v.db.attempts[id].attempt.value !in v.disk.durableStaging
      && v.db.attempts[id].attempt.value.locator !in v.disk.durableObjects
      && !MustBePublished(v.db, id)
  {
    assert RowFormed(v.db, id) && RowOnDisk(v, id);
    if e.OnDisk? { LastLinkOp(v.disk, e.op, v.db.attempts[id].attempt.value); }
  }

  /** Unlinking the duplicate leaves the object name, so only a retirement removes the last one. */
  lemma LastLinkOp(d: Disk, op: DiskOp, a: Attempt)
    requires Licensed(d, op) && Visible(d, a) && !Visible(Apply(d, op), a)
    ensures (op.RemoveStaging? || op.RemoveObject?) && op.attempt.locator == a.locator
  {
  }

  /** A source with a committed reference loses neither its object name nor, by retirement, its staging link. */
  lemma CommittedIsNeverRetired(v: Vault, op: DiskOp)
    requires Inv(v) && Permitted(v, OnDisk(op)) && (op.RemoveStaging? || op.RemoveObject?)
    ensures op.attempt.locator.source !in v.db.references
  {
    var id := op.attempt.locator.source;
    assert RowFormed(v.db, id) && RowStored(v.db, id);
  }

  /** Nothing ever replaces a name, and what a published name shows never changes. */
  lemma NamesAreNeverReplaced(v: Vault, e: Event, l: Locator)
    requires Inv(v) && Permitted(v, e)
    requires l in v.disk.objects && l in Next(v, e).disk.objects
    ensures Next(v, e).disk.objects[l] == v.disk.objects[l]
    ensures v.disk.objects[l] in v.disk.data
    ensures Lookup(Next(v, e).disk.data, v.disk.objects[l]) == Some(v.disk.data[v.disk.objects[l]])
  {
    PublishedIsAuthentic(v, l);
    if e.OnDisk? { NameKept(v.disk, e.op, l); }
    else if e.Crash? { assert RowOnDisk(v, l.source); }
  }

  lemma NameKept(d: Disk, op: DiskOp, l: Locator)
    requires Licensed(d, op) && l in d.objects && l in Apply(d, op).objects
    requires d.objects[l] in d.data && d.objects[l] in d.synced
    ensures Apply(d, op).objects[l] == d.objects[l]
    ensures Lookup(Apply(d, op).data, d.objects[l]) == Some(d.data[d.objects[l]])
  {
  }

  /** Whatever is published opens under the facts its row has stored. */
  lemma PublishedIsAuthentic(v: Vault, l: Locator)
    requires Inv(v) && l in v.disk.objects
    ensures l.source in v.db.attempts && v.db.attempts[l.source].attempt.Some?
    ensures Solid(v.disk, v.disk.objects[l], v.db.attempts[l.source].meta, v.db.attempts[l.source].attempt.value)
  {
    assert LocatorOwned(v.db, l);
    assert RowFormed(v.db, l.source) && RowOnDisk(v, l.source);
  }

  /** One source has at most one object and one staging file, visible or durable. */
  lemma OneObjectPerSource(v: Vault, l: Locator, m: Locator, a: Attempt, b: Attempt)
    requires Inv(v)
    ensures l.source == m.source
            && (l in v.disk.objects || l in v.disk.durableObjects) && (m in v.disk.objects || m in v.disk.durableObjects)
            ==> l == m
    ensures a.locator.source == b.locator.source
            && (a in v.disk.staging || a in v.disk.durableStaging) && (b in v.disk.staging || b in v.disk.durableStaging)
            ==> a == b
  {
    assert l in v.disk.objects || l in v.disk.durableObjects ==> LocatorOwned(v.db, l);
    assert m in v.disk.objects || m in v.disk.durableObjects ==> LocatorOwned(v.db, m);
  }

  // ---------------------------------------------------------------- states

  predicate Final(db: Database, id: Id) {
    || (id in db.attempts && db.attempts[id].state == Abandoned)
    || (id in db.deletions && db.deletions[id].done)
  }

  lemma {:induction false} FinalIsNeverLeft(v: Vault, es: seq<Entry>, j: nat, k: nat, id: Id)
    requires Inv(v) && History(v, es) && j <= k <= |es| && Final(At(v, es, j).db, id)
    ensures Final(At(v, es, k).db, id)
    decreases k
  {
    if j < k {
      FinalIsNeverLeft(v, es, j, k - 1, id);
      HistoryKeepsInv(v, es, k - 1);
      assert HappenedAt(v, es, k - 1);
      FinalStep(At(v, es, k - 1), es[k - 1].event, id);
    }
  }

  lemma FinalStep(v: Vault, e: Event, id: Id)
    requires Inv(v) && Permitted(v, e) && Final(v.db, id)
    ensures Final(Next(v, e).db, id)
  {
    if e.OnDatabase? {
      assert e.tx.PrepareCapture? ==> Decide(v.db, e.tx.capture) == Store;
      FinalCommit(v.db, Next(v, e).db, e.tx, id);
    }
  }

  lemma FinalCommit(db: Database, e: Database, tx: Transaction, id: Id)
    requires id in db.attempts && RowFormed(db, id) && RowStored(db, id)
    requires db.inventory == NoInventory ==> db.attempts == map[]
    requires Commit(db, tx) == Some(e) && Final(db, id)
    ensures Final(e, id)
  {
    if Subject(tx).Some? && Subject(tx) != Some(id) {
      SubjectEffect(db, tx, Subject(tx).value);
      assert SameAt(db, e, id);
    } else if tx.BeginDeletion? {
      assert id in tx.targets && tx.request !in db.plans ==> Deletable(db, id);
    }
  }

  /** Once abandoned or deleted, no name of the source exists again, before or after any crash. */
  lemma FinalStaysAbsent(v: Vault, es: seq<Entry>, j: nat, k: nat, id: Id)
    requires Inv(v) && History(v, es) && j <= k <= |es| && Final(At(v, es, j).db, id)
    ensures var d := At(v, es, k).disk;
      && (forall l: Locator :: l.source == id ==> l !in d.objects && l !in d.durableObjects)
      && (forall a: Attempt :: a.locator.source == id ==> a !in d.staging && a !in d.durableStaging)
      && id !in At(v, es, k).db.references
  {
    FinalIsNeverLeft(v, es, j, k, id);
    HistoryKeepsInv(v, es, k);
    var w := At(v, es, k);
    if id in w.db.attempts { assert RowFormed(w.db, id) && RowStored(w.db, id) && RowOnDisk(w, id); }
  }

  /** The order in which one row moves; the two ways out of `Prepared` never meet again. */
  function Rank(state: RowState): nat {
    match state
    case Planned => 0
    case Prepared => 1
    case Referenced => 2
    case Abandoning => 2
    case Retired => 3
    case Committed => 3
    case Abandoned => 3
  }

  /** Rows only move forward, and a row that has reached rank three never changes its state. */
  lemma RowsMoveForward(v: Vault, e: Event, id: Id)
    requires Inv(v) && Permitted(v, e) && id in v.db.attempts
    ensures MovesForward(v.db, Next(v, e).db, id)
  {
    if e.OnDatabase? { CommitMovesForward(v.db, Next(v, e).db, e.tx, id); }
  }

  predicate MovesForward(db: Database, e: Database, id: Id)
    requires id in db.attempts
  {
    && id in e.attempts && e.attempts[id].meta == db.attempts[id].meta && e.attempts[id].request == db.attempts[id].request
    && (e.attempts[id].state != db.attempts[id].state ==> Rank(e.attempts[id].state) > Rank(db.attempts[id].state))
    && (e.attempts[id].attempt != db.attempts[id].attempt ==>
        db.attempts[id].state in {Planned, Prepared} && e.attempts[id].state == Prepared)
  }

  lemma CommitMovesForward(db: Database, e: Database, tx: Transaction, id: Id)
    requires id in db.attempts && RowFormed(db, id) && RowStored(db, id)
    requires db.inventory == NoInventory ==> db.attempts == map[]
    requires Commit(db, tx) == Some(e)
    ensures MovesForward(db, e, id)
  {
    if Subject(tx).Some? && Subject(tx) != Some(id) {
      SubjectEffect(db, tx, Subject(tx).value);
      assert SameAt(db, e, id);
    }
  }
}
