/** Body migration: every inline body becomes an authenticated object, one item at a time. */
module BodyMigration {
  import opened Wrappers
  import opened Objects
  import opened Disks
  import opened Databases
  import opened Vaults
  import opened ObjectDirectories
  import opened Libraries

  /** The attempt's published name opens under the metadata, and a staging link is the same file. */
  ghost predicate Readable(d: Disk, a: Attempt, meta: Metadata)
    requires Healthy(d)
  {
    Inspection(d, meta, a) in {Success(PublishedCandidate), Success(StagingAndPublished)}
  }

  /** Resolve the committed reference and authenticate the object it names. */
  method ReadReference(lib: Library, id: Id) returns (r: Result<seq<Byte>, Error>)
    requires lib.directory.Valid()
    ensures r.Success? <==> id in lib.db.references && id in lib.db.attempts
                            && Readable(lib.directory.disk, lib.db.references[id], lib.db.attempts[id].meta)
    ensures r.Success? ==> Matches(lib.db.attempts[id].meta, r.value)
  {
    if id !in lib.db.references || id !in lib.db.attempts { return Failure(InvalidStored); }
    var a, meta := lib.db.references[id], lib.db.attempts[id].meta;
    var state := lib.directory.InspectAttempt(a, meta);
    if state.Failure? { return Failure(state.error); }
    if state.value !in {PublishedCandidate, StagingAndPublished} { return Failure(AttemptMismatch); }
    var body := lib.directory.Read(a.locator, meta);
    if body.Failure? { return Failure(NotAuthentic); }
    if !Matches(meta, body.value) { return Failure(InvalidStored); }
    return Success(body.value);
  }

  /** The first half of one item: publish or recover its object and commit the reference. */
  method PublishItem(lib: Library, id: Id) returns (r: Result<(), Error>)
    requires lib.Valid() && id in lib.db.attempts && lib.db.inventory == Migrating
    requires lib.db.attempts[id].state in {Planned, Prepared}
    modifies lib`db, lib`history, lib.directory
    ensures lib.Valid() && old(lib.history) <= lib.history && lib.directory.faulty == old(lib.directory.faulty)
    ensures OthersKept(old(lib.Now()), lib.Now(), id) && id in lib.db.attempts
    ensures r.Success? ==> lib.db.attempts[id].state == Referenced && PublishedFor(lib.Now(), id)
    ensures !lib.directory.faulty && old(Untorn(lib.Now(), id)) ==> r.Success?
  {
    r := PublishOrRecover(lib, id);
    if r.Failure? { return; }
    r := lib.Step();
    if r.Failure? { return; }
    assert Commit(lib.db, CommitReference(id)).Some? by { lib.SoundRow(id); }
    ghost var published := lib.Now();
    r := lib.Transact(CommitReference(id));
    OthersKeptTwice(old(lib.Now()), published, lib.Now(), id);
  }

  /** Look at what an earlier run left: nothing means sealing anew, anything else is recovered. */
  method PublishOrRecover(lib: Library, id: Id) returns (r: Result<(), Error>)
    requires lib.Valid() && id in lib.db.attempts && lib.db.inventory == Migrating
    requires lib.db.attempts[id].state in {Planned, Prepared}
    modifies lib`db, lib`history, lib.directory
    ensures lib.Valid() && old(lib.history) <= lib.history && lib.directory.faulty == old(lib.directory.faulty)
    ensures OthersKept(old(lib.Now()), lib.Now(), id) && id in lib.db.attempts
    ensures r.Success? ==> lib.db.attempts[id].state == Prepared && PublishedFor(lib.Now(), id)
    ensures !lib.directory.faulty && old(Untorn(lib.Now(), id)) ==> r.Success?
  {
    lib.SoundRow(id);
    var absent := true;
    if lib.db.attempts[id].state == Prepared {
      var state := lib.Inspect(id);
      if state.Failure? { return Failure(state.error); }
      absent := state.value == AttemptState.Absent;
    }
    if absent {
      r := PublishInlineBody(lib, id);
    } else {
      r := lib.Recover(id);
    }
  }

  /** Seal the inline body under a new attempt, record the attempt, publish it. */
  method PublishInlineBody(lib: Library, id: Id) returns (r: Result<(), Error>)
    requires lib.Valid() && id in lib.db.attempts && lib.db.inventory == Migrating
    requires lib.db.attempts[id].state in {Planned, Prepared} && GoneFor(lib.Now(), id)
    modifies lib`db, lib`history, lib.directory
    ensures lib.Valid() && old(lib.history) <= lib.history && lib.directory.faulty == old(lib.directory.faulty)
    ensures OthersKept(old(lib.Now()), lib.Now(), id) && id in lib.db.attempts
    ensures r.Success? ==> lib.db.attempts[id].state == Prepared && PublishedFor(lib.Now(), id)
    ensures !lib.directory.faulty ==> r.Success?
  {
    lib.SoundRow(id);
    var meta := lib.db.attempts[id].meta;
    if id !in lib.db.bodies || !Matches(meta, lib.db.bodies[id]) { return Failure(InvalidStored); }
    var prefix: nat := *;
    var write := Seal(meta, prefix, lib.db.bodies[id]);
    if write.Failure? { return Failure(NotAuthentic); }
    r := lib.Transact(Prepare(id, write.value.attempt));
    if r.Failure? { return; }
    r := lib.Step();
    if r.Failure? { return; }
    r := lib.Publish(id, write.value);
  }

  /** The second half: recover again, read the committed reference back, retire the inline copy. */
  method RetireItem(lib: Library, id: Id) returns (r: Result<(), Error>)
    requires lib.Valid() && id in lib.db.attempts && lib.db.inventory == Migrating
    requires lib.db.attempts[id].state == Referenced
    modifies lib`db, lib`history, lib.directory
    ensures lib.Valid() && old(lib.history) <= lib.history && lib.directory.faulty == old(lib.directory.faulty)
    ensures OthersKept(old(lib.Now()), lib.Now(), id) && id in lib.db.attempts
    ensures r.Success? ==> lib.db.attempts[id].state == Retired
    ensures !lib.directory.faulty ==> r.Success?
  {
    lib.SoundRow(id);
    r := lib.Recover(id);
    if r.Failure? { return; }
    var read := ReadReference(lib, id);
    if read.Failure? { return Failure(InvalidStored); }
    r := lib.Step();
    if r.Failure? { return; }
    // The step above may have been long; the inline copy goes on fresh evidence only.
    read := ReadReference(lib, id);
    if read.Failure? { return Failure(InvalidStored); }
    r := lib.Transact(RetireInline(id));
    if r.Failure? { return; }
    r := lib.Step();
  }

  /** The row's inline body is the declared one, its names can be trusted, and a referenced object was read. */
  ghost predicate Validated(db: Database, d: Disk, id: Id)
    requires id in db.attempts && Healthy(d)
  {
    var row := db.attempts[id];
    && (id in db.bodies ==> Matches(row.meta, db.bodies[id]))
    && (row.attempt.Some? ==> Inspection(d, row.meta, row.attempt.value).Success?)
    && (row.state in {Referenced, Retired} && id !in db.deletions ==>
         id in db.references && Readable(d, db.references[id], row.meta))
  }

  /** Before anything is changed, every row's object and inline body are checked. */
  method ValidateItems(lib: Library, ids: seq<Id>) returns (r: Result<(), Error>)
    requires lib.Valid() && forall id :: id in ids ==> id in lib.db.attempts
    ensures NoneTorn(lib.Now()) ==> r.Success?
    ensures r.Success? ==> forall id :: id in ids ==> Validated(lib.db, lib.directory.disk, id)
    ensures r.Success? ==> forall id :: id in ids ==> Untorn(lib.Now(), id)
  {
    for i := 0 to |ids|
      invariant forall k :: 0 <= k < i ==> Validated(lib.db, lib.directory.disk, ids[k]) && Untorn(lib.Now(), ids[k])
    {
      var id := ids[i];
      lib.SoundRow(id);
      var row := lib.db.attempts[id];
      if id in lib.db.bodies && !Matches(row.meta, lib.db.bodies[id]) { return Failure(InvalidStored); }
      if row.state != Planned {
        var state := lib.Inspect(id);
        if state.Failure? { return Failure(state.error); }
        if row.state in {Referenced, Retired} && id !in lib.db.deletions {
          if state.value !in {PublishedCandidate, StagingAndPublished} { return Failure(AttemptMismatch); }
          var read := ReadReference(lib, id);
          if read.Failure? { return Failure(InvalidStored); }
        }
      }
    }
    return Success(());
  }

  /** The attempts that may have left names in the directories. */
  function Attempts(db: Database, ids: seq<Id>): (r: seq<Attempt>)
    requires forall id :: id in ids ==> id in db.attempts
  {
    if ids == [] then []
    else match db.attempts[ids[0]].attempt
      case Some(a) => [a] + Attempts(db, ids[1..])
      case None => Attempts(db, ids[1..])
  }

  lemma {:induction false} AttemptsListed(db: Database, ids: seq<Id>)
    requires RowsSound(db) && forall id :: id in ids ==> id in db.attempts
    requires forall i, j :: 0 <= i < j < |ids| ==> ids[i] != ids[j]
    ensures forall a :: a in Attempts(db, ids) <==> a.locator.source in ids && db.attempts[a.locator.source].attempt == Some(a)
    ensures forall i, j :: 0 <= i < j < |Attempts(db, ids)| ==> Attempts(db, ids)[i].locator != Attempts(db, ids)[j].locator
  {
    if ids != [] {
      AttemptsListed(db, ids[1..]);
      assert RowFormed(db, ids[0]);
    }
  }

  lemma NoneTornKept(v: Vault, w: Vault, id: Id)
    requires OthersKept(v, w, id) && NoneTorn(v) && Untorn(w, id)
    requires RowsSound(v.db) && Healthy(v.disk)
    ensures NoneTorn(w)
  {
    forall j | j in w.db.attempts && j != id
      ensures Untorn(w, j)
    {
      assert SameAt(v.db, w.db, j) && Untorn(v, j) && RowFormed(v.db, j);
      if v.db.attempts[j].attempt.Some? {
        var a := v.db.attempts[j].attempt.value;
        if a.locator.source != id {
          assert Lookup(w.disk.staging, a) == Lookup(v.disk.staging, a);
          assert a in v.disk.staging ==> v.disk.staging[a] in v.disk.staging.Values;
        }
      }
    }
  }

  /** One item of the inventory, from whatever state an earlier run left it in. */
  method MigrateItem(lib: Library, id: Id) returns (r: Result<(), Error>)
    requires lib.Valid() && id in lib.db.attempts && lib.db.inventory in {Migrating, ObjectsReady}
    requires lib.db.attempts[id].request.None?
    modifies lib`db, lib`history, lib.directory
    ensures lib.Valid() && old(lib.history) <= lib.history && lib.directory.faulty == old(lib.directory.faulty)
    ensures OthersKept(old(lib.Now()), lib.Now(), id) && id in lib.db.attempts
    ensures old(lib.db.attempts[id].state) == Retired ==> lib.Now() == old(lib.Now())
    ensures r.Success? ==> lib.db.attempts[id].state == Retired
    ensures !lib.directory.faulty && old(Untorn(lib.Now(), id)) ==> r.Success?
  {
    lib.SoundRow(id);
    if lib.db.attempts[id].state == Retired { return Success(()); }
    if lib.db.attempts[id].state in {Planned, Prepared} {
      r := PublishItem(lib, id);
      if r.Failure? { return; }
      r := lib.Step();
      if r.Failure? { return; }
    }
    ghost var referenced := lib.Now();
    r := RetireItem(lib, id);
    OthersKeptTwice(old(lib.Now()), referenced, lib.Now(), id);
  }

  /** Every item is retired, has exactly one published object and no staging link is left. */
  ghost predicate Migrated(v: Vault) {
    && v.db.inventory == ObjectsReady && v.db.bodies == map[]
    && (forall id :: id in v.db.attempts ==> v.db.attempts[id].state == Retired && PublishedFor(v, id))
    && (forall l :: l in v.disk.objects <==> exists id :: id in v.db.attempts && LocatorFor(v.db.attempts[id].meta) == l)
    && v.disk.staging == map[] && v.disk.durableStaging == map[]
  }

  lemma AllRetired(v: Vault)
    requires Inv(v) && v.db.inventory == ObjectsReady && v.db.deletions == map[]
    requires forall id :: id in v.db.attempts ==> v.db.attempts[id].state == Retired
    ensures Migrated(v)
  {
    forall id | id in v.db.attempts
      ensures PublishedFor(v, id) && LocatorFor(v.db.attempts[id].meta) in v.disk.objects
    {
      assert RowFormed(v.db, id) && RowOnDisk(v, id);
    }
    forall l | l in v.disk.objects
      ensures exists id :: id in v.db.attempts && LocatorFor(v.db.attempts[id].meta) == l
    {
      assert LocatorOwned(v.db, l) && RowFormed(v.db, l.source);
    }
    forall a | AttemptOwned(v.db, a)
      ensures a !in v.disk.staging && a !in v.disk.durableStaging
    {
      assert RowOnDisk(v, a.locator.source);
    }
  }

  /**
   A library the migration opens at all: schema versions that can hold captures or deletions are refused
   at opening, before any row is read. Versions are not modelled, so the rows themselves tell.
   */
  predicate Migratable(db: Database) {
    db.plans == map[] && forall id <- db.attempts.Keys :: db.attempts[id].request.None?
  }

  /** The events of migration runs: their transactions, disk steps and crashes. */
  predicate OfMigration(e: Event) {
    e.OnDatabase? ==>
      e.tx.InitializeInventory? || e.tx.Prepare? || e.tx.CommitReference? || e.tx.RetireInline? || e.tx.FinishMigration?
  }

  /** From a library before its first migration, any number of runs cut off anywhere leaves one that can be migrated. */
  lemma {:induction false} MigrationCanGoOn(v: Vault, es: seq<Entry>, k: nat)
    requires Fresh(v) && History(v, es) && k <= |es| && forall i :: 0 <= i < k ==> OfMigration(es[i].event)
    ensures At(v, es, k).db.plans == map[]
    ensures forall id :: id in At(v, es, k).db.attempts ==> At(v, es, k).db.attempts[id].request.None?
  {
    if k > 0 {
      MigrationCanGoOn(v, es, k - 1);
      assert HappenedAt(v, es, k - 1);
    }
  }

  /** Check both directories against the inventory. */
  method VerifyInventory(lib: Library, ids: seq<Id>) returns (r: Result<(), Error>)
    requires lib.Valid() && forall id :: id in ids <==> id in lib.db.attempts
    requires forall i, j :: 0 <= i < j < |ids| ==> ids[i] != ids[j]
    ensures r.Success?
  {
    lib.Sound();
    AttemptsListed(lib.db, ids);
    r := lib.directory.VerifyInventory(Attempts(lib.db, ids));
    assert forall l :: l in lib.directory.disk.objects ==> LocatorOwned(lib.db, l);
    assert forall a :: a in lib.directory.disk.staging ==> AttemptOwned(lib.db, a);
    assert forall l :: l in lib.directory.disk.objects ==> lib.db.attempts[l.source].attempt.value in Attempts(lib.db, ids);
  }

  lemma NothingDeleted(lib: Library)
    requires lib.Valid()
    ensures Migratable(lib.db) ==> lib.db.deletions == map[]
  {
    lib.Sound();
    assert forall id :: id in lib.db.deletions ==> InItsPlan(lib.db, id);
  }

  /** Every item's committed reference is read once more. */
  method ReadBack(lib: Library, ids: seq<Id>) returns (r: Result<(), Error>)
    requires lib.Valid() && forall id :: id in ids ==> id in lib.db.attempts
    ensures r.Success? ==> forall id :: id in ids ==> id in lib.db.references
    ensures Migratable(lib.db) && (forall id :: id in ids ==> lib.db.attempts[id].state == Retired) ==> r.Success?
  {
    NothingDeleted(lib);
    for i := 0 to |ids|
      invariant forall k :: 0 <= k < i ==> ids[k] in lib.db.references
    {
      lib.SoundRow(ids[i]);
      var read := ReadReference(lib, ids[i]);
      if read.Failure? { return Failure(InvalidStored); }
    }
    return Success(());
  }

  /**
   The whole migration. An interrupted or failing run leaves a state from which the next run resumes;
   a run without faults completes unless a staging file was torn.
   */
  method Migrate(lib: Library) returns (r: Result<nat, Error>)
    requires lib.Valid()
    modifies lib`db, lib`history, lib.directory
    ensures lib.Valid() && old(lib.history) <= lib.history && lib.directory.faulty == old(lib.directory.faulty)
    ensures r.Success? ==> Migrated(lib.Now()) && r.value == |lib.db.attempts|
    ensures RetiredKept(old(lib.db), lib.db)
    ensures !old(NoneTorn(lib.Now())) ==> r.Failure? && lib.Now() == old(lib.Now())
    ensures !lib.directory.faulty && old(NoneTorn(lib.Now())) && old(lib.db.plans) == map[]
            && (forall id <- old(lib.db).attempts.Keys :: old(lib.db).attempts[id].request.None?)
            ==> r.Success?
  {
    lib.Sound();
    if !Migratable(lib.db) { return Failure(InvalidStored); }
    if lib.db.inventory == NoInventory {
      var empty := lib.directory.VerifyInventory([]);
      if empty.Failure? { return Failure(UnknownInventory); }
      var initialized := lib.Transact(InitializeInventory);
      if initialized.Failure? { return Failure(initialized.error); }
    }
    var step := lib.Step();
    if step.Failure? { return Failure(step.error); }
    r := MigrateInventory(lib);
  }

  method MigrateInventory(lib: Library) returns (r: Result<nat, Error>)
    requires lib.Valid() && Migratable(lib.db) && lib.db.inventory != NoInventory
    modifies lib`db, lib`history, lib.directory
    ensures lib.Valid() && old(lib.history) <= lib.history && lib.directory.faulty == old(lib.directory.faulty)
    ensures r.Success? ==> Migrated(lib.Now()) && r.value == |lib.db.attempts|
    ensures RetiredKept(old(lib.db), lib.db)
    ensures !old(NoneTorn(lib.Now())) ==> r.Failure? && lib.Now() == old(lib.Now())
    ensures !lib.directory.faulty && old(NoneTorn(lib.Now())) ==> r.Success?
  {
    var ids := lib.Items();
    var verified := VerifyInventory(lib, ids);
    var checked := ValidateItems(lib, ids);
    if checked.Failure? { return Failure(checked.error); }
    checked := MigrateItems(lib, ids);
    if checked.Failure? { return Failure(checked.error); }
    ids := lib.Items();
    verified := VerifyInventory(lib, ids);
    checked := ReadBack(lib, ids);
    if checked.Failure? { return Failure(InvalidStored); }
    checked := lib.Transact(FinishMigration);
    if checked.Failure? { return Failure(checked.error); }
    lib.Sound();
    NothingDeleted(lib);
    AllRetired(lib.Now());
    return Success(|lib.db.attempts|);
  }

  method MigrateItems(lib: Library, ids: seq<Id>) returns (r: Result<(), Error>)
    requires lib.Valid() && Migratable(lib.db) && lib.db.inventory != NoInventory
    requires forall id :: id in ids <==> id in lib.db.attempts
    requires forall i, j :: 0 <= i < j < |ids| ==> ids[i] != ids[j]
    modifies lib`db, lib`history, lib.directory
    ensures lib.Valid() && old(lib.history) <= lib.history && lib.directory.faulty == old(lib.directory.faulty)
    ensures RetiredKept(old(lib.db), lib.db)
    ensures r.Success? ==>
      && lib.db.inventory == old(lib.db.inventory) && Migratable(lib.db)
      && (forall id :: id in lib.db.attempts ==> lib.db.attempts[id].state == Retired)
    ensures !lib.directory.faulty && old(NoneTorn(lib.Now())) ==> r.Success?
  {
    hide Migratable, NoneTorn;
    for i := 0 to |ids|
      invariant lib.Valid() && old(lib.history) <= lib.history && lib.directory.faulty == old(lib.directory.faulty)
      invariant lib.db.inventory == old(lib.db.inventory) && Migratable(lib.db)
      invariant forall id :: id in ids <==> id in lib.db.attempts
      invariant forall k :: 0 <= k < i ==> lib.db.attempts[ids[k]].state == Retired
      invariant RetiredKept(old(lib.db), lib.db)
      invariant old(NoneTorn(lib.Now())) ==> NoneTorn(lib.Now())
    {
      r := MigrateNext(lib, ids[i], old(lib.db));
      if r.Failure? { return; }
    }
    return Success(());
  }

  method MigrateNext(lib: Library, id: Id, ghost first: Database) returns (r: Result<(), Error>)
    requires lib.Valid() && Migratable(lib.db) && lib.db.inventory != NoInventory && id in lib.db.attempts
    requires RetiredKept(first, lib.db)
    modifies lib`db, lib`history, lib.directory
    ensures lib.Valid() && old(lib.history) <= lib.history && lib.directory.faulty == old(lib.directory.faulty)
    ensures RetiredKept(first, lib.db)
    ensures r.Success? ==>
      && lib.db.inventory == old(lib.db.inventory) && Migratable(lib.db)
      && lib.db.attempts.Keys == old(lib.db).attempts.Keys && lib.db.attempts[id].state == Retired
      && (forall j :: j in lib.db.attempts && j != id ==> lib.db.attempts[j] == old(lib.db).attempts[j])
      && (old(NoneTorn(lib.Now())) ==> NoneTorn(lib.Now()))
    ensures !lib.directory.faulty && old(NoneTorn(lib.Now())) ==> r.Success?
  {
    ghost var before := lib.Now();
    lib.SoundRows();
    r := MigrateItem(lib, id);
    RetiredKeptOn(first, before.db, lib.db, id);
    if r.Success? {
      assert lib.db.attempts[id].request.None? by { lib.SoundRow(id); }
      OthersMigratable(before.db, lib.db, id);
      assert Untorn(lib.Now(), id) by { lib.SoundRow(id); NothingDeleted(lib); }
      if NoneTorn(before) { NoneTornKept(before, lib.Now(), id); }
    }
  }

  /** Whatever was retired keeps its row, reference and facts. */
  ghost predicate RetiredKept(db: Database, e: Database) {
    forall id :: id in db.attempts && db.attempts[id].state == Retired ==> SameAt(db, e, id)
  }

  lemma RetiredKeptOn(d: Database, db: Database, e: Database, id: Id)
    requires RetiredKept(d, db) && OnlyAt(db, e, id)
    requires id in db.attempts && db.attempts[id].state == Retired ==> e == db
    ensures RetiredKept(d, e)
  {
    forall j | j in d.attempts && d.attempts[j].state == Retired
      ensures SameAt(d, e, j)
    {
      assert SameAt(d, db, j);
      if j != id { assert SameAt(db, e, j); }
    }
  }

  lemma OthersMigratable(db: Database, e: Database, id: Id)
    requires Migratable(db) && OnlyAt(db, e, id) && id in db.attempts && id in e.attempts
    ensures e.attempts.Keys == db.attempts.Keys
    ensures e.attempts[id].request.None? ==> Migratable(e)
    ensures forall j :: j in e.attempts && j != id ==> e.attempts[j] == db.attempts[j]
  {
    forall j | j != id
      ensures j in e.attempts <==> j in db.attempts
      ensures j in e.attempts ==> e.attempts[j] == db.attempts[j]
    {
      assert SameAt(db, e, j);
    }
  }
}
