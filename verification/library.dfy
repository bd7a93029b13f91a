/**
 The library as one process holds it: the object directory and the exclusive database session. The
 ghost history records every disk operation and every committed transaction since `origin`.
 */
module Libraries {
  import opened Wrappers
  import opened Objects
  import opened Disks
  import opened Databases
  import opened Vaults
  import opened ObjectDirectories

  /** Disk operations under an unchanged database, as events of the vault. */
  ghost function Lift(log: seq<Record>, db: Database): seq<Entry> {
    seq(|log|, i requires 0 <= i < |log| => Entry(OnDisk(log[i].op), Vault(log[i].after, db)))
  }

  /** Lawful disk operations that the unchanged database authorizes continue a history. */
  lemma DiskHistory(v: Vault, es: seq<Entry>, start: Disk, log: seq<Record>, k: nat, db: Database)
    requires History(v, es) && Lawful(start, log) && k <= |log|
    requires At(v, es, |es|) == Vault(DiskAt(start, log, k), db)
    requires forall i :: k <= i < |log| ==> Authorized(db, log[i].op)
    ensures var more := es + Lift(log[k..], db);
      History(v, more) && At(v, more, |more|) == Vault(DiskAt(start, log, |log|), db)
  {
    var more := es + Lift(log[k..], db);
    forall i | 0 <= i < |more|
      ensures HappenedAt(v, more, i)
    {
      if i < |es| {
        assert HappenedAt(v, es, i);
      } else {
        assert LawfulAt(start, log, k + (i - |es|));
      }
    }
  }

  lemma Continued(v: Vault, es: seq<Entry>, e: Event)
    requires History(v, es) && Permitted(At(v, es, |es|), e)
    ensures var more := es + [Entry(e, Next(At(v, es, |es|), e))];
      History(v, more) && At(v, more, |more|) == Next(At(v, es, |es|), e)
  {
    var more := es + [Entry(e, Next(At(v, es, |es|), e))];
    forall i | 0 <= i < |more|
      ensures HappenedAt(v, more, i)
    {
      if i < |es| { assert HappenedAt(v, es, i); }
    }
  }

  /** The staging file of the row, if there is one, was written completely. */
  predicate Untorn(v: Vault, id: Id) {
    id in v.db.attempts && v.db.attempts[id].attempt.Some? ==>
      var a := v.db.attempts[id].attempt.value;
      a in v.disk.staging && v.disk.staging[a] in v.disk.data ==>
        Authenticates(v.disk.data[v.disk.staging[a]], v.db.attempts[id].meta, a)
  }

  ghost predicate NoneTorn(v: Vault) {
    forall id :: id in v.db.attempts ==> Untorn(v, id)
  }

  /** In a sound vault nothing is torn exactly when every staging file opens under its own row and nonce. */
  lemma NoneTornExactly(v: Vault)
    requires Inv(v) && Healthy(v.disk)
    ensures NoneTorn(v) <==> forall a :: a in v.disk.staging ==>
              && a.locator.source in v.db.attempts
              && v.disk.data[v.disk.staging[a]].Sealed? && v.disk.data[v.disk.staging[a]].prefix == a.prefix
              && v.disk.data[v.disk.staging[a]].meta == v.db.attempts[a.locator.source].meta
              && v.db.attempts[a.locator.source].meta.digest == Sha256(v.disk.data[v.disk.staging[a]].body)
              && v.db.attempts[a.locator.source].meta.length == |v.disk.data[v.disk.staging[a]].body|
  {
    assert forall a :: a in v.disk.staging ==> v.disk.staging[a] in v.disk.data;
    if NoneTorn(v) {
      forall a | a in v.disk.staging ensures Untorn(v, a.locator.source) && AttemptOwned(v.db, a) {}
    } else {
      var id :| id in v.db.attempts && !Untorn(v, id);
      var a := v.db.attempts[id].attempt.value;
      assert RowFormed(v.db, id) && a in v.disk.staging;
    }
  }

  /** Names of other sources and all earlier files are the same. */
  ghost predicate Elsewhere(d: Disk, e: Disk, id: Id) {
    && (forall l: Locator :: l.source != id ==> Lookup(e.objects, l) == Lookup(d.objects, l))
    && (forall a: Attempt :: a.locator.source != id ==> Lookup(e.staging, a) == Lookup(d.staging, a))
    && (forall n :: n in d.data ==> n in e.data && e.data[n] == d.data[n])
  }

  /** Everything the vault holds about other sources is the same. */
  ghost predicate OthersKept(v: Vault, w: Vault, id: Id) {
    OnlyAt(v.db, w.db, id) && Elsewhere(v.disk, w.disk, id)
  }

  lemma OthersKeptTwice(u: Vault, v: Vault, w: Vault, id: Id)
    requires OthersKept(u, v, id) && OthersKept(v, w, id)
    ensures OthersKept(u, w, id)
  {
    forall j | j != id
      ensures SameAt(u.db, w.db, j)
    {
      assert SameAt(u.db, v.db, j) && SameAt(v.db, w.db, j);
    }
  }

  lemma IsElsewhere(d: Disk, e: Disk, a: Attempt)
    requires SameElsewhere(d, e, a)
    ensures Elsewhere(d, e, a.locator.source)
  {
    forall l: Locator | l.source != a.locator.source
      ensures Lookup(e.objects, l) == Lookup(d.objects, l)
    {
      assert Lookup(e.objects - {a.locator}, l) == Lookup(d.objects - {a.locator}, l);
    }
    forall b: Attempt | b.locator.source != a.locator.source
      ensures Lookup(e.staging, b) == Lookup(d.staging, b)
    {
      assert Lookup(e.staging - {a}, b) == Lookup(d.staging - {a}, b);
    }
  }

  /** In a sound library whose staging file is not torn, inspection of a row succeeds. */
  lemma SoundInspection(v: Vault, id: Id)
    requires Inv(v) && Healthy(v.disk) && id in v.db.attempts && v.db.attempts[id].attempt.Some? && Untorn(v, id)
    ensures Inspection(v.disk, v.db.attempts[id].meta, v.db.attempts[id].attempt.value).Success?
  {
    assert RowFormed(v.db, id) && RowOnDisk(v, id);
    var a := v.db.attempts[id].attempt.value;
    assert a in v.disk.staging ==> v.disk.staging[a] in v.disk.staging.Values;
  }

  lemma PublicationAuthorized(db: Database, from: seq<Record>, to: seq<Record>, meta: Metadata, a: Attempt)
    requires Publishes(from, to, meta, a) && OwnedBy(db, a, meta)
    requires db.attempts[a.locator.source].state == Prepared && a.locator.source !in db.deletions
    ensures forall i :: |from| <= i < |to| ==> Authorized(db, to[i].op)
  {
  }

  lemma CleanupAuthorized(db: Database, from: seq<Record>, to: seq<Record>, meta: Metadata, a: Attempt)
    requires Cleans(from, to, meta, a) && OwnedBy(db, a, meta) && Kept(db, a.locator.source)
    ensures forall i :: |from| <= i < |to| ==> Authorized(db, to[i].op)
  {
  }

  lemma RetirementAuthorized(db: Database, from: seq<Record>, to: seq<Record>, meta: Metadata, a: Attempt)
    requires Retires(from, to, meta, a) && OwnedBy(db, a, meta) && Retiring(db, a.locator.source)
    ensures forall i :: |from| <= i < |to| ==> Authorized(db, to[i].op)
  {
  }

  class Library {
    const directory: ObjectDirectory
    var db: Database
    ghost var origin: Vault
    ghost var history: seq<Entry>

    /** A session on a library as a lawful history left it. */
    constructor Open(directory: ObjectDirectory, db: Database)
      requires directory.Valid() && Inv(Vault(directory.disk, db))
      ensures Valid() && this.directory == directory && this.db == db && history == []
    {
      this.directory, this.db := directory, db;
      origin, history := Vault(directory.disk, db), [];
    }

    ghost function Now(): Vault
      reads this, directory
    {
      Vault(directory.disk, db)
    }

    ghost predicate Valid()
      reads this, directory
    {
      && directory.Valid()
      && Inv(origin) && History(origin, history) && At(origin, history, |history|) == Now()
    }

    lemma Sound()
      requires Valid()
      ensures Inv(Now())
    {
      HistoryKeepsInv(origin, history, |history|);
    }

    lemma SoundRows()
      requires Valid()
      ensures RowsSound(db)
    {
      Sound();
    }

    /** What the invariant says of one row. */
    lemma SoundRow(id: Id)
      requires Valid() && id in db.attempts
      ensures RowFormed(db, id) && RowStored(db, id) && RowOnDisk(Now(), id)
      ensures Untorn(Now(), id) && db.attempts[id].attempt.Some? ==>
        Inspection(directory.disk, db.attempts[id].meta, db.attempts[id].attempt.value).Success?
      ensures db.attempts[id].state in {Planned, Prepared} && GoneFor(Now(), id) ==> Vacant(directory.disk, id)
    {
      Sound();
      if Untorn(Now(), id) && db.attempts[id].attempt.Some? { SoundInspection(Now(), id); }
      if db.attempts[id].state in {Planned, Prepared} && GoneFor(Now(), id) { NoNamesLeft(Now(), id); }
    }

    /** Take the directory's new operations into the history. */
    ghost method Absorb(was: Disk, from: seq<Record>)
      requires directory.Valid() && from <= directory.log
      requires DiskAt(directory.start, from, |from|) == was
      requires Inv(origin) && History(origin, history) && At(origin, history, |history|) == Vault(was, db)
      requires forall i :: |from| <= i < |directory.log| ==> Authorized(db, directory.log[i].op)
      modifies this`history
      ensures Valid() && old(history) <= history
    {
      DiskHistory(origin, history, directory.start, directory.log, |from|, db);
      history := history + Lift(directory.log[|from|..], db);
    }

    /** One transaction; a refused or failed one is rolled back. */
    method Transact(tx: Transaction) returns (r: Result<(), Error>)
      requires Valid() && Evidence(Now(), tx)
      modifies this`db, this`history
      ensures Valid() && old(history) <= history
      ensures r.Success? ==> Commit(old(db), tx) == Some(db)
      ensures r.Success? && Subject(tx).Some? ==> OnlyAt(old(db), db, Subject(tx).value)
      ensures r.Failure? ==> db == old(db)
      ensures !directory.faulty && Commit(old(db), tx).Some? ==> r.Success?
    {
      var fails: bool := *;
      var next := Commit(db, tx);
      if next.None? { return Failure(InvalidStored); }
      if directory.faulty && fails { return Failure(Io); }
      Continued(origin, history, OnDatabase(tx));
      if Subject(tx).Some? { SubjectEffect(db, tx, Subject(tx).value); }
      db := next.value;
      history := history + [Entry(OnDatabase(tx), Now())];
      return Success(());
    }

    /** A point at which the process may be stopped. */
    method Step() returns (r: Result<(), Error>)
      ensures !directory.faulty ==> r.Success?
    {
      var stops: bool := *;
      if directory.faulty && stops { return Failure(Interrupted); }
      return Success(());
    }

    /** The inventory in some order, each source once. */
    method Items() returns (ids: seq<Id>)
      ensures forall id :: id in ids <==> id in db.attempts
      ensures forall i, j :: 0 <= i < j < |ids| ==> ids[i] != ids[j]
    {
      ids := [];
      var rest := db.attempts.Keys;
      while rest != {}
        invariant rest <= db.attempts.Keys
        invariant forall id :: id in ids <==> id in db.attempts.Keys - rest
        invariant forall i, j :: 0 <= i < j < |ids| ==> ids[i] != ids[j]
        decreases rest
      {
        var next :| next in rest;
        ghost var listed := ids;
        ids, rest := ids + [next], rest - {next};
        assert forall id :: id in ids <==> id in listed || id == next;
        assert next !in listed;
        assert forall i :: 0 <= i < |listed| ==> ids[i] == listed[i] && listed[i] in listed;
      }
    }

    /** The machine stops and the next process opens the library again. */
    method Crash(garbage: map<Inode, Content>)
      requires Valid()
      modifies directory, this`history
      ensures Valid() && Now() == Next(old(Now()), Event.Crash(garbage))
      ensures history == old(history) + [Entry(Event.Crash(garbage), Now())]
    {
      Continued(origin, history, Event.Crash(garbage));
      directory.Crash(garbage);
      history := history + [Entry(Event.Crash(garbage), Now())];
    }

    /** Look at the row's two names. */
    method Inspect(id: Id) returns (r: Result<AttemptState, Error>)
      requires Valid() && id in db.attempts && db.attempts[id].attempt.Some?
      ensures r == Inspection(directory.disk, db.attempts[id].meta, db.attempts[id].attempt.value)
      ensures Untorn(Now(), id) ==> r.Success?
      ensures r == Success(AttemptState.Absent) ==> GoneFor(Now(), id)
    {
      SoundRow(id);
      r := directory.InspectAttempt(db.attempts[id].attempt.value, db.attempts[id].meta);
    }

    /** Publish the prepared row's envelope. */
    method Publish(id: Id, w: ObjectWrite) returns (r: Result<(), Error>)
      requires Valid() && id in db.attempts && db.attempts[id].state == Prepared
      requires db.attempts[id].attempt == Some(w.attempt) && db.attempts[id].meta == w.meta && Ready(w)
      modifies this`history, directory
      ensures Valid() && old(history) <= history && directory.faulty == old(directory.faulty)
      ensures Elsewhere(old(directory.disk), directory.disk, id)
      ensures r.Success? ==> PublishedFor(Now(), id)
      ensures !directory.faulty && old(GoneFor(Now(), id)) ==> r.Success?
    {
      SoundRow(id);
      ghost var was, from := directory.disk, directory.log;
      var published := directory.Publish(w);
      PublicationAuthorized(db, from, directory.log, w.meta, w.attempt);
      Absorb(was, from);
      IsElsewhere(was, directory.disk, w.attempt);
      r := if published.Failure? then Failure(published.error) else Success(());
    }

    /** Recover what the prepared or referenced row's attempt left behind. */
    method Recover(id: Id) returns (r: Result<(), Error>)
      requires Valid() && id in db.attempts && db.attempts[id].state in {Prepared, Referenced} && id !in db.deletions
      modifies this`history, directory
      ensures Valid() && old(history) <= history && directory.faulty == old(directory.faulty)
      ensures Elsewhere(old(directory.disk), directory.disk, id)
      ensures r.Success? ==> PublishedFor(Now(), id)
      ensures !directory.faulty && old(Untorn(Now(), id) && !GoneFor(Now(), id)) ==> r.Success?
    {
      SoundRow(id);
      var a := db.attempts[id].attempt.value;
      ghost var was, from := directory.disk, directory.log;
      var recovered := directory.RecoverAttempt(a, db.attempts[id].meta);
      if db.attempts[id].state == Prepared { PublicationAuthorized(db, from, directory.log, db.attempts[id].meta, a); }
      else { CleanupAuthorized(db, from, directory.log, db.attempts[id].meta, a); }
      Absorb(was, from);
      IsElsewhere(was, directory.disk, a);
      r := if recovered.Failure? then Failure(recovered.error) else Success(());
    }

    /** Remove both names of a row whose retirement is stored. */
    method Retire(id: Id) returns (r: Result<(), Error>)
      requires Valid() && Retiring(db, id)
      modifies this`history, directory
      ensures Valid() && old(history) <= history && directory.faulty == old(directory.faulty)
      ensures Elsewhere(old(directory.disk), directory.disk, id)
      ensures id in db.attempts && (r.Success? ==> RemovedFor(Now(), id))
      ensures !directory.faulty && old(Untorn(Now(), id)) ==> r.Success?
    {
      Inventory(id);
      SoundRow(id);
      var a := db.attempts[id].attempt.value;
      ghost var was, from := directory.disk, directory.log;
      r := directory.RetireAttempt(a, db.attempts[id].meta);
      RetirementAuthorized(db, from, directory.log, db.attempts[id].meta, a);
      Absorb(was, from);
      IsElsewhere(was, directory.disk, a);
    }

    /** Drop a duplicate staging link of a committed row's object. */
    method Cleanup(id: Id) returns (r: Result<bool, Error>)
      requires Valid() && MustBePublished(db, id)
      modifies this`history, directory
      ensures Valid() && old(history) <= history && directory.faulty == old(directory.faulty)
      ensures directory.disk.objects == old(directory.disk.objects) && directory.disk.staging == old(directory.disk.staging)
      ensures directory.disk.data == old(directory.disk.data)
      ensures r.Success? ==> !r.value
      ensures !directory.faulty ==> r.Success?
    {
      SoundRow(id);
      var a, meta := db.attempts[id].attempt.value, db.attempts[id].meta;
      ghost var was, from := directory.disk, directory.log;
      r := directory.CleanupCommittedStaging(a, meta);
      CleanupAuthorized(db, from, directory.log, meta, a);
      Absorb(was, from);
      assert directory.disk.staging == was.staging by {
        SoundRow(id);
        assert a !in was.staging && was.staging - {a} == was.staging;
      }
    }

    /** Sources under deletion or with a reference have a row, and every active source has a reference. */
    lemma Inventory(id: Id)
      requires Valid()
      ensures id in db.deletions || id in db.references ==> id in db.attempts && db.attempts[id].attempt.Some?
      ensures id in db.deletions ==> InItsPlan(db, id)
      ensures forall r :: r in db.plans && id in db.plans[r] ==> id in db.deletions && db.deletions[id].request == r
      ensures id in db.artifacts && db.artifacts[id].deletion == Active && db.inventory == ObjectsReady ==> id in db.references
    {
      SoundTables();
      if id in db.attempts { SoundRow(id); }
    }

    lemma SoundTables()
      requires Valid()
      ensures TablesSound(db)
    {
      Sound();
    }
  }
}
