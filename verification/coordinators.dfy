/** Capture, abandonment, deletion and reconciliation over one exclusive session. */
module Coordinators {
  import opened Wrappers
  import opened Objects
  import opened Disks
  import opened Databases
  import opened Vaults
  import opened ObjectDirectories
  import opened Libraries
  import BodyMigration

  datatype ObjectState = IsCommitted | IsPrepared | IsAbandoning | IsAbandoned | IsDeleting | IsDeleted | IsUnknown

  /** The state of one object: a deletion overlays the row. */
  function StateOf(db: Database, id: Id): ObjectState
    requires id in db.attempts
  {
    if id in db.deletions then if db.deletions[id].done then IsDeleted else IsDeleting
    else match db.attempts[id].state
      case Retired => IsCommitted
      case Committed => IsCommitted
      case Prepared => IsPrepared
      case Abandoning => IsAbandoning
      case Abandoned => IsAbandoned
      case _ => IsUnknown
  }

  /** Whether recall may use the source. */
  predicate IsActive(db: Database, id: Id) {
    id in db.artifacts && db.artifacts[id].deletion == Active
  }

  /** The authenticated bodies are exactly those of the active sources, each with the bytes its facts name. */
  ghost predicate VerifiesFacts(db: Database, sources: map<Id, seq<Byte>>) {
    && (forall id :: id in sources <==> id in db.artifacts && db.artifacts[id].deletion == Active)
    && (forall id :: id in sources ==> id in db.references && Matches(db.artifacts[id].meta, sources[id]))
  }

  /** One object in its state; the body of an active committed source. */
  method AuthenticateItem(lib: Library, id: Id) returns (r: Result<Option<seq<Byte>>, Error>)
    requires lib.Valid() && lib.db.inventory == ObjectsReady && id in lib.db.attempts
    ensures r.Success? ==> (r.value.Some? <==> StateOf(lib.db, id) == IsCommitted && IsActive(lib.db, id))
    ensures r.Success? && r.value.Some? ==> id in lib.db.references && Matches(lib.db.attempts[id].meta, r.value.value)
    ensures r.Success? <==> Untorn(lib.Now(), id)
  {
    lib.SoundRow(id);
    if StateOf(lib.db, id) != IsCommitted {
      var state := lib.Inspect(id);
      if state.Failure? { return Failure(state.error); }
      if StateOf(lib.db, id) in {IsAbandoned, IsDeleted} && state.value != AttemptState.Absent { return Failure(AttemptMismatch); }
      return Success(None);
    }
    var read := BodyMigration.ReadReference(lib, id);
    if read.Failure? { return Failure(InvalidStored); }
    return Success(if IsActive(lib.db, id) then Some(read.value) else None);
  }

  /** Authenticate every object of the library in its state and collect the bodies of the active sources. */
  method AuthenticateAll(lib: Library) returns (r: Result<map<Id, seq<Byte>>, Error>)
    requires lib.Valid() && lib.db.inventory == ObjectsReady
    ensures r.Success? ==> VerifiesFacts(lib.db, r.value)
    ensures r.Success? <==> NoneTorn(lib.Now())
  {
    hide StateOf, IsActive, VerifiesFacts, Untorn;
    var ids := lib.Items();
    var inventory := BodyMigration.VerifyInventory(lib, ids);
    var sources: map<Id, seq<Byte>> := map[];
    for i := 0 to |ids|
      invariant forall k :: 0 <= k < i ==> Untorn(lib.Now(), ids[k])
      invariant forall id :: id in sources <==> id in ids[..i] && StateOf(lib.db, id) == IsCommitted && IsActive(lib.db, id)
      invariant forall id :: id in sources ==> id in lib.db.references && Matches(lib.db.attempts[id].meta, sources[id])
    {
      var body := AuthenticateItem(lib, ids[i]);
      if body.Failure? { return Failure(body.error); }
      if body.value.Some? { sources := sources[ids[i] := body.value.value]; }
    }
    assert ids[..|ids|] == ids;
    AllCollected(lib, ids, sources);
    return Success(sources);
  }

  lemma AllCollected(lib: Library, ids: seq<Id>, sources: map<Id, seq<Byte>>)
    requires lib.Valid() && lib.db.inventory == ObjectsReady && forall id :: id in ids <==> id in lib.db.attempts
    requires forall id :: id in sources <==> id in ids && StateOf(lib.db, id) == IsCommitted && IsActive(lib.db, id)
    requires forall id :: id in sources ==> id in lib.db.references && Matches(lib.db.attempts[id].meta, sources[id])
    ensures VerifiesFacts(lib.db, sources)
  {
    forall id
      ensures id in sources <==> IsActive(lib.db, id)
      ensures id in sources ==> lib.db.artifacts[id].meta == lib.db.attempts[id].meta
    {
      lib.Inventory(id);
      if id in lib.db.attempts { lib.SoundRow(id); }
    }
  }

  // ---------------------------------------------------------------- capture

  /** The unresolved capture, if there is one. */
  method FindPrepared(lib: Library) returns (r: Option<Id>)
    requires lib.Valid()
    ensures r.Some? ==> r.value in lib.db.attempts && lib.db.attempts[r.value].state == Prepared
    ensures r.None? ==> !HasState(lib.db, Prepared)
  {
    var ids := lib.Items();
    for i := 0 to |ids|
      invariant forall k :: 0 <= k < i ==> lib.db.attempts[ids[k]].state != Prepared
    {
      if lib.db.attempts[ids[i]].state == Prepared { return Some(ids[i]); }
    }
    assert forall id :: id in lib.db.attempts ==> id in ids;
    return None;
  }

  /** When a request may be stored, an unresolved row can only be its own, and its own row can only be unresolved. */
  lemma StoreMeansOwnRow(db: Database, c: Capture, id: Id)
    requires RowsSound(db) && db.inventory == ObjectsReady && Decide(db, c) == Store
    requires id in db.attempts && (db.attempts[id].state == Prepared || id == c.meta.source)
    ensures id == c.meta.source && db.attempts[id].state == Prepared && db.attempts[id].request == Some(c)
    ensures id !in db.deletions
  {
    assert RowFormed(db, id);
  }

  /** Preparing a request keeps it storable. */
  lemma PreparedStillStores(db: Database, e: Database, c: Capture, a: Attempt)
    requires RowsSound(db) && Decide(db, c) == Store && Commit(db, PrepareCapture(c, a)) == Some(e)
    ensures Decide(e, c) == Store && c.meta.source in e.attempts
    ensures e.attempts[c.meta.source] == Row(c.meta, Prepared, Some(a), Some(c)) && e.artifacts == db.artifacts
  {
    if c.meta.source in db.attempts { StoreMeansOwnRow(db, c, c.meta.source); assert RowFormed(db, c.meta.source); }
  }

  /** A committed request is recognised from then on. */
  lemma CommittedIsIdempotent(db: Database, e: Database, c: Capture)
    requires RowsSound(db) && Commit(db, CommitCapture(c)) == Some(e)
    ensures Decide(e, c) == Idempotent
    ensures e.artifacts == db.artifacts[c.meta.source := Artifact(c.meta, c.details, Active)]
    ensures c.meta.source !in db.deletions ==> MustBePublished(e, c.meta.source)
  {
    assert RowFormed(db, c.meta.source);
    CommittedTables(db, e, c);
    hide Commit, RowsSound, RowFormed;
  }

  /** What committing a request writes. */
  lemma CommittedTables(db: Database, e: Database, c: Capture)
    requires Commit(db, CommitCapture(c)) == Some(e)
    ensures c.meta.source in db.attempts && db.attempts[c.meta.source].attempt.Some?
    ensures e == SetState(db, c.meta.source, Committed).(
                   references := db.references[c.meta.source := db.attempts[c.meta.source].attempt.value],
                   artifacts := db.artifacts[c.meta.source := Artifact(c.meta, c.details, Active)])
    ensures db.inventory == ObjectsReady && db.attempts[c.meta.source].request == Some(c)
  {
  }

  /** The unresolved or new row of a storable request. */
  predicate Pending(db: Database, c: Capture) {
    && c.meta.source in db.attempts && db.attempts[c.meta.source].state == Prepared
    && db.attempts[c.meta.source].request == Some(c) && c.meta.source !in db.deletions
  }

  /** Reserve the request with a fresh attempt, or take up the attempt an earlier try left; end with its object published. */
  method PublishRequest(lib: Library, c: Capture) returns (r: Result<(), Error>)
    requires lib.Valid() && lib.db.inventory == ObjectsReady && Decide(lib.db, c) == Store
    modifies lib`db, lib`history, lib.directory
    ensures lib.Valid() && old(lib.history) <= lib.history && lib.directory.faulty == old(lib.directory.faulty)
    ensures OthersKept(old(lib.Now()), lib.Now(), c.meta.source)
    ensures Decide(lib.db, c) == Store && lib.db.artifacts == old(lib.db.artifacts)
    ensures r.Success? ==> Pending(lib.db, c) && PublishedFor(lib.Now(), c.meta.source)
    ensures !lib.directory.faulty && old(NoneTorn(lib.Now())) && Matches(c.meta, c.body) ==> r.Success?
  {
    hide Commit, RowFormed, RowStored, Decide;
    var id := c.meta.source;
    assert RowsSound(lib.db) by { lib.SoundRows(); }
    var pending := FindPrepared(lib);
    var absent := true;
    if id in lib.db.attempts { StoreMeansOwnRow(lib.db, c, id); }
    if pending.Some? {
      StoreMeansOwnRow(lib.db, c, pending.value);
      lib.SoundRow(pending.value);
      var state := lib.Inspect(pending.value);
      if state.Failure? { return Failure(state.error); }
      absent := state.value == AttemptState.Absent;
    }
    if absent {
      r := PublishAnew(lib, c);
    } else {
      r := lib.Recover(id);
    }
  }

  /** Seal the request's body, reserve it and publish. */
  method PublishAnew(lib: Library, c: Capture) returns (r: Result<(), Error>)
    requires lib.Valid() && lib.db.inventory == ObjectsReady && Decide(lib.db, c) == Store
    requires c.meta.source in lib.db.attempts ==> GoneFor(lib.Now(), c.meta.source)
    modifies lib`db, lib`history, lib.directory
    ensures lib.Valid() && old(lib.history) <= lib.history && lib.directory.faulty == old(lib.directory.faulty)
    ensures OthersKept(old(lib.Now()), lib.Now(), c.meta.source)
    ensures Decide(lib.db, c) == Store && lib.db.artifacts == old(lib.db.artifacts)
    ensures r.Success? ==> Pending(lib.db, c) && PublishedFor(lib.Now(), c.meta.source)
    ensures !lib.directory.faulty && Matches(c.meta, c.body) ==> r.Success?
  {
    hide RowFormed, RowStored, NoneTorn;
    var id := c.meta.source;
    assert RowsSound(lib.db) by { lib.SoundRows(); }
    var prefix: nat := *;
    var write := Seal(c.meta, prefix, c.body);
    if write.Failure? { return Failure(write.error); }
    assert Vacant(lib.directory.disk, id) && Commit(lib.db, PrepareCapture(c, write.value.attempt)).Some? && id !in lib.db.deletions by {
      NewRow(lib, c, write.value.attempt);
    }
    ghost var before := lib.db;
    r := lib.Transact(PrepareCapture(c, write.value.attempt));
    if r.Failure? { return; }
    PreparedStillStores(before, lib.db, c, write.value.attempt);
    r := lib.Step();
    if r.Failure? { return; }
    r := lib.Publish(id, write.value);
  }

  lemma NewRow(lib: Library, c: Capture, a: Attempt)
    requires lib.Valid() && lib.db.inventory == ObjectsReady && Decide(lib.db, c) == Store
    requires c.meta.source in lib.db.attempts ==> GoneFor(lib.Now(), c.meta.source)
    ensures Vacant(lib.directory.disk, c.meta.source) && Commit(lib.db, PrepareCapture(c, a)).Some?
    ensures c.meta.source !in lib.db.deletions
  {
    var id := c.meta.source;
    lib.SoundRows();
    lib.Inventory(id);
    if id in lib.db.attempts {
      StoreMeansOwnRow(lib.db, c, id);
      lib.SoundRow(id);
    } else {
      lib.Sound();
      if HasState(lib.db, Prepared) {
        var other :| other in lib.db.attempts && lib.db.attempts[other].state == Prepared;
        StoreMeansOwnRow(lib.db, c, other);
      }
    }
  }

  /** The facts a stored request leaves, whatever attempts it took. */
  function Stored(artifacts: map<Id, Artifact>, c: Capture): map<Id, Artifact> {
    artifacts[c.meta.source := Artifact(c.meta, c.details, Active)]
  }

  /** Nothing was stored and a retry may store it, or exactly the request's facts were. */
  predicate UnstoredOrStored(db: Database, e: Database, c: Capture) {
    || (Decide(e, c) == Store && e.artifacts == db.artifacts)
    || (Decide(e, c) == Idempotent && e.artifacts == Stored(db.artifacts, c))
  }

  /**
   Store one source. A try that fails anywhere either leaves the facts alone and the request storable,
   or has already committed exactly the facts that an undisturbed run commits.
   */
  method CaptureSource(lib: Library, c: Capture) returns (r: Result<Decision, Error>)
    requires lib.Valid() && lib.db.inventory == ObjectsReady
    modifies lib`db, lib`history, lib.directory
    ensures lib.Valid() && old(lib.history) <= lib.history && lib.directory.faulty == old(lib.directory.faulty)
    ensures OthersKept(old(lib.Now()), lib.Now(), c.meta.source)
    ensures old(Decide(lib.db, c)) != Store ==> lib.Now() == old(lib.Now())
    ensures !old(NoneTorn(lib.Now())) ==> r.Failure? && lib.Now() == old(lib.Now())
    ensures old(Decide(lib.db, c)) == Store ==> UnstoredOrStored(old(lib.db), lib.db, c)
    ensures r.Success? ==> r.value == old(Decide(lib.db, c)) && Decide(lib.db, c) == Idempotent && lib.db.artifacts == Stored(old(lib.db.artifacts), c)
    ensures !lib.directory.faulty && old(NoneTorn(lib.Now())) && old(Decide(lib.db, c)) != Refuse && Matches(c.meta, c.body)
            ==> r.Success?
  {
    var sources := AuthenticateAll(lib);
    if sources.Failure? { return Failure(sources.error); }
    var decision := Decide(lib.db, c);
    if decision == Refuse { return Failure(InvalidStored); }
    if decision == Idempotent {
      assert Stored(lib.db.artifacts, c) == lib.db.artifacts;
      return Success(Idempotent);
    }
    r := StoreRequest(lib, c);
  }

  method StoreRequest(lib: Library, c: Capture) returns (r: Result<Decision, Error>)
    requires lib.Valid() && lib.db.inventory == ObjectsReady && Decide(lib.db, c) == Store
    modifies lib`db, lib`history, lib.directory
    ensures lib.Valid() && old(lib.history) <= lib.history && lib.directory.faulty == old(lib.directory.faulty)
    ensures OthersKept(old(lib.Now()), lib.Now(), c.meta.source)
    ensures UnstoredOrStored(old(lib.db), lib.db, c)
    ensures r.Success? ==> r.value == Store && Decide(lib.db, c) == Idempotent && lib.db.artifacts == Stored(old(lib.db.artifacts), c)
    ensures !lib.directory.faulty && old(NoneTorn(lib.Now())) && Matches(c.meta, c.body) ==> r.Success?
  {
    assert RowsSound(lib.db) by { lib.SoundRows(); }
    var stored := PublishRequest(lib, c);
    if stored.Failure? { return Failure(stored.error); }
    ghost var first := lib.Now();
    stored := CommitRequest(lib, c);
    OthersKeptTwice(old(lib.Now()), first, lib.Now(), c.meta.source);
    if stored.Failure? { return Failure(stored.error); }
    if old(NoneTorn(lib.Now())) { TornElsewhere(lib, old(lib.Now()), c.meta.source); }
    r := ConfirmStored(lib);
  }

  /** Authenticate and verify the whole library once more before reporting success. */
  method ConfirmStored(lib: Library) returns (r: Result<Decision, Error>)
    requires lib.Valid() && lib.db.inventory == ObjectsReady
    ensures r.Success? ==> r.value == Store
    ensures !lib.directory.faulty && NoneTorn(lib.Now()) ==> r.Success?
  {
    var sources := AuthenticateAll(lib);
    if sources.Failure? { return Failure(sources.error); }
    var stopped := lib.Step();
    if stopped.Failure? { return Failure(stopped.error); }
    return Success(Store);
  }

  /** What one try of the request does to the tables; `CaptureSource` promises exactly this of every call. */
  predicate Tried(db: Database, e: Database, c: Capture) {
    if Decide(db, c) == Store then UnstoredOrStored(db, e, c) else e == db
  }

  /** Any number of tries, interrupted or not, stores the request's facts at most once and nothing else. */
  lemma {:induction false} TriesStoreOnce(dbs: seq<Database>, c: Capture)
    requires dbs != [] && Decide(dbs[0], c) == Store
    requires forall i :: 0 < i < |dbs| ==> Tried(dbs[i - 1], dbs[i], c)
    ensures UnstoredOrStored(dbs[0], dbs[|dbs| - 1], c)
  {
    if |dbs| > 1 {
      TriesStoreOnce(dbs[..|dbs| - 1], c);
      assert Tried(dbs[|dbs| - 2], dbs[|dbs| - 1], c);
    }
  }

  /** After a row's work is done, its staging name is gone and nobody else's file was touched. */
  lemma TornElsewhere(lib: Library, v: Vault, id: Id)
    requires lib.Valid() && OthersKept(v, lib.Now(), id) && NoneTorn(v)
    requires RowsSound(v.db) && Healthy(v.disk)
    requires id in lib.db.attempts && (MustBePublished(lib.db, id) || MustBeGone(lib.db, id) || RemovedFor(lib.Now(), id))
    ensures NoneTorn(lib.Now())
  {
    lib.SoundRow(id);
    BodyMigration.NoneTornKept(v, lib.Now(), id);
  }

  lemma CommitAdmitted(lib: Library, c: Capture)
    requires lib.Valid() && lib.db.inventory == ObjectsReady && Decide(lib.db, c) == Store && Pending(lib.db, c)
    requires PublishedFor(lib.Now(), c.meta.source)
    ensures Untorn(lib.Now(), c.meta.source) && Commit(lib.db, CommitCapture(c)).Some?
  {
    lib.SoundRow(c.meta.source);
  }

  /** Recover the request's object once more, so that its facts are committed over evidence of this very run. */
  method CommitRequest(lib: Library, c: Capture) returns (r: Result<(), Error>)
    requires lib.Valid() && lib.db.inventory == ObjectsReady && Decide(lib.db, c) == Store
    requires Pending(lib.db, c) && PublishedFor(lib.Now(), c.meta.source)
    modifies lib`db, lib`history, lib.directory
    ensures lib.Valid() && old(lib.history) <= lib.history && lib.directory.faulty == old(lib.directory.faulty)
    ensures OthersKept(old(lib.Now()), lib.Now(), c.meta.source)
    ensures UnstoredOrStored(old(lib.db), lib.db, c)
    ensures r.Success? ==>
      && Decide(lib.db, c) == Idempotent && lib.db.artifacts == Stored(old(lib.db.artifacts), c)
      && MustBePublished(lib.db, c.meta.source)
    ensures !lib.directory.faulty ==> r.Success?
  {
    hide RowFormed, RowStored, Decide, Commit, MustBePublished, Untorn;
    var id := c.meta.source;
    assert RowsSound(lib.db) by { lib.SoundRows(); }
    CommitAdmitted(lib, c);
    r := lib.Step();
    if r.Failure? { return; }
    r := lib.Recover(id);
    if r.Failure? { return; }
    ghost var before := lib.db;
    r := lib.Transact(CommitCapture(c));
    if r.Failure? { return; }
    CommittedIsIdempotent(before, lib.db, c);
    r := lib.Step();
  }

  // ---------------------------------------------------------------- abandonment

  lemma SameAttempts(v: Vault, w: Vault)
    requires w.disk == v.disk && w.db.attempts.Keys == v.db.attempts.Keys
    requires forall id :: id in v.db.attempts ==>
      w.db.attempts[id].attempt == v.db.attempts[id].attempt && w.db.attempts[id].meta == v.db.attempts[id].meta
    ensures NoneTorn(v) ==> NoneTorn(w)
  {
    forall id | NoneTorn(v) && id in w.db.attempts
      ensures Untorn(w, id)
    {
      assert Untorn(v, id);
    }
  }

  /** Give up one unresolved capture: durable intent, exact removal, terminal commit. */
  method Abandon(lib: Library, t: Target) returns (r: Result<bool, Error>)
    requires lib.Valid() && lib.db.inventory == ObjectsReady
    modifies lib`db, lib`history, lib.directory
    ensures lib.Valid() && old(lib.history) <= lib.history && lib.directory.faulty == old(lib.directory.faulty)
    ensures OthersKept(old(lib.Now()), lib.Now(), t.source)
    ensures lib.db.artifacts == old(lib.db.artifacts) && lib.db.references == old(lib.db.references)
    ensures !(t.source in old(lib.db).attempts
              && var row := old(lib.db).attempts[t.source];
                 row.meta == t.meta && row.attempt == Some(t.attempt) && row.request == Some(t.request)
                 && (row.state == Prepared || row.state == Abandoning || row.state == Abandoned))
            ==> r.Failure? && lib.Now() == old(lib.Now())
    ensures !old(NoneTorn(lib.Now())) ==> r.Failure? && lib.Now() == old(lib.Now())
    ensures r.Success? ==>
      && Selects(lib.db, t) && lib.db.attempts[t.source].state == Abandoned && RemovedFor(lib.Now(), t.source)
      && r.value == (old(lib.db).attempts[t.source].state == Abandoned)
    ensures !lib.directory.faulty && old(NoneTorn(lib.Now())) && t.source in old(lib.db).attempts
            && (var row := old(lib.db).attempts[t.source];
                row.meta == t.meta && row.attempt == Some(t.attempt) && row.request == Some(t.request)
                && (row.state == Prepared || row.state == Abandoning || row.state == Abandoned))
            ==> r.Success?
  {
    if !Selects(lib.db, t) { return Failure(InvalidStored); }
    var verified := AuthenticateAll(lib);
    if verified.Failure? { return Failure(verified.error); }
    var already := lib.db.attempts[t.source].state == Abandoned;
    if !already {
      assert RowsSound(lib.db) by { lib.SoundRows(); }
      var removed := AbandonUnresolved(lib, t);
      if removed.Failure? { return Failure(removed.error); }
      if old(NoneTorn(lib.Now())) { TornElsewhere(lib, old(lib.Now()), t.source); }
    }
    assert RemovedFor(lib.Now(), t.source) by { lib.SoundRow(t.source); }
    verified := AuthenticateAll(lib);
    if verified.Failure? { return Failure(verified.error); }
    return Success(already);
  }

  method AbandonUnresolved(lib: Library, t: Target) returns (r: Result<(), Error>)
    requires lib.Valid() && lib.db.inventory == ObjectsReady
    requires Selects(lib.db, t) && lib.db.attempts[t.source].state in {Prepared, Abandoning}
    modifies lib`db, lib`history, lib.directory
    ensures lib.Valid() && old(lib.history) <= lib.history && lib.directory.faulty == old(lib.directory.faulty)
    ensures OthersKept(old(lib.Now()), lib.Now(), t.source)
    ensures lib.db.artifacts == old(lib.db.artifacts) && lib.db.references == old(lib.db.references)
    ensures Selects(lib.db, t)
    ensures r.Success? ==> lib.db.attempts[t.source].state == Abandoned
    ensures !lib.directory.faulty && old(NoneTorn(lib.Now())) ==> r.Success?
  {
    r := DecideAbandonment(lib, t);
    if r.Failure? { return; }
    ghost var decided := lib.Now();
    r := RemoveAbandoned(lib, t);
    OthersKeptTwice(old(lib.Now()), decided, lib.Now(), t.source);
  }

  /** Commit the irreversible decision and revalidate after it. */
  method DecideAbandonment(lib: Library, t: Target) returns (r: Result<(), Error>)
    requires lib.Valid() && lib.db.inventory == ObjectsReady
    requires Selects(lib.db, t) && lib.db.attempts[t.source].state in {Prepared, Abandoning}
    modifies lib`db, lib`history
    ensures lib.Valid() && old(lib.history) <= lib.history
    ensures OthersKept(old(lib.Now()), lib.Now(), t.source)
    ensures lib.db.artifacts == old(lib.db.artifacts) && lib.db.references == old(lib.db.references)
    ensures lib.db.inventory == ObjectsReady && Selects(lib.db, t)
    ensures r.Success? ==> lib.db.attempts[t.source].state == Abandoning
    ensures old(NoneTorn(lib.Now())) ==> NoneTorn(lib.Now())
    ensures !lib.directory.faulty && old(NoneTorn(lib.Now())) ==> r.Success?
  {
    assert Uncommitted(lib.db, t, lib.db.attempts[t.source].state) by { lib.SoundRow(t.source); }
    DecisionEffect(lib.db, t);
    r := lib.Transact(BeginAbandonment(t));
    if r.Failure? { return; }
    SameAttempts(old(lib.Now()), lib.Now());
    r := ConfirmDecision(lib);
  }

  method ConfirmDecision(lib: Library) returns (r: Result<(), Error>)
    requires lib.Valid() && lib.db.inventory == ObjectsReady
    ensures !lib.directory.faulty && NoneTorn(lib.Now()) ==> r.Success?
  {
    r := lib.Step();
    if r.Failure? { return; }
    var verified := AuthenticateAll(lib);
    if verified.Failure? { return Failure(verified.error); }
  }

  lemma DecisionEffect(db: Database, t: Target)
    requires db.inventory == ObjectsReady && Selects(db, t)
    requires db.attempts[t.source].state in {Prepared, Abandoning} && Uncommitted(db, t, db.attempts[t.source].state)
    ensures Commit(db, BeginAbandonment(t)) == Some(SetState(db, t.source, Abandoning))
  {
    assert db.attempts[t.source := db.attempts[t.source]] == db.attempts;
  }

  /** What finishing an abandonment writes. */
  lemma AbandonmentFinishes(db: Database, t: Target)
    requires db.inventory == ObjectsReady && Selects(db, t) && Uncommitted(db, t, Abandoning)
    ensures Commit(db, FinishAbandonment(t)) == Some(SetState(db, t.source, Abandoned))
    ensures Selects(SetState(db, t.source, Abandoned), t)
  {
  }

  method RemoveAbandoned(lib: Library, t: Target) returns (r: Result<(), Error>)
    requires lib.Valid() && lib.db.inventory == ObjectsReady
    requires Selects(lib.db, t) && lib.db.attempts[t.source].state == Abandoning
    modifies lib`db, lib`history, lib.directory
    ensures lib.Valid() && old(lib.history) <= lib.history && lib.directory.faulty == old(lib.directory.faulty)
    ensures OthersKept(old(lib.Now()), lib.Now(), t.source)
    ensures lib.db.artifacts == old(lib.db.artifacts) && lib.db.references == old(lib.db.references)
    ensures Selects(lib.db, t)
    ensures r.Success? ==> lib.db.attempts[t.source].state == Abandoned
    ensures !lib.directory.faulty && old(NoneTorn(lib.Now())) ==> r.Success?
  {
    hide RowFormed, RowStored, Commit, Untorn;
    r := RemoveFiles(lib, t.source);
    if r.Failure? { return; }
    r := ConfirmAbsent(lib, t.source);
    if r.Failure? { return; }
    assert Uncommitted(lib.db, t, Abandoning) by { lib.SoundRow(t.source); }
    AbandonmentFinishes(lib.db, t);
    r := lib.Transact(FinishAbandonment(t));
  }

  /** Remove both names of a retiring row; nobody else's staging file is touched. */
  method RemoveFiles(lib: Library, id: Id) returns (r: Result<(), Error>)
    requires lib.Valid() && Retiring(lib.db, id)
    modifies lib`history, lib.directory
    ensures lib.Valid() && old(lib.history) <= lib.history && lib.directory.faulty == old(lib.directory.faulty)
    ensures Elsewhere(old(lib.directory.disk), lib.directory.disk, id)
    ensures id in lib.db.attempts && (r.Success? ==> RemovedFor(lib.Now(), id))
    ensures r.Success? && old(NoneTorn(lib.Now())) ==> NoneTorn(lib.Now())
    ensures !lib.directory.faulty && old(NoneTorn(lib.Now())) ==> r.Success?
  {
    assert RowsSound(lib.db) by { lib.SoundRows(); }
    assert id in lib.db.attempts by { lib.Inventory(id); }
    r := lib.Retire(id);
    if r.Failure? { return; }
    if old(NoneTorn(lib.Now())) { TornElsewhere(lib, old(lib.Now()), id); }
  }

  /** The library still authenticates and neither name has reappeared. */
  method ConfirmAbsent(lib: Library, id: Id) returns (r: Result<(), Error>)
    requires lib.Valid() && lib.db.inventory == ObjectsReady && id in lib.db.attempts && lib.db.attempts[id].attempt.Some?
    ensures r.Success? ==> GoneFor(lib.Now(), id)
    ensures !lib.directory.faulty && NoneTorn(lib.Now()) && GoneFor(lib.Now(), id) ==> r.Success?
  {
    var verified := AuthenticateAll(lib);
    if verified.Failure? { return Failure(verified.error); }
    r := Reinspect(lib, id);
  }

  method Reinspect(lib: Library, id: Id) returns (r: Result<(), Error>)
    requires lib.Valid() && id in lib.db.attempts && lib.db.attempts[id].attempt.Some?
    ensures r.Success? ==> GoneFor(lib.Now(), id)
    ensures !lib.directory.faulty && GoneFor(lib.Now(), id) ==> r.Success?
  {
    r := lib.Step();
    if r.Failure? { return; }
    lib.SoundRow(id);
    var state := lib.Inspect(id);
    if state.Failure? { return Failure(state.error); }
    if state.value != AttemptState.Absent { return Failure(AttemptMismatch); }
  }

  // ---------------------------------------------------------------- reconciliation

  /**
   Drop duplicate staging links of committed objects. A library with a lawful history has none: every
   commit comes after its staging link is durably gone.
   */
  method Reconcile(lib: Library) returns (r: Result<nat, Error>)
    requires lib.Valid() && lib.db.inventory == ObjectsReady
    modifies lib`history, lib.directory
    ensures lib.Valid() && old(lib.history) <= lib.history && lib.directory.faulty == old(lib.directory.faulty)
    ensures SameView(old(lib.directory.disk), lib.directory.disk)
    ensures r.Success? ==> r.value == 0
    ensures !old(NoneTorn(lib.Now())) ==> r.Failure? && lib.Now() == old(lib.Now())
    ensures !lib.directory.faulty && old(NoneTorn(lib.Now())) ==> r.Success?
  {
    var verified := AuthenticateAll(lib);
    if verified.Failure? { return Failure(verified.error); }
    var removed := 0;
    var ids := lib.Items();
    for i := 0 to |ids|
      invariant lib.Valid() && old(lib.history) <= lib.history && lib.directory.faulty == old(lib.directory.faulty)
      invariant SameView(old(lib.directory.disk), lib.directory.disk) && removed == 0
    {
      if StateOf(lib.db, ids[i]) == IsCommitted {
        var cleaned := lib.Cleanup(ids[i]);
        if cleaned.Failure? { return Failure(cleaned.error); }
        removed := removed + if cleaned.value then 1 else 0;
      }
    }
    assert old(NoneTorn(lib.Now())) ==> NoneTorn(lib.Now());
    verified := AuthenticateAll(lib);
    if verified.Failure? { return Failure(InvalidStored); }
    return Success(removed);
  }

  // ---------------------------------------------------------------- deletion

  /** The sources of a plan whose objects are still to be, or already were, retired. */
  predicate InPlan(db: Database, r: Id, id: Id) {
    id in db.deletions && db.deletions[id].request == r
  }

  /** Every object of the plan is durably gone and its retirement is recorded. */
  ghost predicate PlanRetired(v: Vault, r: Id) {
    forall id :: InPlan(v.db, r, id) ==> v.db.deletions[id].done && id in v.db.attempts && RemovedFor(v, id)
  }

  predicate StillInPlan(db: Database, e: Database, r: Id, id: Id)
    requires id in db.deletions && id in e.deletions
  {
    && e.deletions[id].request == db.deletions[id].request
    && (db.deletions[id].done ==> e.deletions[id].done)
    && (!InPlan(db, r, id) ==> e.deletions[id] == db.deletions[id])
  }

  /** What one deletion leaves alone: rows, and everything about sources outside the plan. */
  ghost predicate OnlyPlan(db: Database, e: Database, r: Id) {
    && e.attempts == db.attempts && e.references == db.references && e.bodies == db.bodies && e.inventory == db.inventory
    && e.plans == db.plans && e.artifacts == db.artifacts
    && e.deletions.Keys == db.deletions.Keys
    && (forall id :: id in db.deletions ==> StillInPlan(db, e, r, id))
  }

  /** Retire one object of the plan and record it. */
  method RetireObject(lib: Library, r: Id, id: Id) returns (res: Result<(), Error>)
    requires lib.Valid() && lib.db.inventory == ObjectsReady && InPlan(lib.db, r, id)
    modifies lib`db, lib`history, lib.directory
    ensures lib.Valid() && old(lib.history) <= lib.history && lib.directory.faulty == old(lib.directory.faulty)
    ensures OnlyPlan(old(lib.db), lib.db, r)
    ensures res.Success? ==> lib.db.deletions[id].done
    ensures res.Success? && old(NoneTorn(lib.Now())) ==> NoneTorn(lib.Now())
    ensures !lib.directory.faulty && old(NoneTorn(lib.Now())) ==> res.Success?
  {
    if lib.db.deletions[id].done { return Success(()); }
    res := RemoveFiles(lib, id);
    if res.Failure? { return; }
    // Only a plan entry whose two names are still gone is recorded.
    res := Reinspect(lib, id);
    if res.Failure? { return; }
    res := RecordRetirement(lib, r, id);
  }

  method RecordRetirement(lib: Library, r: Id, id: Id) returns (res: Result<(), Error>)
    requires lib.Valid() && lib.db.inventory == ObjectsReady && InPlan(lib.db, r, id)
    requires id in lib.db.attempts && RemovedFor(lib.Now(), id)
    modifies lib`db, lib`history
    ensures lib.Valid() && old(lib.history) <= lib.history
    ensures OnlyPlan(old(lib.db), lib.db, r)
    ensures res.Success? ==> lib.db.deletions[id].done
    ensures old(NoneTorn(lib.Now())) ==> NoneTorn(lib.Now())
    ensures !lib.directory.faulty && old(NoneTorn(lib.Now())) ==> res.Success?
  {
    assert InItsPlan(lib.db, id) by { lib.Inventory(id); }
    res := lib.Transact(FinishRetirement(r, id));
    if res.Failure? { return; }
    SameAttempts(old(lib.Now()), lib.Now());
    res := ConfirmDecision(lib);
  }

  lemma OnlyPlanTwice(d: Database, e: Database, f: Database, r: Id)
    requires OnlyPlan(d, e, r) && OnlyPlan(e, f, r)
    ensures OnlyPlan(d, f, r)
    ensures forall id :: InPlan(d, r, id) ==> InPlan(f, r, id) && (e.deletions[id].done ==> f.deletions[id].done)
    ensures forall id :: InPlan(f, r, id) ==> InPlan(e, r, id)
  {
    forall id | id in d.deletions
      ensures StillInPlan(d, f, r, id) && StillInPlan(e, f, r, id)
    {
      assert StillInPlan(d, e, r, id) && StillInPlan(e, f, r, id);
    }
  }

  method RetirePlan(lib: Library, r: Id) returns (res: Result<(), Error>)
    requires lib.Valid() && lib.db.inventory == ObjectsReady
    modifies lib`db, lib`history, lib.directory
    ensures lib.Valid() && old(lib.history) <= lib.history && lib.directory.faulty == old(lib.directory.faulty)
    ensures OnlyPlan(old(lib.db), lib.db, r)
    ensures res.Success? ==> forall id :: InPlan(lib.db, r, id) ==> lib.db.deletions[id].done
    ensures res.Success? && old(NoneTorn(lib.Now())) ==> NoneTorn(lib.Now())
    ensures !lib.directory.faulty && old(NoneTorn(lib.Now())) ==> res.Success?
  {
    var ids := lib.Items();
    for i := 0 to |ids|
      invariant lib.Valid() && old(lib.history) <= lib.history && lib.directory.faulty == old(lib.directory.faulty)
      invariant OnlyPlan(old(lib.db), lib.db, r)
      invariant forall k :: 0 <= k < i && InPlan(lib.db, r, ids[k]) ==> lib.db.deletions[ids[k]].done
      invariant old(NoneTorn(lib.Now())) ==> NoneTorn(lib.Now())
    {
      if InPlan(lib.db, r, ids[i]) {
        ghost var before := lib.db;
        res := RetireObject(lib, r, ids[i]);
        OnlyPlanTwice(old(lib.db), before, lib.db, r);
        if res.Failure? { return; }
      }
    }
    forall id | InPlan(lib.db, r, id)
      ensures id in ids
    {
      lib.Inventory(id);
    }
    return Success(());
  }

  /** The facts after a deletion: the plan's sources in their final state, every other source as it was. */
  function Erased(artifacts: map<Id, Artifact>, targets: set<Id>, final: DeletionState): map<Id, Artifact> {
    map id | id in artifacts :: if id in targets then artifacts[id].(deletion := final) else artifacts[id]
  }

  lemma ErasedTwice(artifacts: map<Id, Artifact>, targets: set<Id>, first: DeletionState, final: DeletionState)
    ensures Erased(Erased(artifacts, targets, first), targets, final) == Erased(artifacts, targets, final)
  {
  }

  /** A request may start, or it is the one already registered. */
  predicate MayDelete(db: Database, r: Id, targets: set<Id>) {
    db.inventory == ObjectsReady && Commit(db, BeginDeletion(r, targets)).Some?
  }

  /** Registration makes the sources pending and closes their references, or finds that done. */
  predicate Registered(db: Database, e: Database, r: Id, targets: set<Id>) {
    && e.inventory == db.inventory && e.attempts == db.attempts && r in e.plans && e.plans[r] == targets
    && e.references == db.references - targets
    && e.artifacts == if r in db.plans then db.artifacts else Erased(db.artifacts, targets, DeletionState.Pending)
  }

  lemma RegistrationEffect(lib: Library, r: Id, targets: set<Id>)
    requires lib.Valid() && MayDelete(lib.db, r, targets)
    ensures Registered(lib.db, Commit(lib.db, BeginDeletion(r, targets)).value, r, targets)
  {
    if r in lib.db.plans {
      forall id | id in targets
        ensures id !in lib.db.references
      {
        lib.Inventory(id);
        lib.SoundRow(id);
      }
      assert lib.db.references - targets == lib.db.references;
    }
  }

  method BeginDelete(lib: Library, r: Id, targets: set<Id>) returns (res: Result<(), Error>)
    requires lib.Valid() && lib.db.inventory == ObjectsReady
    modifies lib`db, lib`history
    ensures lib.Valid() && old(lib.history) <= lib.history
    ensures lib.db == old(lib.db) || Registered(old(lib.db), lib.db, r, targets)
    ensures !old(MayDelete(lib.db, r, targets)) ==> res.Failure? && lib.Now() == old(lib.Now())
    ensures !old(NoneTorn(lib.Now())) ==> res.Failure? && lib.Now() == old(lib.Now())
    ensures res.Success? ==> Registered(old(lib.db), lib.db, r, targets)
    ensures old(NoneTorn(lib.Now())) ==> NoneTorn(lib.Now())
    ensures !lib.directory.faulty && old(NoneTorn(lib.Now())) && old(MayDelete(lib.db, r, targets)) ==> res.Success?
  {
    var verified := AuthenticateAll(lib);
    if verified.Failure? { return Failure(verified.error); }
    res := lib.Step();
    if res.Failure? { return; }
    if MayDelete(lib.db, r, targets) { RegistrationEffect(lib, r, targets); }
    ghost var before := lib.Now();
    res := lib.Transact(BeginDeletion(r, targets));
    if res.Failure? { return; }
    SameAttempts(before, lib.Now());
    res := ConfirmDecision(lib);
  }

  /** What finishing a plan writes. */
  lemma ExecutionEffect(db: Database, r: Id, failed: bool)
    requires db.inventory == ObjectsReady && r in db.plans && forall id :: InPlan(db, r, id) ==> db.deletions[id].done
    ensures Commit(db, ExecuteDeletion(r, failed)) ==
              Some(db.(artifacts := Erased(db.artifacts, db.plans[r], if failed then Failed else Deleted)))
  {
    assert forall id :: id in db.deletions && db.deletions[id].request == r ==> InPlan(db, r, id);
  }

  method FinishDelete(lib: Library, r: Id, targets: set<Id>, failed: bool) returns (res: Result<(), Error>)
    requires lib.Valid() && lib.db.inventory == ObjectsReady && r in lib.db.plans && lib.db.plans[r] == targets
    requires forall id :: InPlan(lib.db, r, id) ==> lib.db.deletions[id].done
    modifies lib`db, lib`history
    ensures lib.Valid() && old(lib.history) <= lib.history
    ensures lib.db.attempts == old(lib.db.attempts) && lib.db.references == old(lib.db.references)
    ensures lib.db.deletions == old(lib.db.deletions)
    ensures lib.db.artifacts == old(lib.db.artifacts)
            || lib.db.artifacts == Erased(old(lib.db.artifacts), targets, if failed then Failed else Deleted)
    ensures res.Success? ==> lib.db.artifacts == Erased(old(lib.db.artifacts), targets, if failed then Failed else Deleted)
    ensures !lib.directory.faulty && old(NoneTorn(lib.Now())) ==> res.Success?
  {
    hide NoneTorn, Commit, Erased;
    res := ConfirmDecision(lib);
    if res.Failure? { return; }
    ExecutionEffect(lib.db, r, failed);
    ghost var before := lib.Now();
    res := lib.Transact(ExecuteDeletion(r, failed));
    if res.Failure? { return; }
    SameAttempts(before, lib.Now());
    res := ConfirmDecision(lib);
  }

  lemma PlanGone(lib: Library, r: Id)
    requires lib.Valid() && forall id :: InPlan(lib.db, r, id) ==> lib.db.deletions[id].done
    ensures PlanRetired(lib.Now(), r)
  {
    forall id | InPlan(lib.db, r, id)
      ensures id in lib.db.attempts && RemovedFor(lib.Now(), id)
    {
      lib.Inventory(id);
      lib.SoundRow(id);
    }
  }

  /**
   Delete the sources of a plan: exclusion from recall is durable before the first file goes, and the
   facts are finished only after every object is durably absent. `failed` is the outcome of the
   component actions that finish the plan inside the database.
   */
  method Delete(lib: Library, r: Id, targets: set<Id>, failed: bool) returns (res: Result<(), Error>)
    requires lib.Valid() && lib.db.inventory == ObjectsReady
    modifies lib`db, lib`history, lib.directory
    ensures lib.Valid() && old(lib.history) <= lib.history && lib.directory.faulty == old(lib.directory.faulty)
    ensures lib.db.attempts == old(lib.db.attempts) && lib.db.references.Keys <= old(lib.db.references).Keys
    ensures forall id :: id in old(lib.db.references) && id !in targets ==> Lookup(lib.db.references, id) == Lookup(old(lib.db.references), id)
    ensures !old(MayDelete(lib.db, r, targets)) ==> res.Failure? && lib.Now() == old(lib.Now())
    ensures !old(NoneTorn(lib.Now())) ==> res.Failure? && lib.Now() == old(lib.Now())
    ensures || lib.db.artifacts == old(lib.db.artifacts)
            || (r !in old(lib.db.plans) && lib.db.artifacts == Erased(old(lib.db.artifacts), targets, DeletionState.Pending))
            || (PlanRetired(lib.Now(), r) && lib.db.artifacts == Erased(old(lib.db.artifacts), targets, if failed then Failed else Deleted))
    ensures res.Success? ==>
      && PlanRetired(lib.Now(), r)
      && lib.db.artifacts == Erased(old(lib.db.artifacts), targets, if failed then Failed else Deleted)
      && lib.db.references == old(lib.db.references) - targets
    ensures !lib.directory.faulty && old(NoneTorn(lib.Now())) && old(MayDelete(lib.db, r, targets)) ==> res.Success?
  {
    hide Commit, MayDelete, Erased, StillInPlan, PlanRetired, NoneTorn;
    ErasedTwice(lib.db.artifacts, targets, DeletionState.Pending, if failed then Failed else Deleted);
    res := BeginDelete(lib, r, targets);
    if res.Failure? { return; }
    res := RetirePlan(lib, r);
    if res.Failure? { return; }
    res := FinishDelete(lib, r, targets, failed);
    PlanGone(lib, r);
  }
}
