/**
 When the vault takes up new work: which captures are stored or recognised, which deletions may begin,
 and what the facts of a source say while its deletion is under way.
 */
module VaultDecisions {
  import opened Wrappers
  import opened Objects
  import opened Disks
  import opened Databases
  import opened Vaults

  // ---------------------------------------------------------------- captures

  /** Nothing is left over from other work: no deletion unfinished or failed, nothing unresolved but this request. */
  predicate Quiet(db: Database, request: Option<Capture>) {
    && (forall id <- db.artifacts.Keys :: db.artifacts[id].deletion == Active || db.artifacts[id].deletion == Deleted)
    && (forall id <- db.attempts.Keys :: db.attempts[id].state != Abandoning)
    && (forall id <- db.attempts.Keys :: db.attempts[id].state == Prepared ==> request.Some? && db.attempts[id].request == request)
  }

  /** A request is stored exactly when all is quiet, its source has no facts and was never given up. */
  lemma StoresExactly(db: Database, c: Capture)
    requires RowsSound(db) && db.inventory == ObjectsReady
    ensures Decide(db, c) == Store <==>
              && Quiet(db, Some(c)) && c.meta.source !in db.artifacts
              && (c.meta.source in db.attempts ==> db.attempts[c.meta.source].state == Prepared)
  {
    if c.meta.source in db.attempts { assert RowFormed(db, c.meta.source); }
    WhatIsUnfinished(db);
  }

  /** It is recognised exactly when all is quiet and its row is committed with exactly its facts, still active. */
  lemma RecognisesExactly(db: Database, c: Capture)
    requires RowsSound(db) && db.inventory == ObjectsReady
    ensures Decide(db, c) == Idempotent <==>
              && Quiet(db, None) && c.meta.source in db.attempts
              && db.attempts[c.meta.source].state == Committed && db.attempts[c.meta.source].request == Some(c)
              && Lookup(db.artifacts, c.meta.source) == Some(Artifact(c.meta, c.details, Active))
  {
    WhatIsUnfinished(db);
    forall id | id in db.attempts && db.attempts[id].request == Some(c) ensures id == c.meta.source {
      assert RowFormed(db, id);
    }
  }

  lemma WhatIsUnfinished(db: Database)
    ensures DeletionInProgress(db) <==>
              !forall id <- db.artifacts.Keys :: db.artifacts[id].deletion == Active || db.artifacts[id].deletion == Deleted
    ensures forall s :: HasState(db, s) <==> !forall id <- db.attempts.Keys :: db.attempts[id].state != s
  {
  }

  // ---------------------------------------------------------------- deletions

  /** A new plan may begin exactly when all is quiet and every target's facts are active. */
  lemma DeletionBeginsExactly(db: Database, r: Id, targets: set<Id>)
    requires RowsSound(db) && TablesSound(db) && db.inventory == ObjectsReady
    ensures Commit(db, BeginDeletion(r, targets)).Some? <==>
              if r in db.plans then db.plans[r] == targets
              else Quiet(db, None) && forall id <- targets :: id in db.artifacts && db.artifacts[id].deletion == Active
  {
    WhatIsUnfinished(db);
    forall id | id in db.artifacts && db.artifacts[id].deletion == Active ensures Deletable(db, id) {
      assert id in db.attempts && RowFormed(db, id) && RowStored(db, id);
    }
  }

  /**
   A source under deletion is pending until its whole plan is out of the vault; only then do its facts
   become deleted, or failed.
   */
  predicate StateFollows(db: Database, id: Id)
    requires id in db.deletions
  {
    && id in db.artifacts
    && match db.artifacts[id].deletion
       case Active => false
       case Pending => true
       case _ => forall j <- db.deletions.Keys :: db.deletions[j].request == db.deletions[id].request ==> db.deletions[j].done
  }

  ghost predicate StatesFollow(db: Database) {
    forall id :: id in db.deletions ==> StateFollows(db, id)
  }

  /** A transaction about one source leaves all facts under deletion alone and takes no mark back. */
  lemma SubjectKeepsStates(db: Database, e: Database, tx: Transaction, subject: Id)
    requires RowsSound(db) && TablesSound(db) && StatesFollow(db)
    requires Commit(db, tx) == Some(e) && Subject(tx) == Some(subject)
    ensures StatesFollow(e)
  {
    hide Commit, StateFollows, RowFormed, RowStored;
    SubjectEffect(db, tx, subject);
    MarksKept(db, e, tx, subject);
    forall id | id in e.deletions ensures StateFollows(e, id) {
      assert SameAt(db, e, id) || id == subject;
      assert id in db.deletions && StateFollows(db, id);
      StateKept(db, e, id);
    }
  }

  lemma MarksKept(db: Database, e: Database, tx: Transaction, subject: Id)
    requires RowsSound(db) && TablesSound(db) && Commit(db, tx) == Some(e) && Subject(tx) == Some(subject)
    ensures e.deletions.Keys == db.deletions.Keys
    ensures forall j :: j in db.deletions ==>
              e.deletions[j].request == db.deletions[j].request && (db.deletions[j].done ==> e.deletions[j].done)
    ensures forall j :: j in db.deletions ==> Lookup(e.artifacts, j) == Lookup(db.artifacts, j)
  {
    hide Commit, RowFormed, RowStored;
    SubjectEffect(db, tx, subject);
    SubjectMarkKept(db, e, tx, subject);
    forall j ensures j in e.deletions <==> j in db.deletions { assert SameAt(db, e, j) || j == subject; }
    forall j | j in db.deletions && j != subject
      ensures e.deletions[j] == db.deletions[j] && Lookup(e.artifacts, j) == Lookup(db.artifacts, j)
    {
      assert SameAt(db, e, j);
    }
  }

  lemma SubjectMarkKept(db: Database, e: Database, tx: Transaction, subject: Id)
    requires Commit(db, tx) == Some(e) && Subject(tx) == Some(subject)
    requires RowsSound(db) && Inventoried(db)
    ensures subject in e.deletions <==> subject in db.deletions
    ensures subject in db.deletions ==>
              && e.deletions[subject].request == db.deletions[subject].request
              && (db.deletions[subject].done ==> e.deletions[subject].done)
              && Lookup(e.artifacts, subject) == Lookup(db.artifacts, subject)
  {
    hide Decide, HasState, RowStored, Selects, Uncommitted;
    if subject in db.deletions { assert RowFormed(db, subject); }
  }

  lemma StateKept(db: Database, e: Database, id: Id)
    requires id in db.deletions && StateFollows(db, id) && e.deletions.Keys == db.deletions.Keys
    requires forall j :: j in db.deletions ==>
      e.deletions[j].request == db.deletions[j].request && (db.deletions[j].done ==> e.deletions[j].done)
    requires Lookup(e.artifacts, id) == Lookup(db.artifacts, id)
    ensures StateFollows(e, id)
  {
  }

  lemma PlannedHasFacts(db: Database, e: Database, r: Id, targets: set<Id>, id: Id)
    requires Commit(db, BeginDeletion(r, targets)) == Some(e) && r !in db.plans && id in targets
    ensures id in db.artifacts
  {
    assert Deletable(db, id);
  }

  lemma BeginKeepsStates(db: Database, e: Database, r: Id, targets: set<Id>)
    requires RowsSound(db) && TablesSound(db) && StatesFollow(db) && Commit(db, BeginDeletion(r, targets)) == Some(e)
    ensures StatesFollow(e)
  {
    hide RowFormed, RowStored, Deletable, HasState;
    if e != db {
      forall id | id in e.deletions ensures StateFollows(e, id) {
        if id !in targets {
          assert StateFollows(db, id) && InItsPlan(db, id);
        } else {
          assert id in db.artifacts by { PlannedHasFacts(db, e, r, targets, id); }
        }
      }
    }
  }

  lemma ExecuteKeepsStates(db: Database, e: Database, r: Id, failed: bool)
    requires RowsSound(db) && TablesSound(db) && StatesFollow(db) && Commit(db, ExecuteDeletion(r, failed)) == Some(e)
    ensures StatesFollow(e)
  {
    forall id | id in e.deletions ensures StateFollows(e, id) { assert StateFollows(db, id) && InItsPlan(db, id); }
  }

  lemma CommitKeepsStates(db: Database, e: Database, tx: Transaction)
    requires RowsSound(db) && TablesSound(db) && StatesFollow(db) && Commit(db, tx) == Some(e)
    ensures StatesFollow(e)
  {
    hide RowsSound, TablesSound;
    if Subject(tx).Some? { SubjectKeepsStates(db, e, tx, Subject(tx).value); }
    else if tx.BeginDeletion? { BeginKeepsStates(db, e, tx.request, tx.targets); }
    else if tx.ExecuteDeletion? { ExecuteKeepsStates(db, e, tx.request, tx.failed); }
    else { forall id | id in e.deletions ensures StateFollows(e, id) { assert StateFollows(db, id); } }
  }

  /** Over every history the facts follow the marks. */
  lemma {:induction false} HistoryKeepsStates(v: Vault, es: seq<Entry>, k: nat)
    requires Inv(v) && StatesFollow(v.db) && History(v, es) && k <= |es|
    ensures StatesFollow(At(v, es, k).db)
  {
    hide StatesFollow;
    if k > 0 {
      HistoryKeepsStates(v, es, k - 1);
      HistoryKeepsInv(v, es, k - 1);
      assert HappenedAt(v, es, k - 1);
      var e := es[k - 1].event;
      if e.OnDatabase? { CommitKeepsStates(At(v, es, k - 1).db, At(v, es, k).db, e.tx); }
    }
  }

  /**
   At every moment of every history from a library before its migration: a source is planned for deletion
   and pending until all objects of its plan are durably gone, and a source that is deleted, or failed, has
   neither name left, now or after a crash.
   */
  lemma DeletedMeansGone(v: Vault, es: seq<Entry>, k: nat, id: Id)
    requires Fresh(v) && History(v, es) && k <= |es| && id in At(v, es, k).db.deletions
    ensures var w := At(v, es, k);
      && id in w.db.artifacts && id in w.db.attempts && w.db.attempts[id].attempt.Some?
      && (!w.db.deletions[id].done ==> w.db.artifacts[id].deletion == Pending)
      && (w.db.artifacts[id].deletion != Pending ==>
           forall j :: j in w.db.deletions && w.db.deletions[j].request == w.db.deletions[id].request ==>
             j in w.db.attempts && RemovedFor(w, j))
  {
    hide RowStored, NamesSound;
    FreshIsSound(v);
    HistoryKeepsInv(v, es, k);
    HistoryKeepsStates(v, es, k);
    var w := At(v, es, k);
    forall j | j in w.db.deletions ensures j in w.db.attempts && w.db.attempts[j].attempt.Some? {
      assert RowFormed(w.db, j);
    }
    assert StateFollows(w.db, id);
    forall j | j in w.db.deletions && w.db.deletions[j].done ensures RemovedFor(w, j) { assert RowOnDisk(w, j); }
  }

  /** While one object of a plan is still to go, every capture and every other plan is refused. */
  lemma UnfinishedPlanBlocks(db: Database, id: Id, c: Capture, r: Id, targets: set<Id>)
    requires StatesFollow(db) && id in db.deletions && !db.deletions[id].done
    ensures Decide(db, c) == Refuse
    ensures r !in db.plans ==> Commit(db, BeginDeletion(r, targets)).None?
  {
    assert StateFollows(db, id);
    assert db.artifacts[id].deletion == Pending;
  }
}
