/**
 The object directory: publication, inspection, recovery and retirement of exact attempts.

 Every system call may be preceded by the operating system writing entries back, and while `faulty`
 holds it may fail. A failed call ends the method, so the states a caller can be left with are exactly
 the states after each step. The ghost log records every operation in order.
 */
module ObjectDirectories {
  import opened Wrappers
  import opened Objects
  import opened Disks

  datatype AttemptState = Absent | Staging | PublishedCandidate | StagingAndPublished

  /** Reading one file under the expected metadata and attempt. */
  function Authentication(content: Content, meta: Metadata, a: Attempt): (r: Result<(), Error>)
    ensures r.Success? <==>
              && content.Sealed? && content.meta == meta && content.prefix == a.prefix
              && meta.digest == Sha256(content.body) && meta.length == |content.body|
    ensures r.Success? <==> Authenticates(content, meta, a)
    ensures r.Failure? && r.error == AttemptMismatch <==>
              && content.Sealed? && content.meta == meta && content.prefix != a.prefix
              && meta.digest == Sha256(content.body) && meta.length == |content.body|
  {
    if !Opens(content, meta) then Failure(NotAuthentic)
    else if AttemptOf(a.locator, content.prefix) != a then Failure(AttemptMismatch)
    else Success(())
  }

  /** What the two exact names of an attempt show: one of four states, or why they cannot be trusted. */
  function Inspection(d: Disk, meta: Metadata, a: Attempt): Result<AttemptState, Error>
    requires Healthy(d)
  {
    var s, o := a in d.staging, a.locator in d.objects;
    if a.locator != LocatorFor(meta) then Failure(InvalidLocator)
    else if s && !Authenticates(d.data[d.staging[a]], meta, a) then
      Failure(Authentication(d.data[d.staging[a]], meta, a).error)
    else if o && !Authenticates(d.data[d.objects[a.locator]], meta, a) then
      Failure(Authentication(d.data[d.objects[a.locator]], meta, a).error)
    else if s && o && d.staging[a] != d.objects[a.locator] then Failure(FilesystemChanged)
    else Success(
      if s && o then StagingAndPublished else if s then Staging else if o then PublishedCandidate else Absent)
  }

  /** Every entry leads to a file. */
  predicate Healthy(d: Disk) {
    && d.objects.Values <= d.data.Keys && d.staging.Values <= d.data.Keys
    && d.durableObjects.Values <= d.data.Keys && d.durableStaging.Values <= d.data.Keys
  }

  lemma StaysHealthy(d: Disk, op: DiskOp)
    requires Healthy(d) && Licensed(d, op)
    ensures Healthy(Apply(d, op))
  {
    var e := Apply(d, op);
    forall l | l in e.durableObjects ensures e.durableObjects[l] in e.data {
      assert Lookup(e.durableObjects, l) in {Lookup(d.durableObjects, l), Lookup(d.objects, l)};
    }
    forall a | a in e.durableStaging ensures e.durableStaging[a] in e.data {
      assert Lookup(e.durableStaging, a) in {Lookup(d.durableStaging, a), Lookup(d.staging, a)};
    }
  }

  /** Everything a process can observe is the same. */
  predicate SameView(d: Disk, e: Disk) {
    d.objects == e.objects && d.staging == e.staging && d.data == e.data
  }

  /** Names other than the attempt's two are the same and no existing file changed. */
  predicate SameElsewhere(d: Disk, e: Disk, a: Attempt) {
    && e.objects - {a.locator} == d.objects - {a.locator}
    && e.staging - {a} == d.staging - {a}
    && d.data.Keys <= e.data.Keys
    && forall n <- d.data.Keys :: e.data[n] == d.data[n]
  }

  /** Each durable entry is the earlier durable or the earlier visible one. */
  ghost predicate Mixed<K(!new), V(!new)>(now: map<K, V>, durable: map<K, V>, visible: map<K, V>) {
    forall k :: Lookup(now, k) == Lookup(durable, k) || Lookup(now, k) == Lookup(visible, k)
  }

  /** What one system call does, if it succeeds, besides entries being written back before it. */
  ghost predicate CallEffect(d: Disk, op: DiskOp, ok: bool, e: Disk)
    requires Possible(d, op)
  {
    && SameView(if ok then Apply(d, op) else d, e)
    && e.synced == (if ok then Apply(d, op).synced else d.synced)
    && Mixed(e.durableObjects, d.durableObjects, d.objects)
    && Mixed(e.durableStaging, d.durableStaging, d.staging)
    && (ok && op.SyncObjects? ==> e.durableObjects == d.objects)
    && (ok && op.SyncStaging? ==> e.durableStaging == d.staging)
  }

  /** The operations since `from` all belong to the publication of one attempt. */
  ghost predicate Publishes(from: seq<Record>, to: seq<Record>, meta: Metadata, a: Attempt) {
    from <= to && forall i :: |from| <= i < |to| ==> IsPublication(to[i].op, meta, a)
  }

  ghost predicate Cleans(from: seq<Record>, to: seq<Record>, meta: Metadata, a: Attempt) {
    from <= to && forall i :: |from| <= i < |to| ==> IsCleanup(to[i].op, meta, a)
  }

  ghost predicate Retires(from: seq<Record>, to: seq<Record>, meta: Metadata, a: Attempt) {
    from <= to && forall i :: |from| <= i < |to| ==> IsRetirement(to[i].op, meta, a)
  }

  class ObjectDirectory {
    /** What the operating system holds for the two directories. */
    var disk: Disk
    var nextInode: Inode
    var faulty: bool
    ghost var start: Disk
    ghost var log: seq<Record>

    ghost predicate Valid()
      reads this
    {
      && Lawful(start, log) && DiskAt(start, log, |log|) == disk
      && Healthy(disk)
      && forall n :: n in disk.data ==> n < nextInode
    }

    /** The operating system writes some entries back. */
    method Drift() returns (ghost drift: DiskOp)
      requires Valid()
      modifies this
      ensures Valid() && start == old(start) && faulty == old(faulty) && nextInode == old(nextInode)
      ensures drift.Writeback? && log == old(log) + [Record(drift, disk)] && disk == Apply(old(disk), drift)
    {
      var objects: set<Locator> := *;
      var staging: set<Attempt> := *;
      drift := Writeback(objects, staging);
      Recorded(start, log, drift);
      StaysHealthy(disk, drift);
      disk := Apply(disk, Writeback(objects, staging));
      log := log + [Record(drift, disk)];
    }

    /** One system call, on names and files the caller has checked. */
    method Call(op: DiskOp) returns (ok: bool)
      requires Valid() && Licensed(disk, op) && !op.Writeback?
      requires op.Create? ==> op.inode == nextInode
      modifies this
      ensures Valid() && start == old(start) && faulty == old(faulty)
      ensures |old(log)| < |log| && log == old(log) + [log[|old(log)|]] + if ok then [Record(op, disk)] else []
      ensures log[|old(log)|].op.Writeback?
      ensures CallEffect(old(disk), op, ok, disk)
      ensures nextInode == old(nextInode) + if ok && op.Create? then 1 else 0
      ensures !faulty ==> ok
    {
      var drift := Drift();
      var fails: bool := *;
      ok := !(faulty && fails);
      if ok {
        Recorded(start, log, op);
        StaysHealthy(disk, op);
        disk := Apply(disk, op);
        log := log + [Record(op, disk)];
        if op.Create? { nextInode := nextInode + 1; }
      }
    }

    /** A call of a publication or recovery that began at `was`, with the log `from`. */
    method PublicationCall(op: DiskOp, meta: Metadata, a: Attempt, ghost was: Disk, ghost from: seq<Record>)
      returns (ok: bool)
      requires Valid() && Licensed(disk, op) && !op.Writeback? && IsPublication(op, meta, a)
      requires op.Create? ==> op.inode == nextInode
      requires Publishes(from, log, meta, a) && SameElsewhere(was, disk, a) && SameElsewhere(was, Apply(disk, op), a)
      modifies this
      ensures Valid() && start == old(start) && faulty == old(faulty)
      ensures nextInode == old(nextInode) + if ok && op.Create? then 1 else 0
      ensures Publishes(from, log, meta, a) && SameElsewhere(was, disk, a)
      ensures IsCleanup(op, meta, a) && old(Cleans(from, log, meta, a)) ==> Cleans(from, log, meta, a)
      ensures CallEffect(old(disk), op, ok, disk)
      ensures !faulty ==> ok
    {
      ok := Call(op);
    }

    /** Publish a sealed object durably under a name that must not exist yet. */
    method Publish(w: ObjectWrite) returns (r: Result<Attempt, Error>)
      requires Valid()
      modifies this
      ensures Valid() && start == old(start) && faulty == old(faulty)
      ensures Publishes(old(log), log, w.meta, w.attempt)
      ensures SameElsewhere(old(disk), disk, w.attempt)
      ensures w.attempt.locator in old(disk.objects) ==> Lookup(disk.objects, w.attempt.locator) == Some(old(disk.objects)[w.attempt.locator])
      ensures r.Success? ==>
        && r.value == w.attempt && w.attempt.locator !in old(disk.objects) && w.attempt !in old(disk.staging)
        && PublishedOnly(disk, w.meta, w.attempt)
        && disk.objects[w.attempt.locator] !in old(disk.data) && disk.data[disk.objects[w.attempt.locator]] == w.envelope
      ensures w.attempt.locator in old(disk.objects) || w.attempt in old(disk.staging) || w.attempt.locator != LocatorFor(w.meta)
              || !Opens(w.envelope, w.meta)
              ==> r.Failure? && SameView(old(disk), disk)
      ensures !faulty && Ready(w) && w.attempt.locator !in old(disk.objects) && w.attempt !in old(disk.staging) ==> r.Success?
    {
      var a, meta := w.attempt, w.meta;
      if a.locator != LocatorFor(meta) { return Failure(InvalidLocator); }
      // An envelope that does not open leaves no trace on the disk.
      if !Opens(w.envelope, meta) { return Failure(NotAuthentic); }
      if a.locator in disk.objects { return Failure(ObjectExists); }
      if a in disk.staging { return Failure(ObjectExists); }
      var inode := nextInode;
      var staged := Stage(w, inode);
      if staged.Failure? { return Failure(staged.error); }
      var exposed := Expose(a, meta, inode);
      if exposed.Failure? { return Failure(exposed.error); }
      return Success(a);
    }

    /** Create, write, sync and read back the staging file. */
    method Stage(w: ObjectWrite, inode: Inode) returns (r: Result<(), Error>)
      requires Valid() && inode == nextInode
      requires Licensed(disk, Create(w.attempt, inode, w.meta))
      modifies this
      ensures Valid() && start == old(start) && faulty == old(faulty)
      ensures Publishes(old(log), log, w.meta, w.attempt)
      ensures SameElsewhere(old(disk), disk, w.attempt) && disk.objects == old(disk.objects)
      ensures r.Success? ==>
        && Lookup(disk.staging, w.attempt) == Some(inode) && Lookup(disk.data, inode) == Some(w.envelope)
        && Solid(disk, inode, w.meta, w.attempt)
      ensures !faulty && Ready(w) ==> r.Success?
    {
      var a, meta := w.attempt, w.meta;
      ghost var was, from := disk, log;
      var ok := PublicationCall(Create(a, inode, meta), meta, a, was, from);
      if !ok { return Failure(Io); }
      ok := WriteBytes(a, w.envelope, meta, was, from);
      if !ok { return Failure(Io); }
      ok := PublicationCall(SyncFile(inode), meta, a, was, from);
      if !ok { return Failure(Io); }
      ok := PublicationCall(SyncStaging, meta, a, was, from);
      if !ok { return Failure(Io); }
      var bytes := disk.data[disk.staging[a]];
      if bytes != w.envelope || disk.staging[a] != inode { return Failure(FilesystemChanged); }
      var _ :- Authentication(bytes, meta, a);
      return Success(());
    }

    /** Write a new file's bytes; a failing call may leave any part of them, or anything else, behind. */
    method WriteBytes(a: Attempt, content: Content, meta: Metadata, ghost was: Disk, ghost from: seq<Record>)
      returns (ok: bool)
      requires Valid() && Licensed(disk, Write(a, content, meta)) && disk.staging[a] !in was.data
      requires Publishes(from, log, meta, a) && SameElsewhere(was, disk, a)
      modifies this
      ensures Valid() && start == old(start) && faulty == old(faulty) && nextInode == old(nextInode)
      ensures Publishes(from, log, meta, a) && SameElsewhere(was, disk, a)
      ensures disk.objects == old(disk.objects) && disk.staging == old(disk.staging) && disk.synced == old(disk.synced)
      ensures disk.data.Keys == old(disk.data).Keys
      ensures ok ==> disk.data[disk.staging[a]] == content
      ensures !faulty ==> ok
    {
      var fails: bool := *;
      var torn: Content := *;
      var complete := !(faulty && fails);
      var written := PublicationCall(Write(a, if complete then content else torn, meta), meta, a, was, from);
      ok := complete && written;
    }

    /** Give a staged file its published name, make it durable and drop the staging name. */
    method Expose(a: Attempt, meta: Metadata, inode: Inode) returns (r: Result<(), Error>)
      requires Valid() && Licensed(disk, Link(a, meta)) && disk.staging[a] == inode
      modifies this
      ensures Valid() && start == old(start) && faulty == old(faulty)
      ensures Publishes(old(log), log, meta, a)
      ensures SameElsewhere(old(disk), disk, a) && disk.data == old(disk.data)
      ensures r.Success? ==> PublishedOnly(disk, meta, a) && disk.objects[a.locator] == inode
      ensures !faulty ==> r.Success?
    {
      ghost var was, from := disk, log;
      var bytes := disk.data[inode];
      var ok := PublicationCall(Link(a, meta), meta, a, was, from);
      if !ok { return Failure(Io); }
      ok := PublicationCall(SyncObjects, meta, a, was, from);
      if !ok { return Failure(Io); }
      var published := disk.data[disk.objects[a.locator]];
      if published != bytes || disk.objects[a.locator] != inode { return Failure(FilesystemChanged); }
      if !Authenticates(published, meta, a) { return Failure(NotAuthentic); }
      // Both names lead to one authenticated file and the object name is durable: the staging name may go.
      ok := PublicationCall(Unlink(a, meta), meta, a, was, from);
      if !ok { return Failure(Io); }
      ok := PublicationCall(SyncStaging, meta, a, was, from);
      if !ok { return Failure(Io); }
      return Success(());
    }

    /** Look at the two exact names of an attempt, first staging, then object; nothing is changed. */
    method InspectAttempt(a: Attempt, meta: Metadata) returns (r: Result<AttemptState, Error>)
      requires Valid()
      ensures r == Inspection(disk, meta, a)
    {
      if a.locator != LocatorFor(meta) { return Failure(InvalidLocator); }
      var found := [Lookup(disk.staging, a), Lookup(disk.objects, a.locator)];
      var present := [false, false];
      var contents: seq<Content> := [];
      var index := 0;
      while index < 2
        invariant 0 <= index <= 2 && |present| == 2
        invariant forall i :: 0 <= i < 2 ==> present[i] == (i < index && found[i].Some?)
        invariant forall i :: 0 <= i < index && found[i].Some? ==> Authenticates(disk.data[found[i].value], meta, a)
        invariant contents == (if index > 0 && found[0].Some? then [disk.data[found[0].value]] else [])
                              + (if index > 1 && found[1].Some? then [disk.data[found[1].value]] else [])
      {
        if found[index].Some? {
          assert found[index].value in disk.data;
          var bytes := disk.data[found[index].value];
          var _ :- Authentication(bytes, meta, a);
          contents := contents + [bytes];
          present := present[index := true];
        }
        index := index + 1;
      }
      if |contents| == 2 && (contents[0] != contents[1] || found[0] != found[1]) { return Failure(FilesystemChanged); }
      return Success(
        if present[0] && present[1] then StagingAndPublished
        else if present[0] then Staging
        else if present[1] then PublishedCandidate
        else Absent);
    }

    /** The body of a published object, by the locator alone. */
    method Read(l: Locator, meta: Metadata) returns (r: Result<seq<Byte>, Error>)
      requires Valid()
      ensures r.Success? <==> l == LocatorFor(meta) && l in disk.objects && Opens(disk.data[disk.objects[l]], meta)
      ensures r.Success? ==> r.value == disk.data[disk.objects[l]].body && Matches(meta, r.value)
    {
      if l != LocatorFor(meta) { return Failure(InvalidLocator); }
      if l !in disk.objects { return Failure(ObjectMissing); }
      var bytes := disk.data[disk.objects[l]];
      if !Opens(bytes, meta) { return Failure(NotAuthentic); }
      return Success(bytes.body);
    }

    /** The file recovery works on: the published one if there is one. */
    ghost function Subject(a: Attempt): Option<Inode>
      reads this
    {
      if a.locator in disk.objects then Some(disk.objects[a.locator]) else Lookup(disk.staging, a)
    }

    /** Re-establish durability of whatever is left of an attempt; never reseal, never replace. */
    method RecoverAttempt(a: Attempt, meta: Metadata) returns (r: Result<bool, Error>)
      requires Valid()
      modifies this
      ensures Valid() && start == old(start) && faulty == old(faulty)
      ensures Publishes(old(log), log, meta, a)
      ensures a.locator in old(disk.objects) ==> Cleans(old(log), log, meta, a) && disk.objects == old(disk.objects)
      ensures SameElsewhere(old(disk), disk, a) && disk.data == old(disk.data)
      ensures old(Inspection(disk, meta, a)) == Success(PublishedCandidate) && r.Failure? ==> SameView(old(disk), disk)
      ensures old(Inspection(disk, meta, a)).Failure? || old(Inspection(disk, meta, a)) == Success(Absent)
              ==> r.Failure? && disk == old(disk)
      ensures r.Success? ==>
        && PublishedOnly(disk, meta, a) && r.value == (a in old(disk.staging))
        && Some(disk.objects[a.locator]) == old(Subject(a))
      ensures !faulty && old(Inspection(disk, meta, a)).Success? && old(Inspection(disk, meta, a)) != Success(Absent)
              ==> r.Success?
    {
      r := FinishAttempt(a, meta, true);
    }

    /** Remove the duplicate staging link of a committed object; a missing object is never republished. */
    method CleanupCommittedStaging(a: Attempt, meta: Metadata) returns (r: Result<bool, Error>)
      requires Valid()
      modifies this
      ensures Valid() && start == old(start) && faulty == old(faulty)
      ensures Cleans(old(log), log, meta, a)
      ensures SameElsewhere(old(disk), disk, a) && disk.data == old(disk.data) && disk.objects == old(disk.objects)
      ensures a.locator !in old(disk.objects) ==> r.Failure? && disk == old(disk)
      ensures r.Success? ==> PublishedOnly(disk, meta, a) && r.value == (a in old(disk.staging))
      ensures !faulty && old(Inspection(disk, meta, a)).Success? && a.locator in old(disk.objects) ==> r.Success?
    {
      r := FinishAttempt(a, meta, false);
    }

    method FinishAttempt(a: Attempt, meta: Metadata, allowPublication: bool) returns (r: Result<bool, Error>)
      requires Valid()
      modifies this
      ensures Valid() && start == old(start) && faulty == old(faulty)
      ensures Publishes(old(log), log, meta, a)
      ensures !allowPublication || a.locator in old(disk.objects) ==>
        Cleans(old(log), log, meta, a) && disk.objects == old(disk.objects)
      ensures SameElsewhere(old(disk), disk, a) && disk.data == old(disk.data)
      ensures old(Inspection(disk, meta, a)) == Success(PublishedCandidate) && r.Failure? ==> SameView(old(disk), disk)
      ensures old(Inspection(disk, meta, a)).Failure? || old(Inspection(disk, meta, a)) == Success(Absent)
              ==> r.Failure? && disk == old(disk)
      ensures !allowPublication && a.locator !in old(disk.objects) ==> r.Failure? && disk == old(disk)
      ensures r.Success? ==>
        && PublishedOnly(disk, meta, a) && r.value == (a in old(disk.staging))
        && Some(disk.objects[a.locator]) == old(Subject(a))
      ensures !faulty && old(Inspection(disk, meta, a)).Success? && old(Inspection(disk, meta, a)) != Success(Absent)
              && (allowPublication || a.locator in old(disk.objects))
              ==> r.Success?
    {
      var inspected := InspectAttempt(a, meta);
      if inspected.Failure? { return Failure(inspected.error); }
      var state := inspected.value;
      if state == Absent || (!allowPublication && state == Staging) { return Failure(ObjectMissing); }
      ghost var was, from := disk, log;
      var hasStaging := state in {Staging, StagingAndPublished};
      var hasTarget := state != Staging;
      var inode := if hasTarget then disk.objects[a.locator] else disk.staging[a];
      var bytes := disk.data[inode];
      var ok := PublicationCall(SyncFile(inode), meta, a, was, from);
      if !ok { return Failure(Io); }
      if !hasTarget {
        ok := PublicationCall(Link(a, meta), meta, a, was, from);
        if !ok { return Failure(Io); }
      }
      r := Settle(a, meta, inode, bytes, hasStaging, was, from);
    }

    /** The second half of recovery: the object name exists and its file is synced. */
    method Settle(a: Attempt, meta: Metadata, inode: Inode, bytes: Content, hasStaging: bool,
                  ghost was: Disk, ghost from: seq<Record>)
      returns (r: Result<bool, Error>)
      requires Valid() && a.locator == LocatorFor(meta)
      requires Lookup(disk.objects, a.locator) == Some(inode) && Solid(disk, inode, meta, a) && disk.data[inode] == bytes
      requires hasStaging == (a in disk.staging) && (hasStaging ==> disk.staging[a] == inode)
      requires Publishes(from, log, meta, a) && SameElsewhere(was, disk, a)
      modifies this
      ensures Valid() && start == old(start) && faulty == old(faulty)
      ensures Publishes(from, log, meta, a) && SameElsewhere(was, disk, a)
      ensures old(Cleans(from, log, meta, a)) ==> Cleans(from, log, meta, a)
      ensures disk.data == old(disk.data) && disk.objects == old(disk.objects)
      ensures !hasStaging ==> disk.staging == old(disk.staging)
      ensures r.Success? ==> PublishedOnly(disk, meta, a) && r.value == hasStaging
      ensures !faulty ==> r.Success?
    {
      var ok := PublicationCall(SyncObjects, meta, a, was, from);
      if !ok { return Failure(Io); }
      if disk.data[disk.objects[a.locator]] != bytes || disk.objects[a.locator] != inode { return Failure(FilesystemChanged); }
      if hasStaging {
        if disk.data[disk.staging[a]] != bytes || disk.staging[a] != inode { return Failure(FilesystemChanged); }
        ok := PublicationCall(Unlink(a, meta), meta, a, was, from);
        if !ok { return Failure(Io); }
      }
      ok := PublicationCall(SyncStaging, meta, a, was, from);
      if !ok { return Failure(Io); }
      return Success(hasStaging);
    }

    /** A call of a retirement that began at `was`, with the log `from`. */
    method RetirementCall(op: DiskOp, meta: Metadata, a: Attempt, ghost was: Disk, ghost from: seq<Record>)
      returns (ok: bool)
      requires Valid() && Licensed(disk, op) && !op.Writeback? && IsRetirement(op, meta, a)
      requires Retires(from, log, meta, a) && SameElsewhere(was, disk, a) && disk.data == was.data
      modifies this
      ensures Valid() && start == old(start) && faulty == old(faulty)
      ensures Retires(from, log, meta, a) && SameElsewhere(was, disk, a) && disk.data == was.data
      ensures CallEffect(old(disk), op, ok, disk)
      ensures !faulty ==> ok
    {
      ok := Call(op);
    }

    /** Remove both names of an attempt whose retirement was decided, staging name first, and sync both directories. */
    method RetireAttempt(a: Attempt, meta: Metadata) returns (r: Result<(), Error>)
      requires Valid()
      modifies this
      ensures Valid() && start == old(start) && faulty == old(faulty)
      ensures Retires(old(log), log, meta, a)
      ensures SameElsewhere(old(disk), disk, a) && disk.data == old(disk.data)
      ensures a in disk.staging ==> Lookup(old(disk.staging), a) == Some(disk.staging[a])
      ensures a.locator in disk.objects ==> Lookup(old(disk.objects), a.locator) == Some(disk.objects[a.locator])
      ensures old(Inspection(disk, meta, a)).Failure? ==> r.Failure? && disk == old(disk)
      ensures r.Success? ==> DurablyAbsent(disk, a)
      ensures !faulty && old(Inspection(disk, meta, a)).Success? ==> r.Success?
    {
      var inspected := InspectAttempt(a, meta);
      if inspected.Failure? { return Failure(inspected.error); }
      ghost var was, from := disk, log;
      var observed := [a in disk.staging, a.locator in disk.objects];
      var removed := [false, false];
      var index := 0;
      while index < 2
        invariant 0 <= index <= 2 && |removed| == 2
        invariant Valid() && start == old(start) && faulty == old(faulty)
        invariant Retires(from, log, meta, a) && SameElsewhere(was, disk, a) && disk.data == was.data
        invariant removed[0] == (index > 0 && observed[0]) && removed[1] == (index > 1 && observed[1])
        invariant Lookup(disk.staging, a) == if removed[0] then None else Lookup(was.staging, a)
        invariant Lookup(disk.objects, a.locator) == if removed[1] then None else Lookup(was.objects, a.locator)
      {
        // A name that was not found, or is already removed, must not show up meanwhile.
        if (a in disk.staging) != (observed[0] && !removed[0]) || (a.locator in disk.objects) != (observed[1] && !removed[1]) {
          return Failure(FilesystemChanged);
        }
        if observed[index] {
          var ok := RetirementCall(if index == 0 then RemoveStaging(a, meta) else RemoveObject(a, meta), meta, a, was, from);
          if !ok { return Failure(Io); }
          removed := removed[index := true];
        }
        index := index + 1;
      }
      var ok := RetirementCall(SyncStaging, meta, a, was, from);
      if !ok { return Failure(Io); }
      ok := RetirementCall(SyncObjects, meta, a, was, from);
      if !ok { return Failure(Io); }
      if a in disk.staging || a.locator in disk.objects { return Failure(FilesystemChanged); }
      return Success(());
    }

    /** Every entry of both directories belongs to exactly one of the listed attempts. */
    method VerifyInventory(attempts: seq<Attempt>) returns (r: Result<(), Error>)
      requires Valid()
      ensures r.Success? <==>
        && (forall i, j :: 0 <= i < j < |attempts| ==> attempts[i].locator != attempts[j].locator)
        && (forall l :: l in disk.objects ==> exists a :: a in attempts && a.locator == l)
        && (forall a :: a in disk.staging ==> a in attempts)
    {
      var allowedObjects: set<Locator>, allowedStaging: set<Attempt> := {}, {};
      for i := 0 to |attempts|
        invariant forall l :: l in allowedObjects <==> exists k :: 0 <= k < i && attempts[k].locator == l
        invariant forall a :: a in allowedStaging <==> exists k :: 0 <= k < i && attempts[k] == a
        invariant forall j, k :: 0 <= j < k < i ==> attempts[j].locator != attempts[k].locator
      {
        if attempts[i].locator in allowedObjects {
          var k :| 0 <= k < i && attempts[k].locator == attempts[i].locator;
          return Failure(UnknownInventory);
        }
        allowedObjects, allowedStaging := allowedObjects + {attempts[i].locator}, allowedStaging + {attempts[i]};
      }
      if disk.objects.Keys <= allowedObjects && disk.staging.Keys <= allowedStaging { return Success(()); }
      return Failure(UnknownInventory);
    }

    /** The machine stops: only what is durable is left, and the next process starts here. */
    method Crash(garbage: map<Inode, Content>)
      requires Valid()
      modifies this
      ensures Valid() && disk == Crashed(old(disk), garbage) && start == disk && log == [] && faulty == old(faulty)
    {
      disk := Crashed(disk, garbage);
      start, log := disk, [];
    }
  }
}
