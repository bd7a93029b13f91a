/**
 The two directories of the object vault, as the operating system keeps them.

 Every directory has a volatile view, which system calls see, and a durable one, which survives a
 crash. File data is durable once the file was synced. The operating system may write any entry back
 at any moment, so between two syncs the durable view can be any mixture of old and new entries.
 */
module Disks {
  import opened Wrappers
  import opened Objects

  type Inode = nat

  datatype Disk = Disk(
    objects: map<Locator, Inode>,
    staging: map<Attempt, Inode>,
    data: map<Inode, Content>,
    durableObjects: map<Locator, Inode>,
    durableStaging: map<Attempt, Inode>,
    synced: set<Inode>)

  const EMPTY: Disk := Disk(map[], map[], map[], map[], map[], {})

  /** The operations publication, recovery and retirement are made of. */
  datatype DiskOp =
    | Writeback(objects: set<Locator>, staging: set<Attempt>)
    | Create(attempt: Attempt, inode: Inode, meta: Metadata)
    | Write(attempt: Attempt, content: Content, meta: Metadata)
    | SyncFile(inode: Inode)
    | SyncStaging
    | SyncObjects
    | Link(attempt: Attempt, meta: Metadata)
    | Unlink(attempt: Attempt, meta: Metadata)
    | RemoveStaging(attempt: Attempt, meta: Metadata)
    | RemoveObject(attempt: Attempt, meta: Metadata)

  /** The durable entries after the chosen names were written back. */
  function Flush<K(!new), V>(durable: map<K, V>, volatile: map<K, V>, chosen: set<K>): (r: map<K, V>)
    ensures forall k :: Lookup(r, k) == if k in chosen then Lookup(volatile, k) else Lookup(durable, k)
  {
    map k | k in durable.Keys + volatile.Keys && (if k in chosen then k in volatile else k in durable)
      :: if k in chosen then volatile[k] else durable[k]
  }

  /** The operation finds the entry it works on. */
  predicate Possible(d: Disk, op: DiskOp) {
    match op
    case Write(a, _, _) => a in d.staging
    case Link(a, _) => a in d.staging
    case _ => true
  }

  function Apply(d: Disk, op: DiskOp): Disk
    requires Possible(d, op)
  {
    match op
    case Writeback(os, ss) =>
      d.(durableObjects := Flush(d.durableObjects, d.objects, os),
         durableStaging := Flush(d.durableStaging, d.staging, ss))
    case Create(a, n, _) => d.(staging := d.staging[a := n], data := d.data[n := Raw([])], synced := d.synced - {n})
    case Write(a, c, _) => d.(data := d.data[d.staging[a] := c])
    case SyncFile(n) => d.(synced := d.synced + {n})
    case SyncStaging => d.(durableStaging := d.staging)
    case SyncObjects => d.(durableObjects := d.objects)
    case Link(a, _) => d.(objects := d.objects[a.locator := d.staging[a]])
    case Unlink(a, _) => d.(staging := d.staging - {a})
    case RemoveStaging(a, _) => d.(staging := d.staging - {a})
    case RemoveObject(a, _) => d.(objects := d.objects - {a.locator})
  }

  /** After a crash only durable entries are left and data that was never synced is arbitrary. */
  function Crashed(d: Disk, garbage: map<Inode, Content>): (r: Disk)
    ensures r.data.Keys == d.data.Keys && r.synced == d.synced
    ensures forall n :: n in d.data && n in d.synced ==> r.data[n] == d.data[n]
    ensures forall n :: n in d.data && n !in d.synced && n in garbage ==> r.data[n] == garbage[n]
    ensures r.objects == r.durableObjects == d.durableObjects
    ensures r.staging == r.durableStaging == d.durableStaging
  {
    d.(objects := d.durableObjects,
       staging := d.durableStaging,
       data := map n | n in d.data :: if n in d.synced || n !in garbage then d.data[n] else garbage[n])
  }

  /** A file whose synced data authenticates for the attempt. */
  predicate Solid(d: Disk, n: Inode, meta: Metadata, a: Attempt) {
    n in d.data && n in d.synced && Authenticates(d.data[n], meta, a)
  }

  /** The published name is there, durably, and its file is solid. */
  predicate Published(d: Disk, meta: Metadata, a: Attempt) {
    && a.locator in d.objects
    && Lookup(d.durableObjects, a.locator) == Some(d.objects[a.locator])
    && Solid(d, d.objects[a.locator], meta, a)
  }

  /** Published, and the staging name is durably gone. */
  predicate PublishedOnly(d: Disk, meta: Metadata, a: Attempt) {
    Published(d, meta, a) && a !in d.staging && a !in d.durableStaging
  }

  /** Neither name exists, now or after a crash. */
  predicate DurablyAbsent(d: Disk, a: Attempt) {
    && a !in d.staging && a !in d.durableStaging
    && a.locator !in d.objects && a.locator !in d.durableObjects
  }

  /**
   What must be established before each operation. Nothing replaces a name; a name is published
   only for a synced file that authenticates; the staging name of a published object goes only when
   the object name is durable; retirement removes authenticated files only, the staging name first.
   */
  predicate Licensed(d: Disk, op: DiskOp) {
    match op
    case Writeback(_, _) => true
    case Create(a, n, m) =>
      a.locator == LocatorFor(m) && a !in d.staging && a.locator !in d.objects && n !in d.data
    case Write(a, c, m) =>
      a.locator == LocatorFor(m) && a in d.staging && d.staging[a] in d.data && d.staging[a] !in d.synced && a.locator !in d.objects
    case SyncFile(n) => n in d.data
    case SyncStaging => true
    case SyncObjects => true
    case Link(a, m) =>
      a.locator == LocatorFor(m) && a in d.staging && Solid(d, d.staging[a], m, a) && a.locator !in d.objects
    case Unlink(a, m) =>
      a.locator == LocatorFor(m) && a in d.staging && Published(d, m, a) && d.objects[a.locator] == d.staging[a]
    case RemoveStaging(a, m) =>
      && a.locator == LocatorFor(m) && a in d.staging
      && d.staging[a] in d.data && Authenticates(d.data[d.staging[a]], m, a)
    case RemoveObject(a, m) =>
      && a.locator == LocatorFor(m) && a.locator in d.objects && a !in d.staging
      && d.objects[a.locator] in d.data && Authenticates(d.data[d.objects[a.locator]], m, a)
  }

  /** Operations that leave both directories' volatile names and all data alone. */
  predicate IsSync(op: DiskOp) {
    op.Writeback? || op.SyncFile? || op.SyncStaging? || op.SyncObjects?
  }

  /** Publication or recovery of one attempt; `link` tells whether it may create the published name. */
  predicate IsPublication(op: DiskOp, meta: Metadata, a: Attempt) {
    IsSync(op) || (op.attempt == a && op.meta == meta && (op.Create? || op.Write? || op.Link? || op.Unlink?))
  }

  /** Removal of the duplicate staging link of one published object. */
  predicate IsCleanup(op: DiskOp, meta: Metadata, a: Attempt) {
    IsSync(op) || op == Unlink(a, meta)
  }

  /** Retirement of one attempt. */
  predicate IsRetirement(op: DiskOp, meta: Metadata, a: Attempt) {
    IsSync(op) || op == RemoveStaging(a, meta) || op == RemoveObject(a, meta)
  }

  /** One operation and the disk after it. */
  datatype Record = Record(op: DiskOp, after: Disk)

  /** The disk before the `i`-th recorded operation. */
  function DiskAt(d: Disk, log: seq<Record>, i: nat): Disk
    requires i <= |log|
  {
    if i == 0 then d else log[i - 1].after
  }

  predicate LawfulAt(d: Disk, log: seq<Record>, i: nat)
    requires i < |log|
  {
    Licensed(DiskAt(d, log, i), log[i].op) && log[i].after == Apply(DiskAt(d, log, i), log[i].op)
  }

  /** Every recorded operation was licensed where it happened. */
  ghost predicate Lawful(d: Disk, log: seq<Record>) {
    forall i {:trigger LawfulAt(d, log, i)} :: 0 <= i < |log| ==> LawfulAt(d, log, i)
  }

  lemma Recorded(d: Disk, log: seq<Record>, op: DiskOp)
    requires Lawful(d, log) && Licensed(DiskAt(d, log, |log|), op)
    ensures var more := log + [Record(op, Apply(DiskAt(d, log, |log|), op))];
      Lawful(d, more) && DiskAt(d, more, |more|) == Apply(DiskAt(d, log, |log|), op)
  {
    var more := log + [Record(op, Apply(DiskAt(d, log, |log|), op))];
    forall i | 0 <= i < |more|
      ensures LawfulAt(d, more, i)
    {
      if i < |log| { assert LawfulAt(d, log, i); }
    }
  }
}
