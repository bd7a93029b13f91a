/**
 The ten-component purge plan of a delete request, and evidence that answers it component by
 component.
 */
module DeletionEvidences {
  import opened CoreModel
  import J = JsonValues
  import opened Timestamps
  import opened Wrappers

  datatype ObjectType =
    | SourceArtifactObject | SourceFragmentObject | MemoryProposalObject | MemoryDecisionObject | MemoryRecordObject
    | MemoryStateEventObject | ContextPackObject | DeleteRequestObject | DeletionEvidenceObject
  {
    function Rank(): nat {
      match this
      case SourceArtifactObject => 0
      case SourceFragmentObject => 1
      case MemoryProposalObject => 2
      case MemoryDecisionObject => 3
      case MemoryRecordObject => 4
      case MemoryStateEventObject => 5
      case ContextPackObject => 6
      case DeleteRequestObject => 7
      case DeletionEvidenceObject => 8
    }
  }

  datatype ObjectRef = ObjectRef(kind: ObjectType, id: Identifier)

  datatype ComponentType =
    | SourceBody | SourceMetadata | SourceFragmentComponent | MemoryProposal | MemoryDecisionComponent
    | MemoryRecordComponent | MemoryStateEvent | FullTextIndex | ContextCache | MinimalAudit

  datatype RequiredAction = Delete | Redact | RetainMinimal

  datatype TargetRef = One(target: ObjectRef) | Frozen(targets: seq<ObjectRef>) {
    function Count(): nat { match this case One(_) => 1 case Frozen(ts) => |ts| }
  }

  datatype Target = Target(key: Identifier, component: ComponentType, ref: TargetRef, count: nat, action: RequiredAction)

  datatype Status = Pending | Succeeded | Failed

  datatype Outcome = Deleted | Redacted | RetainedMinimal | NotFound | NotApplicable

  datatype ComponentResult = ComponentResult(
    key: Identifier, component: ComponentType, ref: TargetRef, action: RequiredAction, count: nat, processed: nat,
    status: Status, outcome: Outcome, errorCode: Option<string>, retryable: Option<bool>, basis: Option<EvidenceType>)

  datatype OverallStatus = OverallPending | Partial | OverallFailed | Completed

  datatype Request = Request(id: Identifier, space: Identifier, device: Identifier, targets: seq<ObjectRef>, planned: seq<Target>, requestedAt: Timestamp)

  datatype Evidence = Evidence(
    request: Identifier, space: Identifier, device: Identifier, overall: OverallStatus, results: seq<ComponentResult>,
    startedAt: Timestamp, finishedAt: Option<Timestamp>)

  // ---------------------------------------------------------------- the plan

  predicate RefLess(a: ObjectRef, b: ObjectRef) {
    a.kind.Rank() < b.kind.Rank() || (a.kind == b.kind && J.KeyLess(a.id, b.id))
  }

  function InsertRef(r: ObjectRef, rs: seq<ObjectRef>): seq<ObjectRef> {
    if rs == [] || RefLess(r, rs[0]) then [r] + rs else [rs[0]] + InsertRef(r, rs[1..])
  }

  function SortRefs(rs: seq<ObjectRef>): seq<ObjectRef> {
    if rs == [] then [] else InsertRef(rs[0], SortRefs(rs[1..]))
  }

  predicate UniqueRefs(rs: seq<ObjectRef>) {
    forall i, j :: 0 <= i < j < |rs| ==> rs[i] != rs[j]
  }

  predicate SortedRefs(rs: seq<ObjectRef>) {
    forall i, j :: 0 <= i < j < |rs| ==> RefLess(rs[i], rs[j])
  }

  /** The kinds in the order a closure lists them. */
  const KINDS: seq<ObjectType> := [
    SourceArtifactObject, SourceFragmentObject, MemoryProposalObject, MemoryDecisionObject, MemoryRecordObject,
    MemoryStateEventObject, ContextPackObject, DeleteRequestObject, DeletionEvidenceObject]

  /** References are ordered by kind, and within a kind by the scalar values of their identities. */
  lemma RefOrderExactly(a: ObjectRef, b: ObjectRef, i: nat, j: nat)
    requires i < |KINDS| && j < |KINDS| && KINDS[i] == a.kind && KINDS[j] == b.kind
    ensures RefLess(a, b) <==> i < j || (i == j && exists n: nat :: J.PartsAt(a.id, b.id, n))
  {
    J.KeyLessExactly(a.id, b.id);
  }

  lemma RefOrderTotal(a: ObjectRef, b: ObjectRef)
    ensures RefLess(a, b) || a == b || RefLess(b, a)
    ensures !(RefLess(a, b) && (a == b || RefLess(b, a)))
  {
    J.KeyOrderTotal(a.id, b.id);
  }

  lemma RefOrderTransitive(a: ObjectRef, b: ObjectRef, c: ObjectRef)
    requires RefLess(a, b) && RefLess(b, c)
    ensures RefLess(a, c)
  {
    if a.kind == b.kind == c.kind { J.KeyOrderTransitive(a.id, b.id, c.id); }
  }

  lemma {:induction false} InsertRefAdds(r: ObjectRef, rs: seq<ObjectRef>)
    ensures multiset(InsertRef(r, rs)) == multiset(rs) + multiset{r} && |InsertRef(r, rs)| == |rs| + 1
  {
    if rs != [] && !RefLess(r, rs[0]) {
      InsertRefAdds(r, rs[1..]);
      assert rs == [rs[0]] + rs[1..];
    }
  }

  lemma {:induction false} SortRefsPermutes(rs: seq<ObjectRef>)
    ensures multiset(SortRefs(rs)) == multiset(rs) && |SortRefs(rs)| == |rs|
  {
    if rs != [] {
      SortRefsPermutes(rs[1..]);
      InsertRefAdds(rs[0], SortRefs(rs[1..]));
      assert rs == [rs[0]] + rs[1..];
    }
  }

  lemma {:induction false} InsertRefSorted(r: ObjectRef, rs: seq<ObjectRef>)
    requires SortedRefs(rs) && r !in rs
    ensures SortedRefs(InsertRef(r, rs))
  {
    if rs != [] {
      RefOrderTotal(r, rs[0]);
      if RefLess(r, rs[0]) {
        forall i | 0 < i < |rs| ensures RefLess(r, rs[i]) { RefOrderTransitive(r, rs[0], rs[i]); }
      } else {
        InsertRefSorted(r, rs[1..]);
        InsertRefAdds(r, rs[1..]);
        var rest := InsertRef(r, rs[1..]);
        forall i | 0 <= i < |rest| ensures RefLess(rs[0], rest[i]) {
          assert rest[i] in multiset(rest);
          assert rest[i] == r || rest[i] in rs[1..];
        }
      }
    }
  }

  lemma {:induction false} SortRefsSorts(rs: seq<ObjectRef>)
    requires UniqueRefs(rs)
    ensures SortedRefs(SortRefs(rs))
  {
    if rs != [] {
      SortRefsSorts(rs[1..]);
      SortRefsPermutes(rs[1..]);
      forall i | 0 <= i < |SortRefs(rs[1..])| ensures SortRefs(rs[1..])[i] != rs[0] {
        assert SortRefs(rs[1..])[i] in multiset(rs[1..]);
      }
      InsertRefSorted(rs[0], SortRefs(rs[1..]));
    }
  }

  /** A closure holds its targets in order, without repetition: whatever was frozen passes the check. */
  predicate IsClosure(rs: seq<ObjectRef>) {
    rs != [] && SortedRefs(rs)
  }

  /** Sorted lists of the same references are the same list. */
  lemma {:induction false} ClosureUnique(a: seq<ObjectRef>, b: seq<ObjectRef>)
    requires SortedRefs(a) && SortedRefs(b) && multiset(a) == multiset(b)
    ensures a == b
  {
    if a == [] {
      assert |multiset(b)| == 0;
    } else {
      assert |multiset(a)| == |multiset(b)| && a[0] in multiset(b) && b[0] in multiset(a);
      SmallestFirst(a, b[0]);
      SmallestFirst(b, a[0]);
      RefOrderTotal(a[0], b[0]);
      WithoutFirst(a);
      WithoutFirst(b);
      ClosureUnique(a[1..], b[1..]);
    }
  }

  lemma WithoutFirst(a: seq<ObjectRef>)
    requires a != []
    ensures multiset(a[1..]) == multiset(a) - multiset{a[0]} && a == [a[0]] + a[1..]
  {
    assert a == [a[0]] + a[1..];
  }

  lemma SmallestFirst(a: seq<ObjectRef>, r: ObjectRef)
    requires SortedRefs(a) && a != [] && r in multiset(a)
    ensures r == a[0] || RefLess(a[0], r)
  {
    assert r in a;
    var i :| 0 <= i < |a| && a[i] == r;
  }

  /** The ten components: key, type and what has to happen. */
  function Profile(): seq<(Identifier, ComponentType, RequiredAction)> {
    [("source-body", SourceBody, Delete), ("source-metadata", SourceMetadata, RetainMinimal),
     ("source-fragment", SourceFragmentComponent, Delete), ("memory-proposal", MemoryProposal, Redact),
     ("memory-decision", MemoryDecisionComponent, RetainMinimal), ("memory-record", MemoryRecordComponent, Redact),
     ("memory-state-event", MemoryStateEvent, RetainMinimal), ("full-text-index", FullTextIndex, Delete),
     ("context-cache", ContextCache, Delete), ("minimal-audit", MinimalAudit, RetainMinimal)]
  }

  predicate Purgeable(r: ObjectRef) { r.kind == SourceArtifactObject || r.kind == MemoryRecordObject }

  predicate PlanAdmitted(targets: seq<ObjectRef>) {
    targets != [] && UniqueRefs(targets) && forall r :: r in targets ==> Purgeable(r)
  }

  function FrozenRef(targets: seq<ObjectRef>): TargetRef
    requires targets != []
  {
    if |targets| == 1 then One(targets[0]) else Frozen(SortRefs(targets))
  }

  function Plan(targets: seq<ObjectRef>): (plan: seq<Target>)
    requires targets != []
    ensures |plan| == 10
    ensures forall i :: 0 <= i < 10 ==> plan[i] == Target(Profile()[i].0, Profile()[i].1, FrozenRef(targets), |targets|, Profile()[i].2)
  {
    seq(10, i requires 0 <= i < 10 => Target(Profile()[i].0, Profile()[i].1, FrozenRef(targets), |targets|, Profile()[i].2))
  }

  /** Builds the plan for one exact set of sources and records. */
  method BuildLocalPurgeTargets(targets: seq<ObjectRef>) returns (r: Result<seq<Target>, Reason>)
    ensures r.Success? <==>
              && targets != [] && (forall i, j :: 0 <= i < j < |targets| ==> targets[i] != targets[j])
              && forall i :: 0 <= i < |targets| ==> targets[i].kind == SourceArtifactObject || targets[i].kind == MemoryRecordObject
    ensures r.Success? ==> r.value == Plan(targets) && IsClosure(SortRefs(targets))
    ensures r.Success? ==> forall i :: 0 <= i < 10 ==> r.value[i].count == r.value[i].ref.Count() == |targets|
  {
    if targets == [] { return Failure(MissingReference); }
    var seen: set<ObjectRef> := {};
    for i := 0 to |targets|
      invariant seen == set j | 0 <= j < i :: targets[j]
      invariant forall j, k :: 0 <= j < k < i ==> targets[j] != targets[k]
    {
      if targets[i] in seen { return Failure(DuplicateValue); }
      seen := seen + {targets[i]};
    }
    for i := 0 to |targets|
      invariant forall j :: 0 <= j < i ==> Purgeable(targets[j])
    {
      if !Purgeable(targets[i]) {
        assert targets[i] in targets;
        return Failure(DeletionPlanMismatch);
      }
    }
    SortRefsSorts(targets);
    SortRefsPermutes(targets);
    return Success(Plan(targets));
  }

  /** The ten components of a plan, and what is to happen to each. */
  lemma PlanComponents(targets: seq<ObjectRef>)
    requires targets != []
    ensures var plan := Plan(targets);
      && plan[0].key == "source-body" && plan[0].component == SourceBody && plan[0].action == Delete
      && plan[1].key == "source-metadata" && plan[1].component == SourceMetadata && plan[1].action == RetainMinimal
      && plan[2].key == "source-fragment" && plan[2].component == SourceFragmentComponent && plan[2].action == Delete
      && plan[3].key == "memory-proposal" && plan[3].component == MemoryProposal && plan[3].action == Redact
      && plan[4].key == "memory-decision" && plan[4].component == MemoryDecisionComponent && plan[4].action == RetainMinimal
      && plan[5].key == "memory-record" && plan[5].component == MemoryRecordComponent && plan[5].action == Redact
      && plan[6].key == "memory-state-event" && plan[6].component == MemoryStateEvent && plan[6].action == RetainMinimal
      && plan[7].key == "full-text-index" && plan[7].component == FullTextIndex && plan[7].action == Delete
      && plan[8].key == "context-cache" && plan[8].component == ContextCache && plan[8].action == Delete
      && plan[9].key == "minimal-audit" && plan[9].component == MinimalAudit && plan[9].action == RetainMinimal
    ensures forall t :: t in Plan(targets) ==> t.count == |targets|
    ensures forall t :: t in Plan(targets) ==>
      match t.ref
      case One(r) => targets == [r]
      case Frozen(rs) => |targets| > 1 && multiset(rs) == multiset(targets)
  {
    SortRefsPermutes(targets);
  }

  /** The plan does not depend on the order in which the targets are named. */
  lemma PlanInAnyOrder(a: seq<ObjectRef>, b: seq<ObjectRef>)
    requires PlanAdmitted(a) && PlanAdmitted(b) && multiset(a) == multiset(b)
    ensures Plan(a) == Plan(b)
  {
    SortRefsSorts(a);
    SortRefsSorts(b);
    SortRefsPermutes(a);
    SortRefsPermutes(b);
    ClosureUnique(SortRefs(a), SortRefs(b));
    assert |multiset(a)| == |a| && |multiset(b)| == |b|;
    if |a| == 1 { assert a[0] in multiset(b); }
  }

  // ---------------------------------------------------------------- results

  /** What the constructor of a component result lets through. */
  predicate BuiltResult(r: ComponentResult) {
    && r.count == r.ref.Count() > 0 && r.processed <= r.count
    && (if r.status == Failed then r.errorCode.Some? && r.retryable.Some? else r.errorCode.None? && r.retryable.None?)
    && (r.status == Succeeded ==> r.processed == r.count)
    && (r.status == Succeeded ==> r.outcome == NotFound || AnswersAction(r.action, r.outcome))
    && (if r.status == Succeeded && r.outcome == RetainedMinimal then r.basis == Some(PolicyBasis) else r.basis.None?)
  }

  predicate AnswersAction(action: RequiredAction, outcome: Outcome) {
    || (action == Delete && outcome == Deleted)
    || (action == Redact && outcome == Redacted)
    || (action == RetainMinimal && outcome == RetainedMinimal)
  }

  predicate KeysUnique(rs: seq<ComponentResult>) {
    forall i, j :: 0 <= i < j < |rs| ==> rs[i].key != rs[j].key
  }

  predicate PlanKeysUnique(ts: seq<Target>) {
    forall i, j :: 0 <= i < j < |ts| ==> ts[i].key != ts[j].key
  }

  predicate BuiltRequest(r: Request) {
    r.targets != [] && UniqueRefs(r.targets) && r.planned != [] && PlanKeysUnique(r.planned) && r.requestedAt.Valid()
  }

  predicate BuiltEvidence(e: Evidence) {
    && e.results != [] && KeysUnique(e.results) && (forall r :: r in e.results ==> BuiltResult(r))
    && e.startedAt.Valid() && (e.finishedAt.Some? ==> e.finishedAt.value.Valid() && NoLater(e.startedAt, e.finishedAt.value))
    && (e.overall == OverallPending <==> e.finishedAt.None?)
    && (e.overall == Completed ==> forall r :: r in e.results ==> r.status == Succeeded)
    && (e.overall == OverallFailed ==> exists r :: r in e.results && r.status == Failed)
  }

  /** The result answers this planned component. */
  predicate Answers(r: ComponentResult, t: Target) {
    r.key == t.key && r.component == t.component && r.ref == t.ref && r.action == t.action && r.count == t.count
  }

  /** A result of exactly this component: the component's fields, and whatever the execution adds. */
  predicate AnswersExactly(r: ComponentResult, t: Target) {
    r == ComponentResult(t.key, t.component, t.ref, t.action, t.count, r.processed, r.status, r.outcome, r.errorCode, r.retryable, r.basis)
  }

  predicate HasAnswer(t: Target, results: seq<ComponentResult>) {
    exists j :: 0 <= j < |results| && Answers(results[j], t)
  }

  predicate IsAsked(r: ComponentResult, planned: seq<Target>) {
    exists i :: 0 <= i < |planned| && Answers(r, planned[i])
  }

  /** Results and planned components stand one to one. */
  predicate OneToOne(planned: seq<Target>, results: seq<ComponentResult>) {
    && |planned| == |results|
    && (forall i :: 0 <= i < |planned| ==> HasAnswer(planned[i], results))
    && (forall j :: 0 <= j < |results| ==> IsAsked(results[j], planned))
  }

  /** Evidence belongs to the request and answers its plan. */
  predicate Matches(request: Request, e: Evidence)
    requires request.requestedAt.Valid() && e.startedAt.Valid()
  {
    && e.space == request.space && e.request == request.id && e.device == request.device
    && NoLater(request.requestedAt, e.startedAt)
    && OneToOne(request.planned, e.results)
  }

  /** No two results, or planned components, share an answer: the correspondence is a bijection. */
  lemma AnswersAreUnique(planned: seq<Target>, results: seq<ComponentResult>, i: nat, k: nat, j: nat, n: nat)
    requires PlanKeysUnique(planned) && KeysUnique(results)
    requires i < |planned| && k < |planned| && j < |results| && n < |results|
    requires Answers(results[j], planned[i]) && Answers(results[n], planned[k])
    ensures i == k <==> j == n
  {
  }

  /** With as many results as components, an answer for every component leaves no result over. */
  lemma {:induction false} NothingLeftOver(planned: seq<Target>, results: seq<ComponentResult>)
    requires PlanKeysUnique(planned) && KeysUnique(results) && |planned| == |results|
    requires forall i :: 0 <= i < |planned| ==> HasAnswer(planned[i], results)
    ensures forall j :: 0 <= j < |results| ==> IsAsked(results[j], planned)
  {
    if planned != [] {
      var j :| 0 <= j < |results| && Answers(results[j], planned[0]);
      var rest := Without(results, j);
      AnsweredWithout(planned, results, j);
      NothingLeftOver(planned[1..], rest);
      forall n | 0 <= n < |results| ensures IsAsked(results[n], planned) {
        if n != j {
          var m := if n < j then n else n - 1;
          assert rest[m] == results[n] && IsAsked(rest[m], planned[1..]);
          var i :| 0 <= i < |planned[1..]| && Answers(rest[m], planned[1..][i]);
          assert Answers(results[n], planned[i + 1]);
        }
      }
    }
  }

  /** The results without the one at `j`. */
  function Without(results: seq<ComponentResult>, j: nat): (rest: seq<ComponentResult>)
    requires j < |results|
    ensures |rest| == |results| - 1
    ensures forall n :: 0 <= n < |rest| ==> rest[n] == results[if n < j then n else n + 1]
  {
    results[..j] + results[j + 1..]
  }

  lemma AnsweredWithout(planned: seq<Target>, results: seq<ComponentResult>, j: nat)
    requires PlanKeysUnique(planned) && KeysUnique(results) && planned != [] && j < |results|
    requires Answers(results[j], planned[0]) && forall i :: 0 <= i < |planned| ==> HasAnswer(planned[i], results)
    ensures PlanKeysUnique(planned[1..]) && KeysUnique(Without(results, j))
    ensures forall i :: 0 <= i < |planned[1..]| ==> HasAnswer(planned[1..][i], Without(results, j))
  {
    var rest := Without(results, j);
    forall i | 0 <= i < |planned[1..]| ensures HasAnswer(planned[1..][i], rest) {
      assert HasAnswer(planned[i + 1], results);
      var n :| 0 <= n < |results| && Answers(results[n], planned[i + 1]);
      assert n != j;
      assert Answers(rest[if n < j then n else n - 1], planned[1..][i]);
    }
  }

  function Processed(rs: seq<ComponentResult>): nat {
    if rs == [] then 0 else rs[0].processed + Processed(rs[1..])
  }

  function Planned(ts: seq<Target>): nat {
    if ts == [] then 0 else ts[0].count + Planned(ts[1..])
  }

  lemma {:induction false} ProcessedWithout(results: seq<ComponentResult>, j: nat)
    requires j < |results|
    ensures Processed(results) == results[j].processed + Processed(Without(results, j))
  {
    if j == 0 {
      assert Without(results, 0) == results[1..];
    } else {
      ProcessedWithout(results[1..], j - 1);
      assert Without(results, j)[1..] == Without(results[1..], j - 1);
    }
  }

  /** If every answer is processed in full, as much was processed as was planned. */
  lemma {:induction false} AllProcessed(planned: seq<Target>, results: seq<ComponentResult>)
    requires PlanKeysUnique(planned) && KeysUnique(results) && |planned| == |results|
    requires forall i :: 0 <= i < |planned| ==> HasAnswer(planned[i], results)
    requires forall j :: 0 <= j < |results| ==> results[j].processed == results[j].count
    ensures Processed(results) == Planned(planned)
  {
    if planned != [] {
      var j :| 0 <= j < |results| && Answers(results[j], planned[0]);
      AnsweredWithout(planned, results, j);
      ProcessedWithout(results, j);
      AllProcessed(planned[1..], Without(results, j));
    }
  }

  lemma {:induction false} PlannedSame(planned: seq<Target>, count: nat)
    requires forall i :: 0 <= i < |planned| ==> planned[i].count == count
    ensures Planned(planned) == |planned| * count
  {
    if planned != [] {
      PlannedSame(planned[1..], count);
      OneMore(|planned| - 1, count);
    }
  }

  lemma OneMore(n: nat, count: nat)
    ensures count + n * count == (n + 1) * count
  {
  }

  /** Completed evidence of a purge plan accounts for every target ten times, once per component. */
  lemma CompletedEvidenceIsComplete(request: Request, e: Evidence)
    requires BuiltRequest(request) && BuiltEvidence(e) && Matches(request, e) && e.overall == Completed
    ensures Processed(e.results) == Planned(request.planned)
    ensures request.planned == Plan(request.targets) ==> Processed(e.results) == 10 * |request.targets|
  {
    assert forall j :: 0 <= j < |e.results| ==> e.results[j] in e.results;
    AllProcessed(request.planned, e.results);
    if request.planned == Plan(request.targets) { PlannedSame(request.planned, |request.targets|); }
  }

  // ---------------------------------------------------------------- the program

  /** The result stored under a key. */
  function ResultOf(results: seq<ComponentResult>, key: Identifier): Option<ComponentResult> {
    if results == [] then None else if results[0].key == key then Some(results[0]) else ResultOf(results[1..], key)
  }

  lemma {:induction false} ResultFound(results: seq<ComponentResult>, t: Target)
    requires KeysUnique(results)
    ensures HasAnswer(t, results) <==> ResultOf(results, t.key).Some? && Answers(ResultOf(results, t.key).value, t)
  {
    if results != [] {
      ResultFound(results[1..], t);
      assert forall j :: 0 <= j < |results[1..]| ==> results[1..][j] == results[j + 1];
      if HasAnswer(t, results) {
        var j :| 0 <= j < |results| && Answers(results[j], t);
        if j > 0 { assert Answers(results[1..][j - 1], t); }
      }
      if HasAnswer(t, results[1..]) {
        var j :| 0 <= j < |results[1..]| && Answers(results[1..][j], t);
        assert Answers(results[j + 1], t);
      }
      if Answers(results[0], t) { assert HasAnswer(t, results); }
    }
  }

  lemma EveryComponentAnswered(planned: seq<Target>, results: seq<ComponentResult>)
    requires forall i :: 0 <= i < |planned| ==> HasAnswer(planned[i], results)
    ensures forall t :: t in planned ==> exists c :: c in results && AnswersExactly(c, t)
  {
    forall t | t in planned ensures exists c :: c in results && AnswersExactly(c, t) {
      var i :| 0 <= i < |planned| && planned[i] == t;
      assert HasAnswer(planned[i], results);
      var j :| 0 <= j < |results| && Answers(results[j], t);
      assert results[j] in results && AnswersExactly(results[j], t);
    }
  }

  /** Accepts exactly the evidence that matches the request. */
  method ValidateEvidence(request: Request, e: Evidence) returns (r: Result<(), Reason>)
    requires BuiltRequest(request) && BuiltEvidence(e)
    ensures r.Success? <==> Matches(request, e)
    ensures r.Success? ==>
      && e.space == request.space && e.request == request.id && e.device == request.device
      && request.requestedAt.Place() <= e.startedAt.Place() && |e.results| == |request.planned|
    ensures r.Success? ==> forall t :: t in request.planned ==> exists c :: c in e.results && AnswersExactly(c, t)
    ensures r.Failure? ==> r.error == if e.space != request.space then NamespaceMismatch
                                      else if e.request != request.id || e.device != request.device then IdentityMismatch
                                      else if e.startedAt.Place() < request.requestedAt.Place() then TimeAlignmentMismatch
                                      else DeletionPlanMismatch
    ensures r.Success? && e.overall == Completed ==> Processed(e.results) == Planned(request.planned)
  {
    hide HasAnswer, Answers, IsAsked, BuiltResult, Processed, Planned;
    if e.space != request.space { return Failure(NamespaceMismatch); }
    if e.request != request.id || e.device != request.device { return Failure(IdentityMismatch); }
    var order := Compare(e.startedAt, request.requestedAt);
    if order == Less { return Failure(TimeAlignmentMismatch); }
    if |e.results| != |request.planned| { return Failure(DeletionPlanMismatch); }
    for i := 0 to |request.planned|
      invariant forall k :: 0 <= k < i ==> HasAnswer(request.planned[k], e.results)
    {
      var result := ResultOf(e.results, request.planned[i].key);
      ResultFound(e.results, request.planned[i]);
      if result.None? || !Answers(result.value, request.planned[i]) { return Failure(DeletionPlanMismatch); }
    }
    NothingLeftOver(request.planned, e.results);
    if e.overall == Completed {
      assert forall k :: 0 <= k < |e.results| ==> e.results[k] in e.results;
      if exists k :: 0 <= k < |e.results| && e.results[k].status != Succeeded { return Failure(DeletionPlanMismatch); }
      CompletedEvidenceIsComplete(request, e);
    }
    EveryComponentAnswered(request.planned, e.results);
    return Success(());
  }
}
