/**
 The trace of one observed action: events written by nested calls form a prefix of a well-bracketed
 word, whatever the calls do and whenever the sink fails.
 */
module KeyReadObservation {
  import opened Wrappers

  const MAX_EVENTS: nat := 256
  const MAX_TRACE_BYTES: nat := 64 * 1024

  datatype Operation =
    | Action | Entry | Release | Read1 | Read2 | Label | AttributesPre | AttributesPost | AttributesLabel
    | AttributesSearch | SecretSearch | Domain

  /** How a call ended: well, or with one of the error categories. */
  datatype Ending = Ok | Missing | Ambiguous | Denied | Cancelled | Unavailable | Invalid | OtherFailure | BusinessFailed

  datatype Edge = Begins | Ends(ending: Ending)

  datatype Stage = NoStage | InEntry | InRelease

  datatype Event = Event(number: nat, call: nat, parent: nat, stage: Stage, read: nat, operation: Operation, edge: Edge)

  datatype Frame = Frame(call: nat, operation: Operation)

  // ---------------------------------------------------------------- words

  /** The innermost open call other than `call`, or none. */
  function ParentOf(stack: seq<Frame>, call: nat): nat {
    if stack == [] then 0
    else if stack[|stack| - 1].call != call then stack[|stack| - 1].call
    else ParentOf(stack[..|stack| - 1], call)
  }

  function StageOf(stack: seq<Frame>): Stage {
    if stack == [] then NoStage
    else match stack[|stack| - 1].operation
         case Entry => InEntry
         case Release => InRelease
         case _ => StageOf(stack[..|stack| - 1])
  }

  function ReadOf(stack: seq<Frame>): nat {
    if stack == [] then 0
    else match stack[|stack| - 1].operation
         case Read1 => 1
         case Read2 => 2
         case _ => ReadOf(stack[..|stack| - 1])
  }

  /** Of all calls of these kinds, `i` is the innermost, and of this one. */
  predicate Innermost(stack: seq<Frame>, i: nat, operation: Operation, kinds: set<Operation>) {
    i < |stack| && stack[i].operation == operation && forall j :: i < j < |stack| ==> stack[j].operation !in kinds
  }

  /** The stage is that of the innermost entry or release around a call; the read that of the innermost of the two reads. */
  lemma {:induction false} StageExactly(stack: seq<Frame>)
    ensures StageOf(stack) == InEntry <==> exists i: nat :: Innermost(stack, i, Entry, {Entry, Release})
    ensures StageOf(stack) == InRelease <==> exists i: nat :: Innermost(stack, i, Release, {Entry, Release})
    ensures ReadOf(stack) == 1 <==> exists i: nat :: Innermost(stack, i, Read1, {Read1, Read2})
    ensures ReadOf(stack) == 2 <==> exists i: nat :: Innermost(stack, i, Read2, {Read1, Read2})
    ensures ReadOf(stack) <= 2
  {
    if stack != [] {
      var rest := stack[..|stack| - 1];
      StageExactly(rest);
      InnermostOf(stack, Entry, {Entry, Release});
      InnermostOf(stack, Release, {Entry, Release});
      InnermostOf(stack, Read1, {Read1, Read2});
      InnermostOf(stack, Read2, {Read1, Read2});
    }
  }

  lemma InnermostOf(stack: seq<Frame>, operation: Operation, kinds: set<Operation>)
    requires stack != [] && operation in kinds
    ensures var rest, last := stack[..|stack| - 1], stack[|stack| - 1].operation;
            (exists i: nat :: Innermost(stack, i, operation, kinds)) <==>
              last == operation || (last !in kinds && exists i: nat :: Innermost(rest, i, operation, kinds))
  {
    var rest, last := stack[..|stack| - 1], stack[|stack| - 1].operation;
    if last == operation { assert Innermost(stack, |stack| - 1, operation, kinds); }
    if i: nat :| Innermost(rest, i, operation, kinds) {
      if last !in kinds { assert Innermost(stack, i, operation, kinds); }
    }
    if i: nat :| Innermost(stack, i, operation, kinds) {
      if i < |rest| { assert Innermost(rest, i, operation, kinds); }
    }
  }

  /** The calls opened by a word. */
  function Opened(word: seq<Event>): nat {
    if word == [] then 0 else Opened(word[..|word| - 1]) + if word[|word| - 1].edge.Begins? then 1 else 0
  }

  /**
   What one event does to the open calls, if it may come next: a begin opens the next call under the
   innermost open one, an end closes exactly the innermost; events are numbered from one and carry the
   stage and the read they belong to.
   */
  function Accept(open: seq<Frame>, count: nat, number: nat, e: Event): Option<seq<Frame>> {
    var enclosing := if e.edge.Begins? || open == [] then open else open[..|open| - 1];
    var frame := Frame(e.call, e.operation);
    var around := if e.edge.Begins? then open + [frame] else open;
    if e.stage != StageOf(around) || e.read != ReadOf(around) then None
    else if e.number != number || e.parent != (if enclosing == [] then 0 else enclosing[|enclosing| - 1].call) then None
    else if e.edge.Begins? then (if e.call == count + 1 then Some(open + [frame]) else None)
    else if open != [] && open[|open| - 1] == frame then Some(enclosing)
    else None
  }

  /** The calls still open after a word, if it is the beginning of a well-bracketed one. */
  function OpenAfter(word: seq<Event>): Option<seq<Frame>> {
    if word == [] then Some([])
    else match OpenAfter(word[..|word| - 1])
         case None => None
         case Some(open) => Accept(open, Opened(word[..|word| - 1]), |word|, word[|word| - 1])
  }

  lemma OpenStep(word: seq<Event>, e: Event)
    requires IsPrefix(word)
    ensures OpenAfter(word + [e]) == Accept(OpenAfter(word).value, Opened(word), |word| + 1, e)
    ensures Opened(word + [e]) == Opened(word) + if e.edge.Begins? then 1 else 0
  {
    hide Accept;
    assert (word + [e])[..|word|] == word && (word + [e])[|word|] == e;
  }

  /** A word that can be continued to a complete one. */
  predicate IsPrefix(word: seq<Event>) { OpenAfter(word).Some? }

  predicate IsComplete(word: seq<Event>) { word != [] && OpenAfter(word) == Some([]) }

  predicate EndsBadly(e: Event) { e.edge.Ends? && e.edge.ending != Ok }

  /** After the first end that is not ok, no call begins. */
  predicate NothingBeginsAfterFailure(word: seq<Event>) {
    forall i, j :: 0 <= i < j < |word| && EndsBadly(word[i]) ==> word[j].edge.Ends?
  }

  predicate AnyFailure(word: seq<Event>) {
    exists i :: 0 <= i < |word| && EndsBadly(word[i])
  }

  /** Call numbers grow along the open calls, so each is told from the others. */
  predicate Rising(stack: seq<Frame>, limit: nat) {
    && (forall i, j :: 0 <= i < j < |stack| ==> stack[i].call < stack[j].call)
    && (forall i :: 0 <= i < |stack| ==> 0 < stack[i].call <= limit)
  }

  lemma ParentOfTop(stack: seq<Frame>, limit: nat)
    requires stack != [] && Rising(stack, limit)
    ensures ParentOf(stack, stack[|stack| - 1].call) == if |stack| == 1 then 0 else stack[|stack| - 2].call
  {
    var rest := stack[..|stack| - 1];
    assert ParentOf(stack, stack[|stack| - 1].call) == ParentOf(rest, stack[|stack| - 1].call);
    if rest != [] { assert rest[|rest| - 1] == stack[|stack| - 2]; }
  }

  lemma FailureGrows(word: seq<Event>, e: Event)
    ensures AnyFailure(word + [e]) <==> AnyFailure(word) || EndsBadly(e)
    ensures NothingBeginsAfterFailure(word) && (AnyFailure(word) ==> e.edge.Ends?) ==> NothingBeginsAfterFailure(word + [e])
  {
    var longer := word + [e];
    assert longer[|word|] == e;
    if AnyFailure(word) {
      var i :| 0 <= i < |word| && EndsBadly(word[i]);
      assert EndsBadly(longer[i]);
    }
    forall i, j | 0 <= i < j < |longer| && EndsBadly(longer[i]) && NothingBeginsAfterFailure(word) && (AnyFailure(word) ==> e.edge.Ends?)
      ensures longer[j].edge.Ends?
    {
      if j == |word| { assert EndsBadly(word[i]); }
    }
  }

  /** The event written for a call while `stack` is open. */
  function EventAt(sequence: nat, stack: seq<Frame>, call: nat, operation: Operation, edge: Edge): Event {
    Event(sequence + 1, call, ParentOf(stack, call), StageOf(stack), ReadOf(stack), operation, edge)
  }

  lemma {:induction false} BeginExtends(word: seq<Event>, open: seq<Frame>, operation: Operation)
    requires OpenAfter(word) == Some(open) && Rising(open, Opened(word))
    ensures var call := Opened(word) + 1;
            var longer := open + [Frame(call, operation)];
            var e := EventAt(|word|, longer, call, operation, Begins);
            && OpenAfter(word + [e]) == Some(longer) && Opened(word + [e]) == call && Rising(longer, call)
            && e.edge == Begins
  {
    hide OpenAfter, Opened, ParentOf, StageOf, ReadOf;
    var call := Opened(word) + 1;
    var longer := open + [Frame(call, operation)];
    ParentOfTop(longer, call);
    OpenStep(word, EventAt(|word|, longer, call, operation, Begins));
  }

  lemma {:induction false} EndExtends(word: seq<Event>, open: seq<Frame>, ending: Ending)
    requires OpenAfter(word) == Some(open) && open != [] && Rising(open, Opened(word))
    ensures var top := open[|open| - 1];
            var e := EventAt(|word|, open, top.call, top.operation, Ends(ending));
            && OpenAfter(word + [e]) == Some(open[..|open| - 1]) && Opened(word + [e]) == Opened(word)
            && Rising(open[..|open| - 1], Opened(word))
  {
    hide OpenAfter, Opened, ParentOf, StageOf, ReadOf;
    var top := open[|open| - 1];
    ParentOfTop(open, Opened(word));
    OpenStep(word, EventAt(|word|, open, top.call, top.operation, Ends(ending)));
  }

  // ---------------------------------------------------------------- calls

  /** An observed call: what it observes in turn inside, and how its own work ends. */
  datatype Call = Call(operation: Operation, inner: seq<Call>, ending: Ending)

  /** How many events a call writes when nothing goes wrong. */
  function Size(call: Call): nat {
    SizeAll(call.inner) + 2
  }

  function SizeAll(calls: seq<Call>): nat {
    if calls == [] then 0 else SizeAll(calls[..|calls| - 1]) + Size(calls[|calls| - 1])
  }

  lemma {:induction false} SizeGrows(calls: seq<Call>, i: nat)
    requires i <= |calls|
    ensures SizeAll(calls[..i]) <= SizeAll(calls)
  {
    if i < |calls| {
      assert calls[..|calls| - 1][..i] == calls[..i];
      SizeGrows(calls[..|calls| - 1], i);
    } else {
      assert calls[..i] == calls;
    }
  }

  lemma SizeNext(calls: seq<Call>, i: nat)
    requires i < |calls|
    ensures SizeAll(calls[..i + 1]) == SizeAll(calls[..i]) + Size(calls[i]) <= SizeAll(calls)
  {
    assert calls[..i + 1][..i] == calls[..i];
    SizeGrows(calls, i + 1);
  }

  /** The call's own work and everything observed inside it ends well. */
  predicate AllWell(call: Call) {
    call.ending == Ok && forall i :: 0 <= i < |call.inner| ==> AllWell(call.inner[i])
  }

  function Sum(sizes: seq<nat>): nat {
    if sizes == [] then 0 else Sum(sizes[..|sizes| - 1]) + sizes[|sizes| - 1]
  }

  class Context {
    /** The sink accepts every event, and none is longer than 256 bytes. */
    const steady: bool
    var stack: seq<Frame>
    var sequence: nat
    var nextCall: nat
    var bytes: nat
    var blocked: bool
    var broken: bool
    /** What the sink has accepted. */
    ghost var written: seq<Event>
    /** The length in bytes of every written event. */
    ghost var sizes: seq<nat>

    ghost predicate Measured()
      reads this
    {
      |sizes| == |written| && bytes == Sum(sizes) <= MAX_TRACE_BYTES
    }

    ghost predicate Valid()
      reads this
    {
      && IsPrefix(written) && NothingBeginsAfterFailure(written)
      && |written| == sequence <= MAX_EVENTS && Measured()
      && (broken ==> blocked) && (AnyFailure(written) ==> blocked)
      && (steady ==> bytes <= 256 * sequence)
      && (!broken ==> OpenAfter(written) == Some(stack) && Opened(written) == nextCall && Rising(stack, nextCall))
    }

    constructor (steady: bool)
      ensures Valid() && written == [] && stack == [] && !blocked && !broken && this.steady == steady
    {
      this.steady := steady;
      stack, sequence, nextCall, bytes, blocked, broken, written, sizes := [], 0, 0, 0, false, false, [], [];
    }

    /** Writes one event, unless a limit or the sink refuses; a refusal breaks the trace for good. */
    method Emit(call: nat, operation: Operation, edge: Edge) returns (ok: bool)
      requires broken ==> blocked
      requires sequence <= MAX_EVENTS && Measured()
      modifies this`sequence, this`bytes, this`blocked, this`broken, this`written, this`sizes
      ensures sequence <= MAX_EVENTS && Measured()
      ensures ok ==> !old(broken) && broken == old(broken) && blocked == old(blocked) && sequence == old(sequence) + 1
      ensures ok ==> written == old(written) + [EventAt(old(sequence), stack, call, operation, edge)]
      ensures !ok ==> written == old(written) && sequence == old(sequence) && broken && blocked
      ensures steady && !old(broken) && old(sequence) < 256 && old(bytes) + 256 <= 0x1_0000 ==> ok
      ensures bytes <= old(bytes) + (if !ok then 0 else if steady then 256 else bytes)
      ensures old(sequence) >= 256 ==> !ok
    {
      if broken { return false; }
      var event := EventAt(sequence, stack, call, operation, edge);
      var length: nat :| steady ==> length <= 256;
      var accepted: bool := *;
      if sequence >= MAX_EVENTS || bytes + length > MAX_TRACE_BYTES || !(steady || accepted) {
        blocked, broken := true, true;
        return false;
      }
      sequence, bytes, written := sequence + 1, bytes + length, written + [event];
      sizes := sizes + [length];
      return true;
    }

    /** Opens a call, unless the trace is blocked. */
    method Begin(operation: Operation) returns (id: Option<nat>)
      requires Valid()
      modifies this
      ensures Valid()
      ensures old(blocked) ==> id == None && written == old(written) && stack == old(stack) && blocked && broken == old(broken)
      ensures id.Some? ==> !broken && !blocked && stack == old(stack) + [Frame(id.value, operation)] && |written| == |old(written)| + 1
      ensures id.Some? ==> written[..|old(written)|] == old(written) && written[|old(written)|].edge.Begins?
      ensures id.None? && !old(blocked) ==> broken && written == old(written)
      ensures steady && !old(blocked) && |old(written)| < 256 ==> id.Some?
    {
      hide OpenAfter, Opened, Rising, ParentOf, StageOf, ReadOf, NothingBeginsAfterFailure, AnyFailure;
      if blocked || broken { return None; }
      ghost var before := written;
      BeginExtends(written, stack, operation);
      nextCall := nextCall + 1;
      var call := nextCall;
      stack := stack + [Frame(call, operation)];
      var ok := Emit(call, operation, Begins);
      if !ok { return None; }
      FailureGrows(before, written[|before|]);
      return Some(call);
    }

    /** Closes the innermost call; anything but a good ending blocks what follows. */
    method End(id: nat, operation: Operation, ending: Ending) returns (ok: bool)
      requires Valid()
      modifies this
      ensures Valid() && (old(blocked) ==> blocked) && (old(broken) ==> broken)
      ensures ok <==> !old(broken) && !broken
      ensures ok ==> old(stack) != [] && old(stack)[|old(stack)| - 1] == Frame(id, operation) && stack == old(stack)[..|old(stack)| - 1]
      ensures ok ==> |written| == |old(written)| + 1 && written[..|old(written)|] == old(written)
      ensures ok ==> written[|old(written)|].edge == Ends(ending)
      ensures ok ==> blocked == (old(blocked) || ending != Ok)
      ensures !ok ==> broken && written == old(written)
      ensures steady && !old(broken) && |old(written)| < 256 && old(stack) != [] && old(stack)[|old(stack)| - 1] == Frame(id, operation) ==> ok
    {
      hide OpenAfter, Opened, Rising, ParentOf, StageOf, ReadOf, NothingBeginsAfterFailure, AnyFailure;
      if stack == [] || stack[|stack| - 1] != Frame(id, operation) {
        broken, blocked := true, true;
        return false;
      }
      ghost var before := written;
      if !broken { EndExtends(written, stack, ending); }
      ok := Emit(id, operation, Ends(ending));
      if ok { FailureGrows(before, written[|before|]); }
      stack := stack[..|stack| - 1];
      if ending != Ok { blocked := true; }
    }

    /**
     An observed call: begins, does its work with every observed call inside, ends with what the work
     came to. Whatever is inside and wherever the sink fails, the trace stays a prefix.
     */
    method Run(call: Call)
      requires Valid()
      modifies this
      ensures Valid() && |old(written)| <= |written| && written[..|old(written)|] == old(written)
      ensures old(blocked) ==> written == old(written) && stack == old(stack) && blocked && broken == old(broken)
      ensures !broken ==> stack == old(stack) && !old(broken)
      ensures !old(blocked) && !blocked ==> Balanced(old(written), written) && call.ending == Ok
      ensures !old(broken) ==> old(stack) <= OpenAfter(written).value
      ensures !old(blocked) && !blocked ==> AllWell(call) && |written| == |old(written)| + Size(call)
      ensures steady && !old(blocked) && AllWell(call) && |old(written)| + Size(call) <= 256 ==> !blocked
      decreases call, 1
    {
      hide OpenAfter, Opened, Rising, NothingBeginsAfterFailure, AnyFailure;
      ghost var start, open := written, stack;
      var id := Begin(call.operation);
      if id.None? { return; }
      ghost var begun := written;
      RunAll(call, call.inner);
      ghost var inside := written;
      PrefixOfPrefix(start, begun, inside);
      var ok := End(id.value, call.operation, call.ending);
      if ok {
        PrefixOfPrefix(start, inside, written);
        if !blocked { BalancedBy(start, begun, inside, written); }
      }
    }

    /** The observed calls inside one call, one after another. */
    method RunAll(parent: Call, calls: seq<Call>)
      requires Valid() && forall c :: c in calls ==> c in parent.inner
      modifies this
      ensures Valid() && |old(written)| <= |written| && written[..|old(written)|] == old(written)
      ensures !old(broken) ==> old(stack) <= OpenAfter(written).value
      ensures old(blocked) ==> written == old(written) && stack == old(stack) && blocked && broken == old(broken)
      ensures !broken ==> stack == old(stack) && !old(broken)
      ensures !old(blocked) && !blocked ==> AllOk(old(written), written)
      ensures !old(blocked) && !blocked ==> (forall c :: c in calls ==> AllWell(c)) && |written| == |old(written)| + SizeAll(calls)
      ensures steady && !old(blocked) && (forall c :: c in calls ==> AllWell(c)) && |old(written)| + SizeAll(calls) <= 256 ==> !blocked
      decreases parent, 0
    {
      assert SizeAll(calls[..0]) == 0;
      hide OpenAfter, Opened, Rising, NothingBeginsAfterFailure, AnyFailure, AllWell, SizeAll, Size, AllOk, Balanced, EndsBadly, Sum;
      for i := 0 to |calls|
        invariant Valid() && |old(written)| <= |written| && written[..|old(written)|] == old(written)
        invariant old(blocked) ==> written == old(written) && stack == old(stack) && blocked && broken == old(broken)
        invariant !broken ==> stack == old(stack) && !old(broken)
        invariant !old(blocked) && !blocked ==> AllOk(old(written), written)
        invariant !old(broken) ==> old(stack) <= OpenAfter(written).value
        invariant !old(blocked) && !blocked ==>
          (forall k :: 0 <= k < i ==> AllWell(calls[k])) && |written| == |old(written)| + SizeAll(calls[..i])
        invariant steady && !old(blocked) && (forall c :: c in calls ==> AllWell(c)) && |old(written)| + SizeAll(calls) <= 256 ==> !blocked
      {
        ghost var before := written;
        assert calls[i] in parent.inner && calls[i] in calls;
        SizeNext(calls, i);
        Run(calls[i]);
        PrefixOfPrefix(old(written), before, written);
        if !old(blocked) && !blocked { AllOkTwice(old(written), before, written); }
      }
      assert calls[..|calls|] == calls;
    }
  }

  /** Everything written since `start` ended well. */
  predicate AllOk(start: seq<Event>, word: seq<Event>) {
    |start| <= |word| && forall i :: |start| <= i < |word| ==> !EndsBadly(word[i])
  }

  /** A whole call was written since `start`, and everything in it ended well. */
  predicate Balanced(start: seq<Event>, word: seq<Event>) {
    |start| + 2 <= |word| && AllOk(start, word) && word[|word| - 1].edge == Ends(Ok)
  }

  lemma PrefixOfPrefix(a: seq<Event>, b: seq<Event>, c: seq<Event>)
    requires |a| <= |b| <= |c| && b[..|a|] == a && c[..|b|] == b
    ensures c[..|a|] == a
  {
  }

  lemma AllOkTwice(a: seq<Event>, b: seq<Event>, c: seq<Event>)
    requires AllOk(a, b) && AllOk(b, c) && c[..|b|] == b
    ensures AllOk(a, c)
  {
    forall i | |a| <= i < |c| ensures !EndsBadly(c[i]) {
      if i < |b| { assert c[i] == b[i]; }
    }
  }

  lemma BalancedBy(start: seq<Event>, begun: seq<Event>, inside: seq<Event>, word: seq<Event>)
    requires |begun| == |start| + 1 && |begun| <= |inside| && |word| == |inside| + 1
    requires inside[..|begun|] == begun && word[..|inside|] == inside && AllOk(begun, inside)
    requires begun[|start|].edge.Begins? && word[|inside|].edge == Ends(Ok)
    ensures Balanced(start, word)
  {
    forall i | |start| <= i < |word| ensures !EndsBadly(word[i]) {
      if i < |inside| { assert word[i] == inside[i]; }
      if i == |start| { assert inside[i] == begun[i]; }
    }
  }

  /**
   One traced action. The written word is always a prefix of a well-bracketed one within the limits,
   nothing begins after a failure, and success is reported exactly when the word is complete and
   every end in it is ok. With a sink that accepts everything, that is exactly when the business and all
   observed calls end well and there are no more than 256 events to write.
   */
  method WithTrace(action: Call, businessOk: bool, steady: bool) returns (success: bool, ghost word: seq<Event>, ghost sizes: seq<nat>)
    requires action.operation == Action
    ensures |sizes| == |word| && Sum(sizes) <= 0x1_0000
    ensures IsPrefix(word) && NothingBeginsAfterFailure(word) && |word| <= 256
    ensures success ==> businessOk && (forall c :: c in action.inner ==> AllWell(c)) && |word| == Size(action)
    ensures steady ==> (success <==> businessOk && (forall c :: c in action.inner ==> AllWell(c)) && Size(action) <= 256)
    ensures success <==> IsComplete(word) && AllOk([], word)
  {
    hide OpenAfter, Opened, Rising, NothingBeginsAfterFailure;
    var context := new Context(steady);
    var id := context.Begin(Action);
    if id.None? {
      return false, context.written, context.sizes;
    }
    context.RunAll(action, action.inner);
    ghost var inside := context.written;
    var ending := if businessOk && !context.blocked then Ok else BusinessFailed;
    var ok := context.End(id.value, Action, ending);
    success := businessOk && ok && !context.broken && !context.blocked;
    word, sizes := context.written, context.sizes;
    if ok && ending != Ok { assert EndsBadly(word[|inside|]); }
    assert AllOk([], word) <==> !AnyFailure(word);
  }
}
