/**
 The desktop worker and the original requests it keeps for a retry: what may fill, replace or drop
 them, over every sequence of commands and every outcome of the backend.
 */
module Desktop {
  import opened Wrappers

  type Identifier = string

  /** A prepared capture or delete request, kept until it is settled. */
  datatype Original = CaptureRequest(id: Identifier) | DeletionRequest(id: Identifier)

  datatype Command =
    | OpenPlain | OpenEncrypted | InitializeKey | Migrate | Verify | Rebuild | Refresh
    | Import(file: Identifier) | Update(file: Identifier) | Export | Search(string) | SelectLineage(lineage: Identifier)
    | SelectVersion(version: Identifier) | SelectResult(resultLineage: Identifier, resultSource: Identifier) | Delete | RetryOriginal
    | ResumeDelete(request: Identifier) | InspectRecovery | Abandon | Shutdown

  datatype DesktopError = RecoveryRequired | SelectionInvalid | ObservationConsumed | ApplicationFailed

  /** What the backend was made to do for one command, in order. */
  datatype Event =
    | Mutates                      // an import, update or deletion was handed to the backend
    | Keeps(request: Original)     // a prepared request was stored
    | Commits(request: Original)   // a stored capture was committed
    | Completes(request: Original) // a stored deletion produced completed evidence
    | Abandons                     // an abandonment succeeded

  /** Evidence of a deletion that ran: completed or not. */
  datatype Evidence = Evidence(request: Identifier, completed: bool)

  /** The library behind the controller; only an encrypted one keeps originals. */
  class Backend {
    const encrypted: bool
    /** Nothing the library is asked to do fails; a deletion may still end without completed evidence. */
    const reliable: bool
    var capture: Option<Original>
    var deletion: Option<Original>

    constructor (encrypted: bool, reliable: bool)
      ensures this.encrypted == encrypted && this.reliable == reliable && capture == None && deletion == None
    {
      this.encrypted, this.reliable := encrypted, reliable;
      capture, deletion := None, None;
    }

    ghost predicate Valid()
      reads this
    {
      && (!encrypted ==> capture == None && deletion == None)
      && (capture == None || deletion == None)
      && (capture.Some? ==> capture.value.CaptureRequest?) && (deletion.Some? ==> deletion.value.DeletionRequest?)
    }

    function HoldsOriginal(): bool
      reads this
    {
      capture.Some? || deletion.Some?
    }

    /** Imports or updates: prepares a request, keeps it, and drops it once it is committed. */
    method CaptureSource() returns (r: Result<(), DesktopError>, ghost did: seq<Event>)
      requires Valid() && !HoldsOriginal()
      modifies this
      ensures Valid() && deletion == None && did != [] && did[0] == Mutates
      ensures Explained(old(capture), capture, did)
      ensures r.Success? ==> capture == None && (encrypted ==> exists q :: did == [Mutates, Keeps(q), Commits(q)])
      ensures reliable ==> r.Success?
    {
      did := [Mutates];
      if !encrypted {
        var done: bool := *;
        return if reliable || done then Success(()) else Failure(ApplicationFailed), did;
      }
      var prepared := Prepare(reliable);
      if prepared.None? { return Failure(ApplicationFailed), did; }
      capture := Some(CaptureRequest(prepared.value));
      did := did + [Keeps(capture.value)];
      assert did[1] == Keeps(capture.value);
      var committed: bool := *;
      if !(reliable || committed) { return Failure(ApplicationFailed), did; }
      did := did + [Commits(capture.value)];
      capture := None;
      return Success(()), did;
    }

    method DeleteSourceLineage() returns (r: Result<Evidence, DesktopError>, ghost did: seq<Event>)
      requires Valid() && !HoldsOriginal()
      modifies this
      ensures Valid() && capture == None && did != [] && did[0] == Mutates
      ensures Explained(old(deletion), deletion, did)
      ensures r.Success? && encrypted ==> (deletion.Some? <==> !r.value.completed)
      ensures reliable ==> r.Success?
    {
      did := [Mutates];
      var prepared := Prepare(reliable);
      if prepared.None? { return Failure(ApplicationFailed), did; }
      if !encrypted {
        var completed: bool := *;
        return Success(Evidence(prepared.value, completed)), did;
      }
      deletion := Some(DeletionRequest(prepared.value));
      did := did + [Keeps(deletion.value)];
      assert did[1] == Keeps(deletion.value);
      ghost var ran;
      r, ran := RunDeletion();
      did := did + ran;
      assert did[1] == Keeps(DeletionRequest(prepared.value));
    }

    /** Runs the kept deletion; only completed evidence lets go of it. */
    method RunDeletion() returns (r: Result<Evidence, DesktopError>, ghost did: seq<Event>)
      requires Valid() && deletion.Some?
      modifies this
      ensures Valid() && capture == old(capture) && Mutates !in did
      ensures Explained(old(deletion), deletion, did)
      ensures r.Success? ==> r.value.request == old(deletion).value.id && (deletion == if r.value.completed then None else old(deletion))
      ensures r.Failure? ==> deletion == old(deletion)
      ensures did == if r.Success? && r.value.completed then [Completes(old(deletion).value)] else []
      ensures reliable ==> r.Success?
    {
      did := [];
      var executed: bool := *;
      if !(reliable || executed) { return Failure(ApplicationFailed), did; }
      var completed: bool := *;
      var evidence := Evidence(deletion.value.id, completed);
      if completed {
        did := [Completes(deletion.value)];
        deletion := None;
      }
      return Success(evidence), did;
    }

    /** Runs the kept request again, exactly as it was stored. */
    method Retry() returns (r: Result<Option<Evidence>, DesktopError>, ghost did: seq<Event>)
      requires Valid()
      modifies this
      ensures Valid() && Mutates !in did
      ensures Explained(old(capture), capture, did) && Explained(old(deletion), deletion, did)
      ensures (capture.Some? ==> capture == old(capture)) && (deletion.Some? ==> deletion == old(deletion))
      ensures old(capture) == None && old(deletion) == None ==> r == Failure(RecoveryRequired)
      ensures reliable && (old(capture).Some? || old(deletion).Some?) ==> r.Success?
      ensures r.Success? && old(capture).Some? ==> did == [Commits(old(capture).value)]
      ensures r.Success? && old(deletion).Some? ==>
        r.value.Some? && did == if r.value.value.completed then [Completes(old(deletion).value)] else []
    {
      did := [];
      if !encrypted { return Failure(RecoveryRequired), did; }
      if capture.Some? {
        var committed: bool := *;
        if !(reliable || committed) { return Failure(ApplicationFailed), did; }
        did := [Commits(capture.value)];
        capture := None;
        return Success(None), did;
      }
      if deletion.Some? {
        var evidence;
        evidence, did := RunDeletion();
        return match evidence case Success(e) => Success(Some(e)) case Failure(e) => Failure(e), did;
      }
      return Failure(RecoveryRequired), did;
    }

    method ResumeDelete(request: Identifier) returns (r: Result<Option<Evidence>, DesktopError>, ghost did: seq<Event>)
      requires Valid() && !HoldsOriginal()
      modifies this
      ensures Valid() && capture == None && Mutates !in did
      ensures Explained(old(deletion), deletion, did)
      ensures !encrypted ==> r == Failure(RecoveryRequired) && did == []
      ensures encrypted ==> did != [] && did[0] == Keeps(DeletionRequest(request))
      ensures encrypted && reliable ==> r.Success?
    {
      if !encrypted { return Failure(RecoveryRequired), []; }
      deletion := Some(DeletionRequest(request));
      ghost var kept := [Keeps(deletion.value)];
      ghost var ran;
      r, ran := Retry();
      did := kept + ran;
      assert did[0] == Keeps(DeletionRequest(request));
    }

    method AbandonCapture() returns (r: Result<(), DesktopError>, ghost did: seq<Event>)
      requires Valid()
      modifies this
      ensures Valid() && deletion == old(deletion) && Mutates !in did
      ensures Explained(old(capture), capture, did)
      ensures r.Success? ==> capture == None
      ensures r.Failure? ==> capture == old(capture)
      ensures encrypted && reliable ==> r.Success?
    {
      did := [];
      if !encrypted { return Failure(RecoveryRequired), did; }
      var abandoned: bool := *;
      if !(reliable || abandoned) { return Failure(ApplicationFailed), did; }
      did := [Abandons];
      capture := None;
      return Success(()), did;
    }
  }

  /** Preparing a request assigns it an identity, or fails. */
  method Prepare(reliable: bool) returns (r: Option<Identifier>)
    ensures reliable ==> r.Some?
  {
    var ok: bool := *;
    var id: Identifier := *;
    return if reliable || ok then Some(id) else None;
  }

  /** The request left its slot for one of the reasons that may take it out. */
  predicate Released(request: Original, events: seq<Event>) {
    || Commits(request) in events || Completes(request) in events
    || (request.CaptureRequest? && Abandons in events)
  }

  /** What was kept stays, unless released; what is kept now was kept before or is newly prepared. */
  predicate Explained(before: Option<Original>, after: Option<Original>, events: seq<Event>) {
    && (before.Some? && after != before ==> Released(before.value, events))
    && (after.Some? && after != before ==> Keeps(after.value) in events && before == None)
  }

  // ---------------------------------------------------------------- the worker

  predicate Changes(c: Command) { c.OpenPlain? || c.OpenEncrypted? || c.InitializeKey? || c.Migrate? }

  predicate NewWork(c: Command) { c.Import? || c.Update? || c.Delete? }

  predicate Refreshes(c: Command) {
    c.OpenPlain? || c.OpenEncrypted? || c.Refresh? || c.RetryOriginal? || c.ResumeDelete? || c.Abandon?
  }

  /** The originals kept at one moment. */
  datatype Slots = Slots(capture: Option<Original>, deletion: Option<Original>) {
    predicate Valid() {
      && (capture == None || deletion == None)
      && (capture.Some? ==> capture.value.CaptureRequest?) && (deletion.Some? ==> deletion.value.DeletionRequest?)
    }

    predicate Keeping(r: Original) { capture == Some(r) || deletion == Some(r) }
  }

  /** What decides about new work: the view, the recovery state, what was found unfinished, and what is kept. */
  datatype Moment = Moment(viewValid: bool, recoveryKnown: bool, target: Option<Identifier>, deletions: seq<Identifier>, kept: Slots)

  /** A valid view, known recovery, nothing unfinished and nothing kept. */
  const CLEAR := Moment(true, true, None, [], Slots(None, None))

  class Engine {
    /** An acceptance run is observed once and can do nothing else. */
    const observation: bool
    const acceptance: bool
    var controller: Backend?
    var selected: Option<Identifier>
    var encrypted: bool
    var target: Option<Identifier>
    var deletions: seq<Identifier>
    var recoveryKnown: bool
    var viewValid: bool
    var plainConsumed: bool
    var encryptedConsumed: bool

    constructor (observation: bool, acceptance: bool)
      ensures this.observation == observation && controller == null && Valid() && !viewValid && !recoveryKnown
    {
      this.observation, this.acceptance := observation, acceptance;
      controller, selected, encrypted, target, deletions := null, None, false, None, [];
      recoveryKnown, viewValid, plainConsumed, encryptedConsumed := false, false, false, false;
    }

    function Owned(): set<object>
      reads this
    {
      if controller == null then {} else {controller}
    }

    ghost function Kept(): Slots
      reads this, Owned()
    {
      if controller == null then Slots(None, None) else Slots(controller.capture, controller.deletion)
    }

    ghost predicate Valid()
      reads this, Owned()
    {
      && (controller != null ==> controller.Valid())
      && (observation ==> Kept() == Slots(None, None))
    }

    ghost function Sees(): Moment
      reads this, Owned()
    {
      Moment(viewValid, recoveryKnown, target, deletions, Kept())
    }

    function Held(): bool
      reads this, Owned()
    {
      controller != null && controller.HoldsOriginal()
    }

    /** New work has to wait: no valid view, unknown recovery, or something pending. */
    function Blocked(): bool
      reads this, Owned()
    {
      !viewValid || Held() || target.Some? || deletions != [] || !recoveryKnown
    }

    method Forget()
      modifies this`recoveryKnown, this`target, this`deletions
      ensures !recoveryKnown && target == None && deletions == []
    {
      recoveryKnown, target, deletions := false, None, [];
    }

    /** Reads the recovery state again; without an open encrypted library, deletions stay unknown. */
    method Inspect() returns (r: Result<(), DesktopError>)
      modifies this`recoveryKnown, this`target, this`deletions
      ensures r.Success? <==> recoveryKnown
      ensures r.Success? && controller != null && !controller.encrypted ==> target == None && deletions == []
    {
      Forget();
      if controller != null {
        if controller.encrypted {
          var read: bool := *;
          if !read { return Failure(ApplicationFailed); }
          target := Prepare(false);
          deletions := *;
        }
      } else if encrypted {
        var read: bool := *;
        if read { target := Prepare(false); }
        return Failure(RecoveryRequired);
      }
      recoveryKnown := true;
      return Success(());
    }

    /** Reads the catalog again; the selection follows what is there. */
    method RefreshSources() returns (ok: bool)
      modifies this`selected
    {
      ok := *;
      selected := Prepare(false);
    }

    method RefreshAfterWrite() returns (failed: bool)
      modifies this`selected, this`recoveryKnown, this`target, this`deletions
    {
      var refreshed := false;
      if controller != null { refreshed := RefreshSources(); }
      var inspected := Inspect();
      return !refreshed || inspected.Failure?;
    }

    /** An observed run admits one preparatory step and one opening. */
    method Observe(command: Command) returns (proceed: bool, error: Option<DesktopError>)
      requires observation
      modifies this`plainConsumed, this`encryptedConsumed
      ensures proceed <==> command.OpenEncrypted? && !old(encryptedConsumed)
      ensures error == None <==> proceed || (command.OpenPlain? && !old(plainConsumed) && !old(encryptedConsumed))
      ensures encryptedConsumed == (old(encryptedConsumed) || proceed)
      ensures plainConsumed == (old(plainConsumed) || (error == None && !proceed))
    {
      if command.OpenPlain? && !plainConsumed && !encryptedConsumed {
        plainConsumed := true;
        return false, None;
      }
      if command.OpenEncrypted? && !encryptedConsumed {
        encryptedConsumed := true;
        return true, None;
      }
      return false, Some(ObservationConsumed);
    }

    /** The checks before a command acts. */
    method Admit(command: Command) returns (error: Option<DesktopError>)
      requires Valid()
      modifies this`recoveryKnown, this`target, this`deletions
      ensures error == None && Changes(command) ==> !Held()
      ensures error == None && (command.Import? || command.Update? || command.Delete?) ==> old(Sees()) == CLEAR && !Held()
      ensures old(Sees()) == CLEAR && !acceptance ==> error == None
      ensures error == None && !Changes(command) && !command.Refresh? ==>
                target == old(target) && deletions == old(deletions) && recoveryKnown == old(recoveryKnown)
    {
      if command.OpenEncrypted? || (encrypted && command.Refresh?) { Forget(); }
      if acceptance {
        var profile: bool := *;
        if !profile { return Some(ApplicationFailed); }
      }
      if Changes(command) {
        if Held() { return Some(RecoveryRequired); }
        Forget();
      }
      if NewWork(command) && Blocked() { return Some(RecoveryRequired); }
      return None;
    }

    /** Opens a library, or prepares it: whatever was open is dropped first. */
    method ChangeLibrary(command: Command) returns (error: Option<DesktopError>)
      requires Valid() && Changes(command) && !Held()
      modifies this
      ensures Valid() && Kept() == Slots(None, None) && fresh(Owned()) && viewValid == old(viewValid)
    {
      controller := null;
      encrypted := !command.OpenPlain?;
      recoveryKnown := false;
      var succeeds: bool := *;
      if !succeeds { return Some(ApplicationFailed); }
      if command.OpenPlain? {
        var reliable: bool := *;
        var backend := new Backend(false, reliable);
        var listed := RefreshSources();
        if !listed { return Some(ApplicationFailed); }
        controller := backend;
        var inspected := Inspect();
        return if inspected.Failure? then Some(inspected.error) else None;
      }
      if command.OpenEncrypted? {
        var reliable: bool := *;
        controller := new Backend(true, reliable);
        selected := Prepare(false);
        target := Prepare(false);
        deletions := *;
        recoveryKnown := true;
      }
      return None;
    }

    /** Imports, updates and deletions, with the catalog read again afterwards. */
    method DoNewWork(command: Command) returns (error: Option<DesktopError>, refreshFailed: bool, ghost did: seq<Event>)
      requires Valid() && NewWork(command) && !Held()
      modifies this`selected, Owned()
      ensures Mutates in did <==> controller != null && (command.Import? || old(selected).Some?)
      ensures controller == old(controller) && (controller != null ==> controller.Valid())
      ensures Explained(old(Kept()).capture, Kept().capture, did) && Explained(old(Kept()).deletion, Kept().deletion, did)
    {
      did, refreshFailed := [], false;
      if controller == null { return Some(RecoveryRequired), false, did; }
      if !command.Import? && selected.None? { return Some(SelectionInvalid), false, did; }
      if command.Delete? {
        var evidence;
        evidence, did := controller.DeleteSourceLineage();
        if evidence.Failure? { return Some(evidence.error), false, did; }
      } else {
        var receipt;
        receipt, did := controller.CaptureSource();
        if receipt.Failure? { return Some(receipt.error), false, did; }
      }
      var refreshed := RefreshSources();
      return None, !refreshed, did;
    }

    /** Retry, resumption and abandonment of what is kept or was found unfinished. */
    method Recover(command: Command) returns (error: Option<DesktopError>, refreshFailed: bool, ghost did: seq<Event>)
      requires Valid() && (command.RetryOriginal? || command.ResumeDelete? || command.Abandon?)
      modifies this`selected, this`recoveryKnown, this`target, this`deletions, Owned()
      ensures controller == old(controller) && (controller != null ==> controller.Valid())
      ensures Explained(old(Kept()).capture, Kept().capture, did) && Explained(old(Kept()).deletion, Kept().deletion, did)
      ensures Mutates !in did
    {
      did := [];
      if command.RetryOriginal? {
        if controller == null { return Some(RecoveryRequired), false, did; }
        var retried;
        retried, did := controller.Retry();
        if retried.Failure? { return Some(retried.error), false, did; }
      } else if command.ResumeDelete? {
        if Held() || command.request !in deletions || controller == null { return Some(RecoveryRequired), false, did; }
        var resumed;
        resumed, did := controller.ResumeDelete(command.request);
        if resumed.Failure? { return Some(resumed.error), false, did; }
      } else {
        if target.None? { return Some(RecoveryRequired), false, did; }
        if controller != null {
          var abandoned;
          abandoned, did := controller.AbandonCapture();
          if abandoned.Failure? { return Some(abandoned.error), false, did; }
        } else {
          var abandoned: bool := *;
          if !abandoned { return Some(ApplicationFailed), false, did; }
        }
      }
      refreshFailed := RefreshAfterWrite();
      error := None;
    }

    /** Commands that read, check or select; they leave what is kept alone. */
    method Read(command: Command) returns (error: Option<DesktopError>, refreshFailed: bool)
      requires !Changes(command) && !NewWork(command)
      modifies this`selected, this`recoveryKnown, this`target, this`deletions
      ensures command.Refresh? ==> !refreshFailed
    {
      refreshFailed := false;
      var succeeds: bool := *;
      if command.InspectRecovery? {
        var inspected := Inspect();
        return if inspected.Failure? then Some(inspected.error) else None, false;
      }
      if command.Shutdown? || (controller == null && !(encrypted && (command.Verify? || command.Rebuild?))) {
        return Some(RecoveryRequired), false;
      }
      if !succeeds { return Some(ApplicationFailed), false; }
      if command.Refresh? {
        var listed := RefreshSources();
        if !listed { return Some(ApplicationFailed), false; }
        if encrypted {
          target := Prepare(false);
          deletions := *;
          recoveryKnown := true;
        } else {
          var inspected := Inspect();
          return if inspected.Failure? then Some(inspected.error) else None, false;
        }
      } else if command.Rebuild? && !encrypted {
        var refreshed := RefreshSources();
        return None, !refreshed;
      } else if command.SelectLineage? {
        selected := Some(command.lineage);
      } else if command.SelectResult? {
        selected := Some(command.resultLineage);
      }
      error := None;
    }

    method Perform(command: Command) returns (error: Option<DesktopError>, refreshFailed: bool, ghost did: seq<Event>)
      requires Valid()
      modifies this, Owned()
      ensures Valid() && viewValid == old(viewValid)
      ensures Owned() == old(Owned()) || fresh(Owned()) || Owned() == {}
      ensures Explained(old(Kept()).capture, Kept().capture, did) && Explained(old(Kept()).deletion, Kept().deletion, did)
      ensures Mutates in did ==> (command.Import? || command.Update? || command.Delete?) && old(Sees()) == CLEAR
      ensures old(Sees()) == CLEAR && !observation && !acceptance && old(controller) != null
              && (command.Import? || ((command.Update? || command.Delete?) && old(selected).Some?))
              ==> Mutates in did
      ensures command in {OpenPlain, OpenEncrypted, InitializeKey, Migrate} && old(Kept()) != Slots(None, None)
              ==> error.Some? && controller == old(controller)
      ensures observation ==> did == []
      ensures command in {OpenPlain, OpenEncrypted, Refresh} ==> !refreshFailed
    {
      error, refreshFailed, did := None, false, [];
      if observation {
        var proceed;
        proceed, error := Observe(command);
        if !proceed { return error, false, did; }
      }
      error := Admit(command);
      if error.Some? { return error, false, did; }
      if Changes(command) {
        error := ChangeLibrary(command);
      } else if NewWork(command) {
        error, refreshFailed, did := DoNewWork(command);
      } else if command.RetryOriginal? || command.ResumeDelete? || command.Abandon? {
        error, refreshFailed, did := Recover(command);
      } else {
        error, refreshFailed := Read(command);
      }
    }

    /**
     One command. What is kept changes only for a reason the events name, new work reaches the backend
     only when nothing is pending, and a view is shown only while it is valid.
     */
    method Execute(command: Command) returns (error: Option<DesktopError>, shown: bool, ghost did: seq<Event>)
      requires Valid()
      modifies this, Owned()
      ensures Valid() && (Owned() == old(Owned()) || fresh(Owned()) || Owned() == {})
      ensures Explained(old(Kept()).capture, Kept().capture, did) && Explained(old(Kept()).deletion, Kept().deletion, did)
      ensures Mutates in did ==> (command.Import? || command.Update? || command.Delete?) && old(Sees()) == CLEAR
      ensures old(Sees()) == CLEAR && !observation && !acceptance && old(controller) != null
              && (command.Import? || ((command.Update? || command.Delete?) && old(selected).Some?))
              ==> Mutates in did
      ensures command in {OpenPlain, OpenEncrypted, InitializeKey, Migrate} && old(Kept()) != Slots(None, None)
              ==> error.Some? && controller == old(controller)
      ensures observation ==> did == []
      ensures error.Some? ==> !viewValid
      ensures shown <==> viewValid && controller != null
      ensures error == None && command in {OpenPlain, OpenEncrypted, Refresh} ==> viewValid
      ensures viewValid && !old(viewValid) ==>
                error == None && (command in {OpenPlain, OpenEncrypted, Refresh, RetryOriginal, Abandon} || command.ResumeDelete?)
    {
      hide Explained, Released, Slots.Valid;
      var refreshFailed;
      error, refreshFailed, did := Perform(command);
      if error.Some? {
        viewValid := false;
        if observation {
          controller := null;
          Forget();
        }
      } else if Refreshes(command) {
        viewValid := true;
      }
      shown := controller != null && viewValid;
      if refreshFailed {
        shown := false;
        viewValid := false;
      }
    }
  }

  // ---------------------------------------------------------------- runs

  /** One command of a session: how things stood before it, and what the backend did for it. */
  datatype Turn = Turn(command: Command, moment: Moment, did: seq<Event>)

  /** What one command does to the kept originals, and when it may hand new work to the backend. */
  ghost predicate Turned(before: Slots, t: Turn, after: Slots) {
    && Explained(before.capture, after.capture, t.did) && Explained(before.deletion, after.deletion, t.did)
    && t.moment.kept == before
    && (Mutates in t.did ==> (t.command.Import? || t.command.Update? || t.command.Delete?) && t.moment == CLEAR)
  }

  /** A session: what was kept before and after every command. */
  ghost predicate Session(kept: seq<Slots>, turns: seq<Turn>) {
    && |kept| == |turns| + 1
    && (forall i :: 0 <= i < |kept| ==> kept[i].Valid())
    && forall i :: 0 <= i < |turns| ==> Turned(kept[i], turns[i], kept[i + 1])
  }

  ghost predicate ReleasedBetween(request: Original, turns: seq<Turn>, i: nat, k: nat)
    requires i <= k <= |turns|
  {
    exists j :: i <= j < k && Released(request, turns[j].did)
  }

  /** An original that was kept and is kept no longer was committed, completed, or abandoned by a command in between. */
  lemma {:induction false} KeptUntilReleased(kept: seq<Slots>, turns: seq<Turn>, request: Original, i: nat, k: nat)
    requires Session(kept, turns) && i <= k < |kept| && kept[i].Keeping(request)
    ensures kept[k].Keeping(request) || ReleasedBetween(request, turns, i, k)
    decreases k - i
  {
    if i < k && !Released(request, turns[i].did) {
      assert kept[i].Valid() && kept[i + 1].Valid() && Turned(kept[i], turns[i], kept[i + 1]);
      KeptUntilReleased(kept, turns, request, i + 1, k);
    }
  }

  /** An original is never replaced by another: between two different ones the slot was released. */
  lemma NeverReplaced(kept: seq<Slots>, turns: seq<Turn>, request: Original, other: Original, i: nat, k: nat)
    requires Session(kept, turns) && i <= k < |kept| && request != other
    requires kept[i].Keeping(request) && kept[k].Keeping(other)
    ensures ReleasedBetween(request, turns, i, k)
  {
    KeptUntilReleased(kept, turns, request, i, k);
    assert kept[k].Valid();
  }

  /** From the moment an original is kept until it is released, no command hands new work to the backend. */
  lemma NewWorkWaits(kept: seq<Slots>, turns: seq<Turn>, request: Original, i: nat, k: nat)
    requires Session(kept, turns) && i <= k < |turns| && kept[i].Keeping(request)
    ensures Mutates !in turns[k].did || ReleasedBetween(request, turns, i, k)
  {
    KeptUntilReleased(kept, turns, request, i, k);
    assert Turned(kept[k], turns[k], kept[k + 1]);
  }

  /**
   The worker's life: one command after another. Whatever the commands are and however the backend
   answers, the record is a session, the two slots are never both filled, nothing that was kept is
   given up unless released, and new work runs only for an import, an update or a deletion, with a valid
   view, known recovery, nothing unfinished and nothing kept.
   */
  method Serve(engine: Engine, commands: seq<Command>) returns (ghost kept: seq<Slots>, ghost turns: seq<Turn>)
    requires engine.Valid()
    modifies engine, engine.Owned()
    ensures engine.Valid() && Session(kept, turns) && |turns| == |commands|
    ensures kept[0] == old(engine.Kept()) && kept[|commands|] == engine.Kept()
    ensures forall i :: 0 <= i < |kept| ==> kept[i].capture == None || kept[i].deletion == None
    ensures forall i :: 0 <= i < |commands| ==>
              && turns[i].command == commands[i] && turns[i].moment.kept == kept[i]
              && (Mutates in turns[i].did ==> (commands[i].Import? || commands[i].Update? || commands[i].Delete?) && turns[i].moment == CLEAR)
    ensures forall request, i, k :: 0 <= i <= k < |kept| && kept[i].Keeping(request) && !kept[k].Keeping(request) ==>
              ReleasedBetween(request, turns, i, k)
  {
    kept, turns := [engine.Kept()], [];
    for i := 0 to |commands|
      invariant engine.Valid() && (engine.Owned() <= old(engine.Owned()) || fresh(engine.Owned()))
      invariant Session(kept, turns) && |turns| == i && kept[i] == engine.Kept() && kept[0] == old(engine.Kept())
      invariant forall k :: 0 <= k < i ==> turns[k].command == commands[k]
    {
      ghost var moment, before := engine.Sees(), engine.Kept();
      var error, shown;
      ghost var did;
      error, shown, did := engine.Execute(commands[i]);
      ghost var turn := Turn(commands[i], moment, did);
      assert Turned(before, turn, engine.Kept());
      ghost var past, earlier := kept, turns;
      kept, turns := kept + [engine.Kept()], turns + [turn];
      assert forall k :: 0 <= k < i ==> Turned(past[k], earlier[k], past[k + 1]);
    }
    forall i | 0 <= i < |kept| ensures kept[i].capture == None || kept[i].deletion == None { assert kept[i].Valid(); }
    forall i | 0 <= i < |commands|
      ensures turns[i].moment.kept == kept[i]
      ensures Mutates in turns[i].did ==> (commands[i].Import? || commands[i].Update? || commands[i].Delete?) && turns[i].moment == CLEAR
    {
      assert Turned(kept[i], turns[i], kept[i + 1]);
    }
    forall request, i, k | 0 <= i <= k < |kept| && kept[i].Keeping(request) && !kept[k].Keeping(request)
      ensures ReleasedBetween(request, turns, i, k)
    {
      KeptUntilReleased(kept, turns, request, i, k);
    }
  }
}
