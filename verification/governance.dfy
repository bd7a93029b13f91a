/** Governance of derived objects is never weaker than that of what they are derived from. */
module Governances {
  import opened CoreModel
  import opened Timestamps
  import opened Wrappers

  datatype Sensitivity = Personal | Sensitive | Restricted {
    function Rank(): nat {
      match this
      case Personal => 0
      case Sensitive => 1
      case Restricted => 2
    }
  }

  datatype DeletionState = Active | Pending | Failed | Deleted

  /** The combinations of mode, expiry and policy the constructor admits. */
  datatype Retention = UntilDeleted | UntilTime(expiresAt: Timestamp) | Policy(policy: Identifier)

  datatype Governance = Governance(sensitivity: Sensitivity, retention: Retention, deletion: DeletionState, basis: Identifier) {
    predicate Valid() { retention.UntilTime? ==> retention.expiresAt.Valid() }
  }

  predicate RetentionNoLater(derived: Retention, source: Retention)
    requires derived.UntilTime? ==> derived.expiresAt.Valid()
    requires source.UntilTime? ==> source.expiresAt.Valid()
  {
    match (derived, source)
    case (UntilDeleted, UntilDeleted) => true
    case (UntilTime(_), UntilDeleted) => true
    case (UntilTime(d), UntilTime(s)) => NoLater(d, s)
    case (Policy(d), Policy(s)) => d == s
    case _ => false
  }

  /** The derived governance is acceptable over this one source. */
  predicate NoWeaker(derived: Governance, source: Governance)
    requires derived.Valid() && source.Valid()
  {
    && derived.sensitivity.Rank() >= source.sensitivity.Rank()
    && RetentionNoLater(derived.retention, source.retention)
    && (source.deletion != Active ==> derived.deletion != Active)
  }

  /** Derivation is a preorder: a chain of acceptable derivations is acceptable end to end. */
  lemma DerivationIsPreorder(a: Governance, b: Governance, c: Governance)
    requires a.Valid() && b.Valid() && c.Valid()
    ensures NoWeaker(a, a)
    ensures NoWeaker(a, b) && NoWeaker(b, c) ==> NoWeaker(a, c)
  {
  }

  /**
   When data may still be kept: until deletion, until an instant, or as long as a policy says. `ends`
   gives each policy's end, which the derivation check never looks at.
   */
  predicate MayBeKept(r: Retention, at: Timestamp, ends: Identifier -> Option<Timestamp>)
    requires at.Valid() && (r.UntilTime? ==> r.expiresAt.Valid())
  {
    match r
    case UntilDeleted => true
    case UntilTime(t) => at.Place() < t.Place()
    case Policy(p) => match ends(p) case None => true case Some(t) => t.Valid() && at.Place() < t.Place()
  }

  /** Whatever the policies mean, nothing derived may be kept, or recalled, longer than its source. */
  lemma DerivedNeverOutlives(derived: Governance, source: Governance, at: Timestamp, ends: Identifier -> Option<Timestamp>)
    requires derived.Valid() && source.Valid() && at.Valid() && NoWeaker(derived, source)
    ensures MayBeKept(derived.retention, at, ends) ==> MayBeKept(source.retention, at, ends)
    ensures derived.deletion == Active ==> source.deletion == Active
    ensures source.sensitivity == Restricted ==> derived.sensitivity == Restricted
    ensures derived.sensitivity == Personal ==> source.sensitivity == Personal
  {
  }

  /**
   Exactly which retention may be derived from which: one that ends no later under every meaning of the
   policies, and no policy where the source names none.
   */
  lemma RetentionExactly(derived: Retention, source: Retention)
    requires derived.UntilTime? ==> derived.expiresAt.Valid()
    requires source.UntilTime? ==> source.expiresAt.Valid()
    ensures RetentionNoLater(derived, source) <==>
              && (derived.Policy? ==> source.Policy?)
              && forall at: Timestamp, ends: Identifier -> Option<Timestamp> ::
                   at.Valid() && MayBeKept(derived, at, ends) ==> MayBeKept(source, at, ends)
  {
    if !RetentionNoLater(derived, source) && (derived.Policy? ==> source.Policy?) {
      var at, ends := KeptTooLong(derived, source);
    }
  }

  /** A moment, and a meaning of the policies, at which the derived data may still be kept and the source no longer. */
  lemma KeptTooLong(derived: Retention, source: Retention) returns (at: Timestamp, ends: Identifier -> Option<Timestamp>)
    requires derived.UntilTime? ==> derived.expiresAt.Valid()
    requires source.UntilTime? ==> source.expiresAt.Valid()
    requires !RetentionNoLater(derived, source) && (derived.Policy? ==> source.Policy?)
    ensures at.Valid() && MayBeKept(derived, at, ends) && !MayBeKept(source, at, ends)
  {
    var early := Timestamp("", if derived.UntilTime? then derived.expiresAt.second - 1 else 0, false, "");
    match source
    case UntilDeleted =>
      at, ends := early, _ => None;
      assert false;
    case UntilTime(s) =>
      at, ends := s, _ => None;
    case Policy(p) =>
      at, ends := early, q => if q == p then Some(early) else None;
  }

  /** Governance may be derived exactly when it is as strict in each of its three parts. */
  lemma NoWeakerExactly(derived: Governance, source: Governance)
    requires derived.Valid() && source.Valid()
    ensures NoWeaker(derived, source) <==>
              && RetentionNoLater(derived.retention, source.retention)
              && (derived.deletion == Active ==> source.deletion == Active)
              && match source.sensitivity
                 case Personal => true
                 case Sensitive => derived.sensitivity == Sensitive || derived.sensitivity == Restricted
                 case Restricted => derived.sensitivity == Restricted
  {
  }

  method IsRetentionNoLater(derived: Retention, source: Retention) returns (ok: bool)
    requires derived.UntilTime? ==> derived.expiresAt.Valid()
    requires source.UntilTime? ==> source.expiresAt.Valid()
    ensures ok == RetentionNoLater(derived, source)
  {
    match (derived, source) {
      case (UntilDeleted, UntilDeleted) => return true;
      case (UntilTime(_), UntilDeleted) => return true;
      case (UntilTime(d), UntilTime(s)) =>
        var order := Compare(d, s);
        return order != Greater;
      case (Policy(d), Policy(s)) => return d == s;
      case _ => return false;
    }
  }

  /** Governance over a list of sources: refused without any, otherwise no weaker than each. */
  method ValidateDerivation(derived: Governance, sources: seq<Governance>) returns (r: Result<(), Reason>)
    requires derived.Valid() && forall s :: s in sources ==> s.Valid()
    ensures r.Success? <==> sources != [] && forall s :: s in sources ==> NoWeaker(derived, s)
    ensures r.Failure? ==> r.error == if sources == [] then MissingReference else GovernanceMismatch
  {
    if sources == [] { return Failure(MissingReference); }
    for i := 0 to |sources|
      invariant forall j :: 0 <= j < i ==> NoWeaker(derived, sources[j])
    {
      assert sources[i] in sources;
      var noLater := IsRetentionNoLater(derived.retention, sources[i].retention);
      if derived.sensitivity.Rank() < sources[i].sensitivity.Rank() || !noLater
         || (sources[i].deletion != Active && derived.deletion == Active) {
        assert !NoWeaker(derived, sources[i]);
        return Failure(GovernanceMismatch);
      }
    }
    return Success(());
  }
}
