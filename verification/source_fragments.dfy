/** Fragments of a source body: exact slices, and complete sets that cover the body once. */
module SourceFragments {
  import opened CoreModel
  import opened Governances
  import opened Wrappers

  type Bytes = seq<bv8>

  datatype Source = Source(id: Identifier, space: Identifier, governance: Governance, content: Bytes, length: nat) {
    /** What the constructor lets through. */
    predicate Valid() { governance.Valid() && content != [] && length == |content| }
  }

  datatype Fragment = Fragment(
    id: Identifier, space: Identifier, source: Identifier, governance: Governance,
    ordinal: nat, start: nat, end: nat, content: Bytes)
  {
    predicate Valid() { governance.Valid() && start < end && end - start == |content| }
  }

  /** The fragment is an exact slice of this active source, under governance no weaker. */
  predicate Resolves(f: Fragment, s: Source)
    requires f.Valid() && s.Valid()
  {
    && f.source == s.id && f.space == s.space
    && s.governance.deletion == Active && NoWeaker(f.governance, s.governance)
    && f.end <= |s.content| && s.content[f.start..f.end] == f.content
  }

  function ResolutionError(f: Fragment, s: Source): Reason
    requires f.Valid() && s.Valid()
  {
    if f.source != s.id then IdentityMismatch
    else if f.space != s.space then NamespaceMismatch
    else if s.governance.deletion != Active then RecallBlocked
    else if !NoWeaker(f.governance, s.governance) then GovernanceMismatch
    else SourceSliceMismatch
  }

  method ValidateResolution(f: Fragment, s: Source) returns (r: Result<(), Reason>)
    requires f.Valid() && s.Valid()
    ensures r == if Resolves(f, s) then Success(()) else Failure(ResolutionError(f, s))
    ensures r.Success? <==>
              && f.source == s.id && f.space == s.space && s.governance.deletion == Active && NoWeaker(f.governance, s.governance)
              && f.end <= |s.content| && |f.content| == f.end - f.start
              && forall i :: 0 <= i < |f.content| ==> f.content[i] == s.content[f.start + i]
  {
    if f.source != s.id { return Failure(IdentityMismatch); }
    if f.space != s.space { return Failure(NamespaceMismatch); }
    if s.governance.deletion != Active { return Failure(RecallBlocked); }
    var derived := ValidateDerivation(f.governance, [s.governance]);
    assert s.governance in [s.governance];
    if derived.Failure? { return Failure(derived.error); }
    if f.end > |s.content| || s.content[f.start..f.end] != f.content { return Failure(SourceSliceMismatch); }
    return Success(());
  }

  // ---------------------------------------------------------------- complete sets

  /** The first `n` identities are distinct. */
  predicate IdsDistinct(fs: seq<Fragment>, n: nat)
    requires n <= |fs|
  {
    forall i, j :: 0 <= i < j < n ==> fs[i].id != fs[j].id
  }

  /** Where the fragment at `i` has to start. */
  function StartOf(fs: seq<Fragment>, i: nat): nat
    requires i <= |fs|
  {
    if i == 0 then 0 else fs[i - 1].end
  }

  /** The fragment at `i` resolves and stands in its place. */
  predicate Placed(s: Source, fs: seq<Fragment>, i: nat)
    requires s.Valid() && i < |fs| && fs[i].Valid()
  {
    Resolves(fs[i], s) && fs[i].governance == s.governance && fs[i].ordinal == i && fs[i].start == StartOf(fs, i)
  }

  /** A complete set: every fragment resolves, in order, without gap or overlap, to the end. */
  predicate Complete(s: Source, fs: seq<Fragment>)
    requires s.Valid() && forall f :: f in fs ==> f.Valid()
  {
    && fs != [] && IdsDistinct(fs, |fs|)
    && (forall i :: 0 <= i < |fs| ==> Placed(s, fs, i))
    && StartOf(fs, |fs|) == s.length
  }

  function Joined(fs: seq<Fragment>): Bytes {
    if fs == [] then [] else Joined(fs[..|fs| - 1]) + fs[|fs| - 1].content
  }

  /** What completeness says of one place. */
  lemma PlaceOf(s: Source, fs: seq<Fragment>, i: nat)
    requires s.Valid() && (forall f :: f in fs ==> f.Valid()) && Complete(s, fs) && i < |fs|
    ensures fs[i].start == StartOf(fs, i) && fs[i].start < fs[i].end <= |s.content|
    ensures s.content[fs[i].start..fs[i].end] == fs[i].content
  {
    hide NoWeaker;
    assert fs[i] in fs && Placed(s, fs, i);
  }

  /** A complete set joins to the source body. */
  lemma CompleteSetJoins(s: Source, fs: seq<Fragment>)
    requires s.Valid() && (forall f :: f in fs ==> f.Valid()) && Complete(s, fs)
    ensures Joined(fs) == s.content
  {
    hide Placed;
    JoinedUpTo(s, fs, |fs|);
    assert fs[..|fs|] == fs && s.content[..|s.content|] == s.content;
  }

  lemma {:induction false} JoinedUpTo(s: Source, fs: seq<Fragment>, n: nat)
    requires s.Valid() && (forall f :: f in fs ==> f.Valid()) && Complete(s, fs) && n <= |fs|
    ensures StartOf(fs, n) <= |s.content| && Joined(fs[..n]) == s.content[..StartOf(fs, n)]
  {
    hide Complete;
    if n > 0 {
      JoinedUpTo(s, fs, n - 1);
      PlaceOf(s, fs, n - 1);
      var f := fs[n - 1];
      assert fs[..n][..n - 1] == fs[..n - 1];
      assert s.content[..f.end] == s.content[..f.start] + s.content[f.start..f.end];
    }
  }

  /** In a complete set every byte of the body lies in exactly one fragment. */
  lemma CoveredOnce(s: Source, fs: seq<Fragment>, at: nat)
    requires s.Valid() && (forall f :: f in fs ==> f.Valid()) && Complete(s, fs) && at < |s.content|
    ensures exists i :: 0 <= i < |fs| && fs[i].start <= at < fs[i].end
    ensures forall i, j :: 0 <= i < |fs| && 0 <= j < |fs| && fs[i].start <= at < fs[i].end && fs[j].start <= at < fs[j].end ==> i == j
  {
    hide Placed;
    assert StartOf(fs, |fs|) == |s.content|;
    CoveredUpTo(s, fs, |fs|, at);
    forall i, j | 0 <= i < j < |fs| ensures fs[i].end <= fs[j].start { EndsBefore(s, fs, i, j); }
  }

  lemma {:induction false} CoveredUpTo(s: Source, fs: seq<Fragment>, n: nat, at: nat)
    requires s.Valid() && (forall f :: f in fs ==> f.Valid()) && Complete(s, fs) && n <= |fs| && at < StartOf(fs, n)
    ensures exists i :: 0 <= i < n && fs[i].start <= at < fs[i].end
  {
    hide Complete;
    PlaceOf(s, fs, n - 1);
    if at < fs[n - 1].start { CoveredUpTo(s, fs, n - 1, at); }
  }

  lemma {:induction false} EndsBefore(s: Source, fs: seq<Fragment>, i: nat, j: nat)
    requires s.Valid() && (forall f :: f in fs ==> f.Valid()) && Complete(s, fs) && i < j < |fs|
    ensures fs[i].end <= fs[j].start
    decreases j
  {
    hide Complete;
    PlaceOf(s, fs, j);
    if i < j - 1 {
      EndsBefore(s, fs, i, j - 1);
      PlaceOf(s, fs, j - 1);
    }
  }

  /** Accepts exactly the complete sets. */
  method ValidateCompleteSet(s: Source, fs: seq<Fragment>) returns (r: Result<(), Reason>)
    requires s.Valid() && forall f :: f in fs ==> f.Valid()
    ensures r.Success? <==> Complete(s, fs)
    ensures r.Failure? && r.error != FragmentSetMismatch ==>
      exists i :: 0 <= i < |fs| && !Resolves(fs[i], s) && r.error == ResolutionError(fs[i], s)
    ensures (forall i :: 0 <= i < |fs| ==> Resolves(fs[i], s)) && r.Failure? ==> r.error == FragmentSetMismatch
  {
    hide Resolves;
    if fs == [] { return Failure(FragmentSetMismatch); }
    var ids: set<Identifier> := {};
    var nextByte := 0;
    assert forall i :: 0 <= i < |fs| ==> fs[i] in fs;
    for i := 0 to |fs|
      invariant nextByte == StartOf(fs, i)
      invariant forall k :: k in ids <==> exists j :: 0 <= j < i && fs[j].id == k
      invariant IdsDistinct(fs, i)
      invariant forall j :: 0 <= j < i ==> Placed(s, fs, j)
    {
      var resolved := ValidateResolution(fs[i], s);
      if resolved.Failure? {
        assert !Placed(s, fs, i);
        return Failure(resolved.error);
      }
      if fs[i].id in ids { return Failure(FragmentSetMismatch); }
      if fs[i].governance != s.governance || fs[i].ordinal != i || fs[i].start != nextByte {
        assert !Placed(s, fs, i);
        return Failure(FragmentSetMismatch);
      }
      ids := ids + {fs[i].id};
      nextByte := fs[i].end;
    }
    if nextByte != s.length { return Failure(FragmentSetMismatch); }
    return Success(());
  }
}
