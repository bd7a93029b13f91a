/**
 The pre-image of a capture request's fingerprint. Every part is self-delimiting, so two requests
 with one pre-image agree on every encoded field.
 */
module CaptureFingerprint {
  import opened ByteCodec
  import opened Objects
  import opened Wrappers

  /** Enumerations stand as their stored names, instants as their original texts. */
  datatype Governance = Governance(names: seq<Bytes>, expiresAt: Option<Bytes>, policy: Option<Bytes>) {
    /** Sensitivity, egress policy, retention mode, deletion state and policy basis. */
    predicate Typed() { |names| == 5 && TextsTyped(names) && OptionTyped(expiresAt) && OptionTyped(policy) }
  }

  datatype Fragment = Fragment(
    /** Identity, namespace, source, the three parts of the digest, creation time. */
    texts: seq<Bytes>,
    ordinal: nat,
    start: nat,
    end: nat,
    headings: Option<seq<Bytes>>,
    governance: Governance,
    /** Type, identity and version of the segmenter. */
    segmenter: seq<Bytes>)
  {
    predicate Typed() {
      && |texts| == 7 && TextsTyped(texts) && ordinal < U64_LIMIT && start < U64_LIMIT && end < U64_LIMIT
      && (headings.Some? ==> |headings.value| < U64_LIMIT && TextsTyped(headings.value))
      && governance.Typed() && |segmenter| == 3 && TextsTyped(segmenter)
    }
  }

  datatype Capture = Capture(
    originBinding: Bytes,
    /** Identity, lineage, namespace, kind, media type, the three parts of the digest, origin, three instants. */
    texts: seq<Bytes>,
    version: nat,
    length: nat,
    title: Option<Bytes>,
    originRef: Option<Bytes>,
    supersedes: seq<Bytes>,
    governance: Governance,
    producer: seq<Bytes>,
    fragments: seq<Fragment>)
  {
    predicate Typed() {
      && TextTyped(originBinding) && |texts| == 12 && TextsTyped(texts) && version < U64_LIMIT && length < U64_LIMIT
      && OptionTyped(title) && OptionTyped(originRef) && |supersedes| < U64_LIMIT && TextsTyped(supersedes)
      && governance.Typed() && |producer| == 3 && TextsTyped(producer)
      && |fragments| < U64_LIMIT && forall i :: 0 <= i < |fragments| ==> fragments[i].Typed()
    }
  }

  predicate TextTyped(t: Bytes) { |t| < U64_LIMIT }

  predicate TextsTyped(ts: seq<Bytes>) { forall i :: 0 <= i < |ts| ==> TextTyped(ts[i]) }

  predicate OptionTyped(t: Option<Bytes>) { t.Some? ==> TextTyped(t.value) }

  // ---------------------------------------------------------------- encoding

  function Number(n: nat): Bytes { BigEndian(n % U64_LIMIT, 8) }

  function Text(t: Bytes): Bytes { Number(|t|) + t }

  function Texts(ts: seq<Bytes>): Bytes {
    if ts == [] then [] else Text(ts[0]) + Texts(ts[1..])
  }

  function Optional(t: Option<Bytes>): Bytes {
    match t
    case None => Number(0)
    case Some(s) => Number(1) + Text(s)
  }

  function Counted(ts: seq<Bytes>): Bytes { Number(|ts|) + Texts(ts) }

  function Headings(h: Option<seq<Bytes>>): Bytes {
    match h
    case None => Number(0)
    case Some(ts) => Number(1) + Counted(ts)
  }

  function GovernanceBytes(g: Governance): Bytes {
    Texts(g.names) + (Optional(g.expiresAt) + Optional(g.policy))
  }

  function FragmentBytes(f: Fragment): Bytes {
    Texts(f.texts) + (Number(f.ordinal) + (Number(f.start) + (Number(f.end)
      + (Headings(f.headings) + (GovernanceBytes(f.governance) + Texts(f.segmenter))))))
  }

  function FragmentsBytes(fs: seq<Fragment>): Bytes {
    if fs == [] then [] else FragmentBytes(fs[0]) + FragmentsBytes(fs[1..])
  }

  function InsertFragment(f: Fragment, fs: seq<Fragment>): seq<Fragment> {
    if fs == [] || f.ordinal <= fs[0].ordinal then [f] + fs else [fs[0]] + InsertFragment(f, fs[1..])
  }

  /** The fragments by ordinal, equal ordinals in their given order. */
  function SortFragments(fs: seq<Fragment>): seq<Fragment> {
    if fs == [] then [] else InsertFragment(fs[0], SortFragments(fs[1..]))
  }

  function Domain(): Bytes { Ascii("radishmemory.capture-attempt/1") + [0] }

  function Preimage(c: Capture): Bytes {
    Domain() + (Text(c.originBinding) + (Texts(c.texts) + (Number(c.version) + (Number(c.length)
      + (Optional(c.title) + (Optional(c.originRef) + (Counted(c.supersedes) + (GovernanceBytes(c.governance)
      + (Texts(c.producer) + (Number(|c.fragments|) + FragmentsBytes(SortFragments(c.fragments))))))))))))
  }

  // ---------------------------------------------------------------- the parts

  /** Texts carry their length in eight bytes; a missing part is the number zero, a present one follows a one. */
  lemma PartBytes(t: Bytes, ts: seq<Bytes>)
    requires |t| < U64_LIMIT && |ts| < U64_LIMIT
    ensures Text(t) == BigEndian(|t|, 8) + t
    ensures Optional(None) == BigEndian(0, 8) && Optional(Some(t)) == BigEndian(1, 8) + (BigEndian(|t|, 8) + t)
    ensures Counted(ts) == BigEndian(|ts|, 8) + Texts(ts)
    ensures Headings(None) == BigEndian(0, 8) && Headings(Some(ts)) == BigEndian(1, 8) + (BigEndian(|ts|, 8) + Texts(ts))
  {
    hide BigEndian;
    NumberBytes(0);
    NumberBytes(1);
    NumberBytes(|t|);
    NumberBytes(|ts|);
  }

  lemma NumberBytes(n: nat)
    requires n < U64_LIMIT
    ensures Number(n) == BigEndian(n, 8)
  {
    hide BigEndian;
    assert n % U64_LIMIT == n;
  }

  lemma GovernanceInOrder(g: Governance)
    ensures GovernanceBytes(g) == Texts(g.names) + Optional(g.expiresAt) + Optional(g.policy)
  {
    hide Texts, Optional;
    Regroup(Texts(g.names), Optional(g.expiresAt), Optional(g.policy));
  }

  // ---------------------------------------------------------------- splitting

  lemma NumbersSplit(m: nat, x: Bytes, n: nat, y: Bytes)
    requires m < U64_LIMIT && n < U64_LIMIT && Number(m) + x == Number(n) + y
    ensures m == n && x == y
  {
    hide BigEndian, Limit;
    Widths();
    NumberSplits(m, x, n, y, 8);
  }

  lemma TextSplits(a: Bytes, x: Bytes, b: Bytes, y: Bytes)
    requires TextTyped(a) && TextTyped(b) && Text(a) + x == Text(b) + y
    ensures a == b && x == y
  {
    hide Number;
    assert Number(|a|) + (a + x) == Text(a) + x && Number(|b|) + (b + y) == Text(b) + y;
    NumbersSplit(|a|, a + x, |b|, b + y);
    SameFront(a, x, b, y);
  }

  lemma {:induction false} TextsSplit(a: seq<Bytes>, x: Bytes, b: seq<Bytes>, y: Bytes)
    requires |a| == |b| && TextsTyped(a) && TextsTyped(b) && Texts(a) + x == Texts(b) + y
    ensures a == b && x == y
  {
    hide Text;
    if a == [] {
      assert Texts(a) + x == x && Texts(b) + y == y;
    } else {
      Regroup(Text(a[0]), Texts(a[1..]), x);
      Regroup(Text(b[0]), Texts(b[1..]), y);
      TextSplits(a[0], Texts(a[1..]) + x, b[0], Texts(b[1..]) + y);
      TextsSplit(a[1..], x, b[1..], y);
      assert a == [a[0]] + a[1..] && b == [b[0]] + b[1..];
    }
  }

  lemma Regroup(a: Bytes, b: Bytes, c: Bytes)
    ensures a + b + c == a + (b + c)
  {
  }

  lemma OptionalSplits(a: Option<Bytes>, x: Bytes, b: Option<Bytes>, y: Bytes)
    requires OptionTyped(a) && OptionTyped(b) && Optional(a) + x == Optional(b) + y
    ensures a == b && x == y
  {
    hide Number, Text;
    var p, q := if a.Some? then Text(a.value) + x else x, if b.Some? then Text(b.value) + y else y;
    if a.Some? { Regroup(Number(1), Text(a.value), x); }
    if b.Some? { Regroup(Number(1), Text(b.value), y); }
    NumbersSplit(if a.Some? then 1 else 0, p, if b.Some? then 1 else 0, q);
    if a.Some? { TextSplits(a.value, x, b.value, y); }
  }

  lemma CountedSplits(a: seq<Bytes>, x: Bytes, b: seq<Bytes>, y: Bytes)
    requires |a| < U64_LIMIT && |b| < U64_LIMIT && TextsTyped(a) && TextsTyped(b) && Counted(a) + x == Counted(b) + y
    ensures a == b && x == y
  {
    hide Number, Texts;
    Regroup(Number(|a|), Texts(a), x);
    Regroup(Number(|b|), Texts(b), y);
    NumbersSplit(|a|, Texts(a) + x, |b|, Texts(b) + y);
    TextsSplit(a, x, b, y);
  }

  lemma HeadingsSplit(a: Option<seq<Bytes>>, x: Bytes, b: Option<seq<Bytes>>, y: Bytes)
    requires a.Some? ==> |a.value| < U64_LIMIT && TextsTyped(a.value)
    requires b.Some? ==> |b.value| < U64_LIMIT && TextsTyped(b.value)
    requires Headings(a) + x == Headings(b) + y
    ensures a == b && x == y
  {
    hide Number, Counted;
    var p, q := if a.Some? then Counted(a.value) + x else x, if b.Some? then Counted(b.value) + y else y;
    if a.Some? { Regroup(Number(1), Counted(a.value), x); }
    if b.Some? { Regroup(Number(1), Counted(b.value), y); }
    NumbersSplit(if a.Some? then 1 else 0, p, if b.Some? then 1 else 0, q);
    if a.Some? { CountedSplits(a.value, x, b.value, y); }
  }

  lemma GovernanceSplits(a: Governance, x: Bytes, b: Governance, y: Bytes)
    requires a.Typed() && b.Typed() && GovernanceBytes(a) + x == GovernanceBytes(b) + y
    ensures a == b && x == y
  {
    hide Texts, Optional;
    Regroup(Texts(a.names), Optional(a.expiresAt) + Optional(a.policy), x);
    Regroup(Texts(b.names), Optional(b.expiresAt) + Optional(b.policy), y);
    Regroup(Optional(a.expiresAt), Optional(a.policy), x);
    Regroup(Optional(b.expiresAt), Optional(b.policy), y);
    TextsSplit(a.names, Optional(a.expiresAt) + (Optional(a.policy) + x), b.names, Optional(b.expiresAt) + (Optional(b.policy) + y));
    OptionalSplits(a.expiresAt, Optional(a.policy) + x, b.expiresAt, Optional(b.policy) + y);
    OptionalSplits(a.policy, x, b.policy, y);
  }

  /** The parts of a fragment after its texts, before what follows. */
  lemma FragmentTail(f: Fragment, x: Bytes)
    ensures FragmentBytes(f) + x == Texts(f.texts) + (Number(f.ordinal) + (Number(f.start) + (Number(f.end)
              + (Headings(f.headings) + (GovernanceBytes(f.governance) + (Texts(f.segmenter) + x))))))
  {
    hide Texts, Number, Headings, GovernanceBytes;
    var g := GovernanceBytes(f.governance) + Texts(f.segmenter);
    var h := Headings(f.headings) + g;
    var e := Number(f.end) + h;
    var s := Number(f.start) + e;
    Regroup(Texts(f.texts), Number(f.ordinal) + s, x);
    Regroup(Number(f.ordinal), s, x);
    Regroup(Number(f.start), e, x);
    Regroup(Number(f.end), h, x);
    Regroup(Headings(f.headings), g, x);
    Regroup(GovernanceBytes(f.governance), Texts(f.segmenter), x);
  }

  lemma FragmentSplits(a: Fragment, x: Bytes, b: Fragment, y: Bytes)
    requires a.Typed() && b.Typed() && FragmentBytes(a) + x == FragmentBytes(b) + y
    ensures a == b && x == y
  {
    hide Texts, Number, Headings, GovernanceBytes, FragmentBytes;
    FragmentTail(a, x);
    FragmentTail(b, y);
    var g, h := Texts(a.segmenter) + x, Texts(b.segmenter) + y;
    var p, q := GovernanceBytes(a.governance) + g, GovernanceBytes(b.governance) + h;
    var r, s := Headings(a.headings) + p, Headings(b.headings) + q;
    var t, u := Number(a.end) + r, Number(b.end) + s;
    var v, w := Number(a.start) + t, Number(b.start) + u;
    TextsSplit(a.texts, Number(a.ordinal) + v, b.texts, Number(b.ordinal) + w);
    NumbersSplit(a.ordinal, v, b.ordinal, w);
    NumbersSplit(a.start, t, b.start, u);
    NumbersSplit(a.end, r, b.end, s);
    HeadingsSplit(a.headings, p, b.headings, q);
    GovernanceSplits(a.governance, g, b.governance, h);
    TextsSplit(a.segmenter, x, b.segmenter, y);
  }

  lemma {:induction false} FragmentsSplit(a: seq<Fragment>, b: seq<Fragment>)
    requires |a| == |b| && FragmentsBytes(a) == FragmentsBytes(b)
    requires forall i :: 0 <= i < |a| ==> a[i].Typed() && b[i].Typed()
    ensures a == b
  {
    hide FragmentBytes;
    if a != [] {
      FragmentSplits(a[0], FragmentsBytes(a[1..]), b[0], FragmentsBytes(b[1..]));
      FragmentsSplit(a[1..], b[1..]);
      assert a == [a[0]] + a[1..] && b == [b[0]] + b[1..];
    }
  }

  lemma {:induction false} InsertKeeps(f: Fragment, fs: seq<Fragment>)
    ensures multiset(InsertFragment(f, fs)) == multiset(fs) + multiset{f}
    ensures |InsertFragment(f, fs)| == |fs| + 1
  {
    if fs != [] && f.ordinal > fs[0].ordinal {
      InsertKeeps(f, fs[1..]);
      assert fs == [fs[0]] + fs[1..];
    }
  }

  lemma {:induction false} SortKeeps(fs: seq<Fragment>)
    ensures multiset(SortFragments(fs)) == multiset(fs) && |SortFragments(fs)| == |fs|
  {
    if fs != [] {
      SortKeeps(fs[1..]);
      InsertKeeps(fs[0], SortFragments(fs[1..]));
      assert fs == [fs[0]] + fs[1..];
    }
  }

  predicate ByOrdinal(fs: seq<Fragment>) {
    forall i, j :: 0 <= i < j < |fs| ==> fs[i].ordinal <= fs[j].ordinal
  }

  /** The fragments of one ordinal, in their order. */
  function OfOrdinal(fs: seq<Fragment>, ordinal: nat): seq<Fragment> {
    if fs == [] then [] else (if fs[0].ordinal == ordinal then [fs[0]] else []) + OfOrdinal(fs[1..], ordinal)
  }

  lemma {:induction false} InsertOrders(f: Fragment, fs: seq<Fragment>)
    requires ByOrdinal(fs)
    ensures ByOrdinal(InsertFragment(f, fs))
  {
    if fs != [] && f.ordinal > fs[0].ordinal {
      InsertOrders(f, fs[1..]);
      InsertedIn(f, fs[1..]);
      FirstOrders(fs[0], InsertFragment(f, fs[1..]));
    }
  }

  lemma FirstOrders(f: Fragment, fs: seq<Fragment>)
    requires ByOrdinal(fs) && forall g <- fs :: f.ordinal <= g.ordinal
    ensures ByOrdinal([f] + fs)
  {
    assert forall i :: 0 <= i < |fs| ==> ([f] + fs)[i + 1] == fs[i] && fs[i] in fs;
  }

  lemma InsertedIn(f: Fragment, fs: seq<Fragment>)
    ensures forall g <- InsertFragment(f, fs) :: g == f || g in fs
  {
    InsertKeeps(f, fs);
    forall g | g in InsertFragment(f, fs) ensures g == f || g in fs { assert g in multiset(InsertFragment(f, fs)); }
  }

  lemma {:induction false} InsertKeepsOrder(f: Fragment, fs: seq<Fragment>, ordinal: nat)
    ensures OfOrdinal(InsertFragment(f, fs), ordinal) == OfOrdinal([f] + fs, ordinal)
  {
    if fs != [] && f.ordinal > fs[0].ordinal {
      InsertKeepsOrder(f, fs[1..], ordinal);
      assert InsertFragment(f, fs)[1..] == InsertFragment(f, fs[1..]);
      OneBeforeOthers(f, fs, ordinal);
    }
  }

  lemma OneBeforeOthers(f: Fragment, fs: seq<Fragment>, ordinal: nat)
    requires fs != [] && f.ordinal != fs[0].ordinal
    ensures OfOrdinal([f] + fs, ordinal) == (if fs[0].ordinal == ordinal then [fs[0]] else []) + OfOrdinal([f] + fs[1..], ordinal)
  {
    assert ([f] + fs)[1..] == fs && ([f] + fs[1..])[1..] == fs[1..];
  }

  /** Sorting lists the fragments by ordinal and leaves those of one ordinal in their order. */
  lemma {:induction false} SortIsStable(fs: seq<Fragment>, ordinal: nat)
    ensures ByOrdinal(SortFragments(fs)) && OfOrdinal(SortFragments(fs), ordinal) == OfOrdinal(fs, ordinal)
  {
    if fs != [] {
      SortIsStable(fs[1..], ordinal);
      InsertOrders(fs[0], SortFragments(fs[1..]));
      InsertKeepsOrder(fs[0], SortFragments(fs[1..]), ordinal);
      assert ([fs[0]] + SortFragments(fs[1..]))[1..] == SortFragments(fs[1..]);
    }
  }

  /** Fragments already listed by ordinal are encoded as they stand. */
  lemma {:induction false} SortedStay(fs: seq<Fragment>)
    requires ByOrdinal(fs)
    ensures SortFragments(fs) == fs
  {
    if fs != [] {
      SortedStay(fs[1..]);
      assert fs == [fs[0]] + fs[1..];
    }
  }

  lemma SortedTyped(fs: seq<Fragment>)
    requires forall i :: 0 <= i < |fs| ==> fs[i].Typed()
    ensures forall i :: 0 <= i < |SortFragments(fs)| ==> SortFragments(fs)[i].Typed()
  {
    SortKeeps(fs);
    forall i | 0 <= i < |SortFragments(fs)| ensures SortFragments(fs)[i].Typed() {
      assert SortFragments(fs)[i] in multiset(SortFragments(fs));
      assert SortFragments(fs)[i] in fs;
    }
  }

  /**
   Two requests with one pre-image agree on every encoded field; their fragments agree one by one in
   the order of their ordinals, and so are the same fragments.
   */
  lemma PreimageInjective(c: Capture, d: Capture)
    requires c.Typed() && d.Typed() && Preimage(c) == Preimage(d)
    ensures c.(fragments := []) == d.(fragments := [])
    ensures SortFragments(c.fragments) == SortFragments(d.fragments) && multiset(c.fragments) == multiset(d.fragments)
  {
    hide Domain, Text, Texts, Number, Optional, Counted, GovernanceBytes, FragmentsBytes, SortFragments;
    var f, g := FragmentsBytes(SortFragments(c.fragments)), FragmentsBytes(SortFragments(d.fragments));
    var a1, b1 := Number(|c.fragments|) + f, Number(|d.fragments|) + g;
    var a2, b2 := Texts(c.producer) + a1, Texts(d.producer) + b1;
    var a3, b3 := GovernanceBytes(c.governance) + a2, GovernanceBytes(d.governance) + b2;
    var a4, b4 := Counted(c.supersedes) + a3, Counted(d.supersedes) + b3;
    var a5, b5 := Optional(c.originRef) + a4, Optional(d.originRef) + b4;
    var a6, b6 := Optional(c.title) + a5, Optional(d.title) + b5;
    var a7, b7 := Number(c.length) + a6, Number(d.length) + b6;
    var a8, b8 := Number(c.version) + a7, Number(d.version) + b7;
    var a9, b9 := Texts(c.texts) + a8, Texts(d.texts) + b8;
    SameFront(Domain(), Text(c.originBinding) + a9, Domain(), Text(d.originBinding) + b9);
    TextSplits(c.originBinding, a9, d.originBinding, b9);
    TextsSplit(c.texts, a8, d.texts, b8);
    NumbersSplit(c.version, a7, d.version, b7);
    NumbersSplit(c.length, a6, d.length, b6);
    OptionalSplits(c.title, a5, d.title, b5);
    OptionalSplits(c.originRef, a4, d.originRef, b4);
    CountedSplits(c.supersedes, a3, d.supersedes, b3);
    GovernanceSplits(c.governance, a2, d.governance, b2);
    TextsSplit(c.producer, a1, d.producer, b1);
    NumbersSplit(|c.fragments|, f, |d.fragments|, g);
    SortKeeps(c.fragments);
    SortKeeps(d.fragments);
    SortedTyped(c.fragments);
    SortedTyped(d.fragments);
    FragmentsSplit(SortFragments(c.fragments), SortFragments(d.fragments));
  }

  /** With fragments listed by ordinal, as a complete set must be, the requests are equal. */
  lemma PreimageDeterminesCapture(c: Capture, d: Capture)
    requires c.Typed() && d.Typed() && Preimage(c) == Preimage(d)
    requires ByOrdinal(c.fragments) && ByOrdinal(d.fragments)
    ensures c == d
  {
    PreimageInjective(c, d);
    SortedStay(c.fragments);
    SortedStay(d.fragments);
  }

  // ---------------------------------------------------------------- the program

  /** The buffer the pre-image is written to, part by part. */
  class Codec {
    var bytes: Bytes

    constructor (domain: Bytes)
      ensures bytes == domain
    {
      bytes := domain;
    }

    method PutNumber(n: nat)
      modifies this
      ensures bytes == old(bytes) + Number(n)
    {
      bytes := bytes + BigEndian(n % U64_LIMIT, 8);
    }

    method PutText(t: Bytes)
      modifies this
      ensures bytes == old(bytes) + Text(t)
    {
      PutNumber(|t|);
      bytes := bytes + t;
      Regroup(old(bytes), Number(|t|), t);
    }

    method PutTexts(ts: seq<Bytes>)
      modifies this
      ensures bytes == old(bytes) + Texts(ts)
    {
      hide Text;
      for i := 0 to |ts|
        invariant bytes == old(bytes) + Texts(ts[..i])
      {
        PutText(ts[i]);
        TextsAppend(ts[..i], ts[i]);
        assert ts[..i + 1] == ts[..i] + [ts[i]];
        Regroup(old(bytes), Texts(ts[..i]), Text(ts[i]));
      }
      assert ts[..|ts|] == ts;
    }

    method PutOptional(t: Option<Bytes>)
      modifies this
      ensures bytes == old(bytes) + Optional(t)
    {
      hide Number, Text;
      match t
      case None => PutNumber(0);
      case Some(s) =>
        PutNumber(1);
        PutText(s);
        Regroup(old(bytes), Number(1), Text(s));
    }

    method PutCounted(ts: seq<Bytes>)
      modifies this
      ensures bytes == old(bytes) + Counted(ts)
    {
      hide Number, Texts;
      PutNumber(|ts|);
      PutTexts(ts);
      Regroup(old(bytes), Number(|ts|), Texts(ts));
    }

    method PutGovernance(g: Governance)
      modifies this
      ensures bytes == old(bytes) + GovernanceBytes(g)
    {
      hide Texts, Optional;
      PutTexts(g.names);
      PutOptional(g.expiresAt);
      PutOptional(g.policy);
      Regroup(old(bytes), Texts(g.names), Optional(g.expiresAt));
      Regroup(old(bytes), Texts(g.names) + Optional(g.expiresAt), Optional(g.policy));
      Regroup(Texts(g.names), Optional(g.expiresAt), Optional(g.policy));
    }

    method PutFragment(f: Fragment)
      modifies this
      ensures bytes == old(bytes) + FragmentBytes(f)
    {
      hide Texts, Number, Headings, Counted, GovernanceBytes, FragmentBytes;
      PutTexts(f.texts);
      PutNumber(f.ordinal);
      PutNumber(f.start);
      PutNumber(f.end);
      PutHeadings(f.headings);
      PutGovernance(f.governance);
      PutTexts(f.segmenter);
      FragmentInOrder(old(bytes), f);
    }

    method PutHeadings(h: Option<seq<Bytes>>)
      modifies this
      ensures bytes == old(bytes) + Headings(h)
    {
      hide Number, Counted;
      match h
      case None => PutNumber(0);
      case Some(ts) =>
        PutNumber(1);
        PutCounted(ts);
        Regroup(old(bytes), Number(1), Counted(ts));
    }
  }

  lemma {:induction false} TextsAppend(ts: seq<Bytes>, t: Bytes)
    ensures Texts(ts + [t]) == Texts(ts) + Text(t)
  {
    hide Text;
    if ts != [] {
      TextsAppend(ts[1..], t);
      assert (ts + [t])[1..] == ts[1..] + [t];
      Regroup(Text(ts[0]), Texts(ts[1..]), Text(t));
    }
  }

  lemma {:induction false} FragmentsAppend(fs: seq<Fragment>, f: Fragment)
    ensures FragmentsBytes(fs + [f]) == FragmentsBytes(fs) + FragmentBytes(f)
  {
    hide FragmentBytes;
    if fs != [] {
      FragmentsAppend(fs[1..], f);
      assert (fs + [f])[1..] == fs[1..] + [f];
      Regroup(FragmentBytes(fs[0]), FragmentsBytes(fs[1..]), FragmentBytes(f));
    }
  }

  /** One fragment, part after part, behind whatever was written before. */
  lemma FragmentInOrder(start: Bytes, f: Fragment)
    ensures start + Texts(f.texts) + Number(f.ordinal) + Number(f.start) + Number(f.end) + Headings(f.headings)
              + GovernanceBytes(f.governance) + Texts(f.segmenter) == start + FragmentBytes(f)
  {
    hide Texts, Number, Headings, GovernanceBytes;
    var a, b, c, d := Texts(f.texts), Number(f.ordinal), Number(f.start), Number(f.end);
    var e, g, h := Headings(f.headings), GovernanceBytes(f.governance), Texts(f.segmenter);
    Regroup(start + a + b + c + d + e, g, h);
    Regroup(start + a + b + c + d, e, g + h);
    Regroup(start + a + b + c, d, e + (g + h));
    Regroup(start + a + b, c, d + (e + (g + h)));
    Regroup(start + a, b, c + (d + (e + (g + h))));
    Regroup(start, a, b + (c + (d + (e + (g + h)))));
  }

  /** The whole request, part after part. */
  lemma CaptureInOrder(c: Capture)
    ensures Preimage(c) == Ascii("radishmemory.capture-attempt/1") + [0]
              + Text(c.originBinding) + Texts(c.texts) + Number(c.version) + Number(c.length) + Optional(c.title)
              + Optional(c.originRef) + Counted(c.supersedes) + GovernanceBytes(c.governance) + Texts(c.producer)
              + Number(|c.fragments|) + FragmentsBytes(SortFragments(c.fragments))
  {
    assert Domain() == Ascii("radishmemory.capture-attempt/1") + [0];
    hide Domain, Text, Texts, Number, Optional, Counted, GovernanceBytes, FragmentsBytes, SortFragments;
    CaptureGrouped(c);
  }

  lemma CaptureGrouped(c: Capture)
    ensures Domain() + Text(c.originBinding) + Texts(c.texts) + Number(c.version) + Number(c.length) + Optional(c.title)
              + Optional(c.originRef) + Counted(c.supersedes) + GovernanceBytes(c.governance) + Texts(c.producer)
              + Number(|c.fragments|) + FragmentsBytes(SortFragments(c.fragments)) == Preimage(c)
  {
    hide Domain, Text, Texts, Number, Optional, Counted, GovernanceBytes, FragmentsBytes, SortFragments;
    var s0, a, b, v, l := Domain(), Text(c.originBinding), Texts(c.texts), Number(c.version), Number(c.length);
    var t, o, p, g, r := Optional(c.title), Optional(c.originRef), Counted(c.supersedes), GovernanceBytes(c.governance), Texts(c.producer);
    var n, f := Number(|c.fragments|), FragmentsBytes(SortFragments(c.fragments));
    Regroup(s0 + a + b + v + l + t + o + p + g + r, n, f);
    Regroup(s0 + a + b + v + l + t + o + p + g, r, n + f);
    Regroup(s0 + a + b + v + l + t + o + p, g, r + (n + f));
    Regroup(s0 + a + b + v + l + t + o, p, g + (r + (n + f)));
    Regroup(s0 + a + b + v + l + t, o, p + (g + (r + (n + f))));
    Regroup(s0 + a + b + v + l, t, o + (p + (g + (r + (n + f)))));
    Regroup(s0 + a + b + v, l, t + (o + (p + (g + (r + (n + f))))));
    Regroup(s0 + a + b, v, l + (t + (o + (p + (g + (r + (n + f)))))));
    Regroup(s0 + a, b, v + (l + (t + (o + (p + (g + (r + (n + f))))))));
    Regroup(s0, a, b + (v + (l + (t + (o + (p + (g + (r + (n + f)))))))));
  }

  /** Writes the pre-image of a request. */
  method WritePreimage(c: Capture) returns (bytes: Bytes)
    ensures bytes == Preimage(c)
  {
    hide Domain, Text, Texts, Number, Optional, Counted, GovernanceBytes, FragmentBytes, SortFragments, Preimage;
    var codec := new Codec(Domain());
    codec.PutText(c.originBinding);
    codec.PutTexts(c.texts);
    codec.PutNumber(c.version);
    codec.PutNumber(c.length);
    codec.PutOptional(c.title);
    codec.PutOptional(c.originRef);
    codec.PutCounted(c.supersedes);
    codec.PutGovernance(c.governance);
    codec.PutTexts(c.producer);
    codec.PutNumber(|c.fragments|);
    var fragments := SortFragments(c.fragments);
    ghost var start := codec.bytes;
    for i := 0 to |fragments|
      invariant codec.bytes == start + FragmentsBytes(fragments[..i])
    {
      codec.PutFragment(fragments[i]);
      FragmentsAppend(fragments[..i], fragments[i]);
      assert fragments[..i + 1] == fragments[..i] + [fragments[i]];
      Regroup(start, FragmentsBytes(fragments[..i]), FragmentBytes(fragments[i]));
    }
    assert fragments[..|fragments|] == fragments;
    CaptureGrouped(c);
    return codec.bytes;
  }
}
