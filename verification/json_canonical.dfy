/** The canonical form of a value keeps what it denotes and is determined by it. */
module JsonCanonical {
  import opened DecimalNumbers
  import opened JsonValues
  import opened Wrappers

  // ---------------------------------------------------------------- sorting

  lemma {:induction false} InsertAdds(m: Member, ms: seq<Member>)
    ensures multiset(Insert(m, ms)) == multiset(ms) + multiset{m}
  {
    if ms != [] && !KeyLess(m.key, ms[0].key) {
      InsertAdds(m, ms[1..]);
      assert ms == [ms[0]] + ms[1..];
    }
  }

  lemma {:induction false} SortPermutes(ms: seq<Member>)
    ensures multiset(Sort(ms)) == multiset(ms)
  {
    if ms != [] {
      SortPermutes(ms[1..]);
      InsertAdds(ms[0], Sort(ms[1..]));
      assert ms == [ms[0]] + ms[1..];
    }
  }

  lemma SortContents(ms: seq<Member>)
    ensures |Sort(ms)| == |ms| && forall m :: m in Sort(ms) <==> m in ms
  {
    SortPermutes(ms);
    assert |multiset(Sort(ms))| == |Sort(ms)| && |multiset(ms)| == |ms|;
    forall m ensures m in Sort(ms) <==> m in ms {
      assert m in Sort(ms) <==> m in multiset(Sort(ms));
    }
  }

  lemma {:induction false} InsertSorted(m: Member, ms: seq<Member>)
    requires KeysSorted(ms) && forall x :: x in ms ==> x.key != m.key
    ensures KeysSorted(Insert(m, ms))
  {
    if ms != [] {
      KeyOrderTotal(m.key, ms[0].key);
      if KeyLess(m.key, ms[0].key) {
        forall i | 0 < i < |ms| ensures KeyLess(m.key, ms[i].key) { KeyOrderTransitive(m.key, ms[0].key, ms[i].key); }
      } else {
        InsertSorted(m, ms[1..]);
        InsertAdds(m, ms[1..]);
        var rest := Insert(m, ms[1..]);
        forall i | 0 <= i < |rest| ensures KeyLess(ms[0].key, rest[i].key) {
          assert rest[i] in multiset(rest);
          assert rest[i] == m || rest[i] in ms[1..];
        }
      }
    }
  }

  lemma {:induction false} SortSorts(ms: seq<Member>)
    requires KeysDistinct(ms)
    ensures KeysSorted(Sort(ms))
  {
    if ms != [] {
      SortSorts(ms[1..]);
      SortContents(ms[1..]);
      InsertSorted(ms[0], Sort(ms[1..]));
    }
  }

  lemma SortedIsDistinct(ms: seq<Member>)
    requires KeysSorted(ms)
    ensures KeysDistinct(ms)
  {
    forall i, j | 0 <= i < j < |ms| ensures ms[i].key != ms[j].key { KeyOrderTotal(ms[i].key, ms[j].key); }
  }

  /** Sorted members are determined by which members they are. */
  lemma {:induction false} SortedUnique(a: seq<Member>, b: seq<Member>)
    requires KeysSorted(a) && KeysSorted(b) && forall m :: m in a <==> m in b
    ensures a == b
  {
    if a == [] {
      assert forall i :: 0 <= i < |b| ==> b[i] in b;
    } else {
      assert a[0] in b;
      SameFirst(a, b);
      SortedIsDistinct(a);
      SortedIsDistinct(b);
      TailContents(a);
      TailContents(b);
      SortedUnique(a[1..], b[1..]);
      assert a == [a[0]] + a[1..] && b == [b[0]] + b[1..];
    }
  }

  lemma TailContents(ms: seq<Member>)
    requires KeysDistinct(ms) && ms != []
    ensures forall m :: m in ms[1..] <==> m in ms && m != ms[0]
  {
    forall m | m in ms[1..] ensures m in ms && m != ms[0] {
      var i :| 0 <= i < |ms[1..]| && ms[1..][i] == m;
      assert ms[i + 1] == m;
    }
  }

  lemma SameFirst(a: seq<Member>, b: seq<Member>)
    requires KeysSorted(a) && KeysSorted(b) && a != [] && b != [] && a[0] in b && b[0] in a
    ensures a[0] == b[0]
  {
    if a[0] != b[0] {
      KeyOrderTotal(a[0].key, b[0].key);
    }
  }

  // ---------------------------------------------------------------- meaning

  /** The map of distinct members, entry by entry. */
  lemma {:induction false} DenotedMembers(ms: seq<Member>)
    requires KeysDistinct(ms) && forall i :: 0 <= i < |ms| ==> WellFormed(ms[i].value)
    ensures forall k :: k in DenoteMembers(ms) <==> exists i :: 0 <= i < |ms| && ms[i].key == k
    ensures forall i :: 0 <= i < |ms| ==> DenoteMembers(ms)[ms[i].key] == Denote(ms[i].value)
  {
    if ms != [] {
      var rest := ms[1..];
      DenotedMembers(rest);
      assert forall i :: 0 < i < |ms| ==> ms[i] == rest[i - 1];
      forall k ensures k in DenoteMembers(ms) <==> exists i :: 0 <= i < |ms| && ms[i].key == k {
        if k in DenoteMembers(rest) {
          var i :| 0 <= i < |rest| && rest[i].key == k;
          assert ms[i + 1].key == k;
        }
        if i :| 0 < i < |ms| && ms[i].key == k { assert rest[i - 1].key == k; }
      }
    }
  }

  /** Reordering distinct members changes no map. */
  lemma SortKeepsMap(ms: seq<Member>)
    requires KeysDistinct(ms) && forall i :: 0 <= i < |ms| ==> WellFormed(ms[i].value)
    ensures KeysDistinct(Sort(ms)) && (forall i :: 0 <= i < |Sort(ms)| ==> WellFormed(Sort(ms)[i].value))
    ensures DenoteMembers(Sort(ms)) == DenoteMembers(ms)
  {
    hide WellFormed, Denote, Sort, DenoteMembers;
    var sorted := Sort(ms);
    SortContents(ms);
    SortSorts(ms);
    SortedIsDistinct(sorted);
    forall i | 0 <= i < |sorted| ensures WellFormed(sorted[i].value) { assert sorted[i] in ms; }
    DenotedMembers(ms);
    DenotedMembers(sorted);
    forall k ensures k in DenoteMembers(sorted) <==> k in DenoteMembers(ms) {
      if i :| 0 <= i < |sorted| && sorted[i].key == k { assert sorted[i] in ms; }
      if i :| 0 <= i < |ms| && ms[i].key == k { assert ms[i] in sorted; }
    }
    forall k | k in DenoteMembers(sorted) ensures DenoteMembers(sorted)[k] == DenoteMembers(ms)[k] {
      var i :| 0 <= i < |sorted| && sorted[i].key == k;
      assert sorted[i] in ms;
    }
  }

  /** The canonical form is a value the parser could have built, as deep as the original. */
  lemma {:induction false} CanonIsValue(v: Value, depth: nat)
    requires WellFormed(v) && Printable(v) && Within(v, depth)
    ensures WellFormed(Canon(v)) && Printable(Canon(v)) && Within(Canon(v), depth)
    decreases v
  {
    match v
    case Number(token) => NormalizeKeepsValue(token);
    case Array(items) =>
      forall i | 0 <= i < |items| ensures WellFormed(Canon(items[i])) && Printable(Canon(items[i])) && Within(Canon(items[i]), depth + 1) {
        CanonIsValue(items[i], depth + 1);
      }
    case Object(members) =>
      var canon := CanonMembers(members);
      forall i | 0 <= i < |members| ensures WellFormed(canon[i].value) && Printable(canon[i].value) && Within(canon[i].value, depth + 1) {
        CanonIsValue(members[i].value, depth + 1);
      }
      SortKeepsMap(canon);
      SortContents(canon);
      forall i | 0 <= i < |Sort(canon)| ensures Printable(Sort(canon)[i].value) && Within(Sort(canon)[i].value, depth + 1) {
        assert Sort(canon)[i] in canon;
      }
    case _ =>
  }

  /** The canonical form denotes what the value denotes. */
  lemma {:induction false} CanonKeepsMeaning(v: Value, depth: nat)
    requires WellFormed(v) && Printable(v) && Within(v, depth)
    ensures WellFormed(Canon(v)) && Denote(Canon(v)) == Denote(v)
    decreases v
  {
    CanonIsValue(v, depth);
    match v
    case Number(token) => NormalizeKeepsValue(token);
    case Array(items) =>
      forall i | 0 <= i < |items| ensures WellFormed(Canon(items[i])) && Denote(Canon(items[i])) == Denote(items[i]) {
        CanonKeepsMeaning(items[i], depth + 1);
      }
      CanonArrayMeaning(items);
    case Object(members) =>
      forall i | 0 <= i < |members|
        ensures WellFormed(CanonMembers(members)[i].value) && Denote(CanonMembers(members)[i].value) == Denote(members[i].value)
      {
        CanonKeepsMeaning(members[i].value, depth + 1);
      }
      CanonObjectMeaning(members);
    case _ =>
  }

  lemma CanonObjectMeaning(ms: seq<Member>)
    requires KeysDistinct(ms) && forall i :: 0 <= i < |ms| ==> WellFormed(ms[i].value) && Printable(ms[i].value)
    requires forall i :: 0 <= i < |ms| ==>
      WellFormed(CanonMembers(ms)[i].value) && Denote(CanonMembers(ms)[i].value) == Denote(ms[i].value)
    ensures WellFormed(Canon(Object(ms))) && Denote(Canon(Object(ms))) == Denote(Object(ms))
  {
    var canon := CanonMembers(ms);
    assert Canon(Object(ms)) == Object(Sort(canon));
    CanonMembersMap(ms);
    SortKeepsMap(canon);
    assert Denote(Object(Sort(canon))) == Mapping(DenoteMembers(Sort(canon)));
  }

  lemma CanonArrayMeaning(items: seq<Value>)
    requires forall i :: 0 <= i < |items| ==> WellFormed(items[i]) && Printable(items[i])
    requires forall i :: 0 <= i < |items| ==> WellFormed(Canon(items[i])) && Denote(Canon(items[i])) == Denote(items[i])
    ensures Denote(Canon(Array(items))) == Denote(Array(items))
  {
    var a, b := Canon(Array(items)), Array(items);
    assert Denote(a).items == Denote(b).items;
  }

  lemma {:induction false} CanonMembersMap(ms: seq<Member>)
    requires forall i :: 0 <= i < |ms| ==> WellFormed(ms[i].value) && Printable(ms[i].value)
    requires forall i :: 0 <= i < |ms| ==>
      WellFormed(CanonMembers(ms)[i].value) && Denote(CanonMembers(ms)[i].value) == Denote(ms[i].value)
    ensures DenoteMembers(CanonMembers(ms)) == DenoteMembers(ms)
  {
    if ms != [] {
      var rest := ms[1..];
      assert CanonMembers(ms)[1..] == CanonMembers(rest);
      assert forall i :: 0 <= i < |rest| ==> CanonMembers(rest)[i] == CanonMembers(ms)[i + 1];
      CanonMembersMap(rest);
    }
  }

  /** Values with one meaning have one canonical form. */
  lemma {:induction false} CanonUnique(v: Value, w: Value)
    requires WellFormed(v) && Printable(v) && WellFormed(w) && Printable(w) && Denote(v) == Denote(w)
    ensures Canon(v) == Canon(w)
    decreases v
  {
    match v
    case Number(token) => NormalizeDecidesEquality(token, w.token);
    case Array(items) =>
      assert Denote(v).items == Denote(w).items;
      forall i | 0 <= i < |items| ensures Canon(items[i]) == Canon(w.items[i]) {
        assert Denote(items[i]) == Denote(v).items[i] == Denote(w).items[i] == Denote(w.items[i]);
        CanonUnique(items[i], w.items[i]);
      }
      assert Canon(v).items == Canon(w).items;
    case Object(members) =>
      assert DenoteMembers(members) == DenoteMembers(w.members);
      DenotedMembers(members);
      DenotedMembers(w.members);
      forall i, j | 0 <= i < |members| && 0 <= j < |w.members| && members[i].key == w.members[j].key
        ensures Canon(members[i].value) == Canon(w.members[j].value)
      {
        CanonUnique(members[i].value, w.members[j].value);
      }
      SharesMembers(members, w.members);
      SharesMembers(w.members, members);
      SortContents(CanonMembers(members));
      SortContents(CanonMembers(w.members));
      SortSorts(CanonMembers(members));
      SortSorts(CanonMembers(w.members));
      SortedUnique(Sort(CanonMembers(members)), Sort(CanonMembers(w.members)));
    case _ =>
  }

  lemma SharesMembers(a: seq<Member>, b: seq<Member>)
    requires KeysDistinct(a) && forall i :: 0 <= i < |a| ==> WellFormed(a[i].value) && Printable(a[i].value)
    requires KeysDistinct(b) && forall i :: 0 <= i < |b| ==> WellFormed(b[i].value) && Printable(b[i].value)
    requires DenoteMembers(a) == DenoteMembers(b)
    requires forall i, j :: 0 <= i < |a| && 0 <= j < |b| && a[i].key == b[j].key ==> Canon(a[i].value) == Canon(b[j].value)
    ensures forall m :: m in CanonMembers(a) ==> m in CanonMembers(b)
  {
    DenotedMembers(a);
    DenotedMembers(b);
    var from, to := CanonMembers(a), CanonMembers(b);
    forall i | 0 <= i < |from| ensures from[i] in to {
      assert a[i].key in DenoteMembers(b);
      var j :| 0 <= j < |b| && b[j].key == a[i].key;
      assert to[j] == from[i];
    }
  }

  /** The canonical form is its own canonical form. */
  lemma CanonIdempotent(v: Value, depth: nat)
    requires WellFormed(v) && Printable(v) && Within(v, depth)
    ensures WellFormed(Canon(v)) && Printable(Canon(v)) && Canon(Canon(v)) == Canon(v)
  {
    CanonIsValue(v, depth);
    CanonKeepsMeaning(v, depth);
    CanonUnique(Canon(v), v);
  }
}
