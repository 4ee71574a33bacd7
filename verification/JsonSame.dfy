/** What json_equal decides: two values are equal exactly when they are the same
    tree once the members of every object are put in key order. */
module JsonSame {
  import opened OrderedMap
  import opened Utf8
  import opened JsonStrings
  import opened JsonValues
  import opened JsonDump
  import opened JsonParse
  import opened JsonRoundTrip

  ghost predicate Ascending(ms: Members) {
    forall i, j :: 0 <= i < j < |ms| ==> CompareKeys(ms[i].0, ms[j].0) < 0
  }

  ghost predicate Contained(x: Members, y: Members) {
    forall i :: 0 <= i < |x| ==> x[i] in y
  }

  lemma {:induction false} HeadsAgree(x: Members, y: Members)
    requires Ascending(x) && Ascending(y) && Contained(x, y) && Contained(y, x) && x != [] && y != []
    ensures x[0] == y[0]
  {
    hide CompareKeys;
    assert x[0] in y && y[0] in x;
    var j :| 0 <= j < |y| && y[j] == x[0];
    var i :| 0 <= i < |x| && x[i] == y[0];
    if i > 0 && j > 0 {
      CompareAntisymmetric(x[0].0, y[0].0);
      assert false;
    }
  }

  lemma {:induction false} TailsAgree(x: Members, y: Members)
    requires Ascending(x) && Ascending(y) && Contained(x, y) && x != [] && y != [] && x[0] == y[0]
    ensures Ascending(x[1..]) && Contained(x[1..], y[1..])
  {
    hide CompareKeys;
    forall i | 0 <= i < |x[1..]| ensures x[1..][i] in y[1..] {
      assert x[i + 1] in y;
      var j :| 0 <= j < |y| && y[j] == x[i + 1];
      if j == 0 {
        CompareAntisymmetric(x[0].0, x[i + 1].0);
        assert false;
      }
      assert y[1..][j - 1] == x[1..][i];
    }
  }

  /** A list in strictly ascending key order is fixed by what it contains. */
  lemma {:induction false} SameAscending(x: Members, y: Members)
    requires Ascending(x) && Ascending(y) && Contained(x, y) && Contained(y, x)
    ensures x == y
    decreases |x|
  {
    hide Ascending;
    assert (x != [] ==> x[0] in y) && (y != [] ==> y[0] in x);
    if x != [] && y != [] {
      HeadsAgree(x, y);
      TailsAgree(x, y);
      TailsAgree(y, x);
      SameAscending(x[1..], y[1..]);
      assert x == [x[0]] + x[1..] && y == [y[0]] + y[1..];
    }
  }

  /** Every member of a has its counterpart in b. */
  ghost predicate Matched(a: Members, b: Members, f: Flags) {
    && |a| == |b|
    && forall i :: 0 <= i < |a| ==> MemberMatched(a[i], b, f)
  }

  ghost predicate MemberMatched(m: (Text, Value), b: Members, f: Flags) {
    var j := Find(b, m.0);
    j < |b| && Reordered(m.1, f) == Reordered(b[j].1, f)
  }

  lemma {:induction false} MatchedBothWays(a: Members, b: Members, f: Flags)
    requires DistinctKeys(a) && DistinctKeys(b) && Matched(a, b, f)
    ensures Matched(b, a, f)
  {
    hide Reordered, Find;
    forall j | 0 <= j < |b| ensures MemberMatched(b[j], a, f) {
      assert forall i :: 0 <= i < |a| ==> MemberMatched(a[i], b, f);
      KeysGoBothWays(a, b, j);
      var i := Find(a, b[j].0);
      assert MemberMatched(a[i], b, f);
    }
  }

  lemma {:induction false} MatchedIsContained(a: Value, b: Value, f: Flags)
    requires a.Object? && b.Object? && Matched(a.members, b.members, f)
    ensures Contained(Reordered(a, f).members, Reordered(b, f).members)
  {
    hide Find, Listing, ReorderedMembers, CompareKeys;
    var p, q := Listing(a.members, f), Listing(b.members, f);
    var x, y := ReorderedMembers(a, p, 0, f), ReorderedMembers(b, q, 0, f);
    forall i | 0 <= i < |x| ensures x[i] in y {
      ReorderedMemberAt(a, p, 0, f, i);
      assert MemberMatched(a.members[p[i]], b.members, f);
      var j := Find(b.members, a.members[p[i]].0);
      assert j in q;
      var k :| 0 <= k < |q| && q[k] == j;
      ReorderedMemberAt(b, q, 0, f, k);
      assert y[k] == x[i];
    }
  }

  lemma {:induction false} ListsAscend(v: Value, f: Flags)
    requires v.Object? && DistinctKeys(v.members) && f.sortKeys
    ensures Ascending(Reordered(v, f).members)
  {
    hide Reordered, CompareKeys;
    SameCount(v, f);
    var x := Reordered(v, f).members;
    forall i, j | 0 <= i < j < |x| ensures CompareKeys(x[i].0, x[j].0) < 0 {
      SortedWhenAsked(v, f, i, j);
    }
  }

  lemma SameCount(v: Value, f: Flags)
    requires v.Object?
    ensures Reordered(v, f).Object? && |Reordered(v, f).members| == |v.members|
  {
  }

  lemma {:induction false} ObjectsAgree(a: Value, b: Value, f: Flags)
    requires a.Object? && b.Object? && f.sortKeys && Matched(a.members, b.members, f)
    requires DistinctKeys(a.members) && DistinctKeys(b.members)
    ensures Reordered(a, f) == Reordered(b, f)
  {
    hide Reordered, Matched, Ascending, Contained;
    SameCount(a, f);
    SameCount(b, f);
    ListsAscend(a, f);
    ListsAscend(b, f);
    MatchedIsContained(a, b, f);
    MatchedBothWays(a.members, b.members, f);
    MatchedIsContained(b, a, f);
    SameAscending(Reordered(a, f).members, Reordered(b, f).members);
  }

  lemma {:induction false} EqualIsSameTree(a: Value, b: Value, f: Flags)
    requires Tidy(a) && Tidy(b) && f.sortKeys && JsonEqual(a, b)
    ensures Reordered(a, f) == Reordered(b, f)
  {
    match a
    case Array(es) =>
      hide Listing, ReorderedMembers;
      forall i | 0 <= i < |es| ensures Reordered(es[i], f) == Reordered(b.elems[i], f) {
        EqualIsSameTree(es[i], b.elems[i], f);
      }
      assert ReorderedElems(a, 0, f) == ReorderedElems(b, 0, f);
    case Object(ms) =>
      hide Reordered, NulFree;
      forall i | 0 <= i < |ms| ensures MemberMatched(ms[i], b.members, f) {
        assert MemberEqual(ms[i].0, ms[i].1, b.members);
        CStringOfNulFree(ms[i].0);
        EqualIsSameTree(ms[i].1, b.members[Find(b.members, ms[i].0)].1, f);
      }
      ObjectsAgree(a, b, f);
    case _ =>
  }

  lemma {:induction false} SameTreeIsEqual(a: Value, b: Value, f: Flags)
    requires Tidy(a) && Tidy(b) && Reordered(a, f) == Reordered(b, f)
    ensures JsonEqual(a, b)
  {
    hide Reordered, Tidy, JsonEqual;
    var r := Reordered(a, f);
    ReorderedIsEqual(a, f);
    ReorderedIsEqual(b, f);
    ReorderedIsTidy(b, f);
    TidyIsProper(r);
    EqualSymmetric(b, r);
    EqualTransitive(a, r, b);
  }

  /** json_equal holds exactly of values that differ in member order only. */
  lemma {:induction false} EqualIffSameTree(a: Value, b: Value, f: Flags)
    requires Tidy(a) && Tidy(b) && f.sortKeys
    ensures JsonEqual(a, b) <==> Reordered(a, f) == Reordered(b, f)
  {
    hide Reordered, Tidy, JsonEqual;
    if JsonEqual(a, b) {
      EqualIsSameTree(a, b, f);
    }
    if Reordered(a, f) == Reordered(b, f) {
      SameTreeIsEqual(a, b, f);
    }
  }
}
