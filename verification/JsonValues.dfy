/** JSON values as trees, and json_equal. */
module JsonValues {
  import opened OrderedMap
  import opened Utf8

  datatype Value =
    | Null
    | True
    | False
    | Integer(i: int)
    | String(text: Text)
    | Array(elems: seq<Value>)
    | Object(members: Items<Text, Value>)

  predicate NulFree(s: Text) {
    forall i :: 0 <= i < |s| ==> s[i] != 0
  }

  /** What a byte string is to a function that takes it as a C string. */
  function CString(s: Text): Text {
    if s == [] || s[0] == 0 then [] else [s[0]] + CString(s[1..])
  }

  lemma {:induction false} CStringOfNulFree(s: Text)
    requires NulFree(s)
    ensures CString(s) == s
  {
    if s != [] {
      CStringOfNulFree(s[1..]);
    }
  }

  /** Keys are distinct and free of NUL, at every level. */
  ghost predicate Tidy(v: Value) {
    match v
    case Array(es) => forall i :: 0 <= i < |es| ==> Tidy(es[i])
    case Object(ms) =>
      && DistinctKeys(ms)
      && (forall i :: 0 <= i < |ms| ==> NulFree(ms[i].0))
      && (forall i :: 0 <= i < |ms| ==> Tidy(ms[i].1))
    case _ => true
  }

  /** json_equal: sizes agree, and every member of the first object is looked up
      in the second, by its key as a C string. */
  predicate JsonEqual(a: Value, b: Value)
    decreases a, 0
  {
    match a
    case Null => b.Null?
    case True => b.True?
    case False => b.False?
    case Integer(i) => b.Integer? && i == b.i
    case String(t) => b.String? && t == b.text
    case Array(es) => b.Array? && |es| == |b.elems| && forall i :: 0 <= i < |es| ==> JsonEqual(es[i], b.elems[i])
    case Object(ms) =>
      b.Object? && |ms| == |b.members| && forall i :: 0 <= i < |ms| ==> MemberEqual(ms[i].0, ms[i].1, b.members)
  }

  predicate MemberEqual(key: Text, v: Value, ms: Items<Text, Value>)
    decreases v, 1
  {
    var j := Find(ms, CString(key));
    j < |ms| && JsonEqual(v, ms[j].1)
  }

  // ----- json_equal is an equivalence

  lemma {:induction false} EqualReflexive(a: Value)
    requires Tidy(a)
    ensures JsonEqual(a, a)
  {
    match a
    case Array(es) =>
      forall i | 0 <= i < |es| ensures JsonEqual(es[i], es[i]) {
        EqualReflexive(es[i]);
      }
    case Object(ms) =>
      forall i | 0 <= i < |ms| ensures MemberEqual(ms[i].0, ms[i].1, ms) {
        EqualReflexive(ms[i].1);
        CStringOfNulFree(ms[i].0);
        FindUnique(ms, i);
      }
    case _ =>
  }

  function Keys(ms: Items<Text, Value>): (s: set<Text>)
    ensures forall k :: k in s ==> Find(ms, k) < |ms|
    ensures forall i :: 0 <= i < |ms| ==> ms[i].0 in s
  {
    if ms == [] then {}
    else
      assert forall i :: 1 <= i < |ms| ==> ms[i] == ms[1..][i - 1];
      {ms[0].0} + Keys(ms[1..])
  }

  lemma {:induction false} KeyIsAbsent(ms: Items<Text, Value>, k: Text)
    requires forall i :: 0 <= i < |ms| ==> ms[i].0 != k
    ensures k !in Keys(ms)
  {
    hide Keys;
  }

  lemma {:induction false} KeysCount(ms: Items<Text, Value>)
    requires DistinctKeys(ms)
    ensures |Keys(ms)| == |ms|
  {
    hide Find;
    if ms != [] {
      var t := ms[1..];
      KeysCount(t);
      KeyIsAbsent(t, ms[0].0);
    }
  }

  lemma {:induction false} SubsetOfSameSize<T>(s: set<T>, t: set<T>)
    requires s <= t && |s| == |t|
    ensures s == t
  {
    if s != {} {
      var x :| x in s;
      SubsetOfSameSize(s - {x}, t - {x});
    }
  }

  /** Objects of the same size where each key of a is in b: each key of b is in
      a, so looking in one direction is enough. */
  lemma {:induction false} KeysGoBothWays(a: Items<Text, Value>, b: Items<Text, Value>, j: nat)
    requires DistinctKeys(a) && DistinctKeys(b) && |a| == |b| && j < |b|
    requires forall i :: 0 <= i < |a| ==> Find(b, a[i].0) < |b|
    ensures Find(a, b[j].0) < |a| && Find(b, a[Find(a, b[j].0)].0) == j
  {
    KeysCount(a);
    KeysCount(b);
    forall k | k in Keys(a) ensures k in Keys(b) {
      var i := Find(a, k);
      assert a[i].0 == b[Find(b, a[i].0)].0;
    }
    SubsetOfSameSize(Keys(a), Keys(b));
    assert b[j].0 in Keys(a);
    FindUnique(b, j);
  }

  /** It is enough that the first value is tidy: the second then has the same keys. */
  lemma {:induction false} EqualSymmetric(a: Value, b: Value)
    requires Tidy(a) && Proper(b) && JsonEqual(a, b)
    ensures JsonEqual(b, a)
  {
    match a
    case Array(es) =>
      forall i | 0 <= i < |es| ensures JsonEqual(b.elems[i], es[i]) {
        EqualSymmetric(es[i], b.elems[i]);
      }
    case Object(ms) =>
      KeysFound(ms, b.members);
      forall j | 0 <= j < |b.members| ensures MemberEqual(b.members[j].0, b.members[j].1, ms) {
        KeysGoBothWays(ms, b.members, j);
        var i := Find(ms, b.members[j].0);
        assert ms[i].0 == b.members[j].0;
        CStringOfNulFree(ms[i].0);
        assert MemberEqual(ms[i].0, ms[i].1, b.members);
        EqualSymmetric(ms[i].1, b.members[j].1);
      }
    case _ =>
  }

  lemma {:induction false} KeysFound(a: Items<Text, Value>, b: Items<Text, Value>)
    requires forall i :: 0 <= i < |a| ==> NulFree(a[i].0)
    requires forall i :: 0 <= i < |a| ==> MemberEqual(a[i].0, a[i].1, b)
    ensures forall i :: 0 <= i < |a| ==> Find(b, a[i].0) < |b|
  {
    hide JsonEqual;
    forall i | 0 <= i < |a| ensures Find(b, a[i].0) < |b| {
      assert MemberEqual(a[i].0, a[i].1, b);
      CStringOfNulFree(a[i].0);
    }
  }

  /** Cutting a key twice is cutting it once. */
  lemma {:induction false} CStringTwice(s: Text)
    ensures CString(CString(s)) == CString(s)
  {
    if s != [] && s[0] != 0 {
      CStringTwice(s[1..]);
      assert CString(s)[1..] == CString(s[1..]);
    }
  }

  /** No condition at all: a lookup by a C string finds the key it is. */
  lemma {:induction false} EqualTransitive(a: Value, b: Value, c: Value)
    requires JsonEqual(a, b) && JsonEqual(b, c)
    ensures JsonEqual(a, c)
  {
    match a
    case Array(es) =>
      forall i | 0 <= i < |es| ensures JsonEqual(es[i], c.elems[i]) {
        EqualTransitive(es[i], b.elems[i], c.elems[i]);
      }
    case Object(ms) =>
      forall i | 0 <= i < |ms| ensures MemberEqual(ms[i].0, ms[i].1, c.members) {
        assert MemberEqual(ms[i].0, ms[i].1, b.members);
        CStringTwice(ms[i].0);
        var j := Find(b.members, CString(ms[i].0));
        assert MemberEqual(b.members[j].0, b.members[j].1, c.members);
        EqualTransitive(ms[i].1, b.members[j].1, c.members[Find(c.members, CString(ms[i].0))].1);
      }
    case _ =>
  }

  // ----- keys that hold a NUL byte

  /** Keys are distinct at every level, as a hash table keeps them. */
  ghost predicate Proper(v: Value) {
    match v
    case Array(es) => forall i :: 0 <= i < |es| ==> Proper(es[i])
    case Object(ms) => DistinctKeys(ms) && forall i :: 0 <= i < |ms| ==> Proper(ms[i].1)
    case _ => true
  }

  /** No key, cut at its first NUL, is the key of another member. */
  ghost predicate Separate(v: Value) {
    match v
    case Array(es) => forall i :: 0 <= i < |es| ==> Separate(es[i])
    case Object(ms) =>
      && (forall i, j :: 0 <= i < |ms| && 0 <= j < |ms| && i != j ==> CString(ms[i].0) != ms[j].0)
      && (forall i :: 0 <= i < |ms| ==> Separate(ms[i].1))
    case _ => true
  }

  lemma {:induction false} UncutIsNulFree(s: Text)
    requires CString(s) == s
    ensures NulFree(s)
  {
    if s != [] {
      assert s[0] != 0;
      assert CString(s)[1..] == CString(s[1..]);
      UncutIsNulFree(s[1..]);
    }
  }

  lemma {:induction false} TidyIsProper(v: Value)
    requires Tidy(v)
    ensures Proper(v)
  {
    hide NulFree;
    match v
    case Array(es) =>
      forall i | 0 <= i < |es| ensures Proper(es[i]) {
        TidyIsProper(es[i]);
      }
    case Object(ms) =>
      forall i | 0 <= i < |ms| ensures Proper(ms[i].1) {
        TidyIsProper(ms[i].1);
      }
    case _ =>
  }

  /** What comparing a value with a separate copy of it comes to, for any keys:
      a member whose key holds no NUL meets itself; one whose key does meets the
      member named by the part before the NUL, which must exist and be equal. */
  ghost predicate MeetsItself(v: Value) {
    match v
    case Array(es) => forall i :: 0 <= i < |es| ==> MeetsItself(es[i])
    case Object(ms) => forall i :: 0 <= i < |ms| ==>
      if NulFree(ms[i].0) then MeetsItself(ms[i].1)
      else Find(ms, CString(ms[i].0)) < |ms| && JsonEqual(ms[i].1, ms[Find(ms, CString(ms[i].0))].1)
    case _ => true
  }

  /** json_equal on two separate objects of the same value, for every value with
      distinct keys. */
  lemma {:induction false} EqualToCopyIff(v: Value)
    requires Proper(v)
    ensures JsonEqual(v, v) <==> MeetsItself(v)
  {
    match v
    case Array(es) =>
      forall i | 0 <= i < |es| ensures JsonEqual(es[i], es[i]) <==> MeetsItself(es[i]) {
        EqualToCopyIff(es[i]);
      }
    case Object(ms) =>
      forall i | 0 <= i < |ms|
        ensures MemberEqual(ms[i].0, ms[i].1, ms) <==>
          (if NulFree(ms[i].0) then MeetsItself(ms[i].1)
           else Find(ms, CString(ms[i].0)) < |ms| && JsonEqual(ms[i].1, ms[Find(ms, CString(ms[i].0))].1))
      {
        if NulFree(ms[i].0) {
          CStringOfNulFree(ms[i].0);
          FindUnique(ms, i);
          EqualToCopyIff(ms[i].1);
        }
      }
    case _ =>
  }

  /** Where no cut key is another member's key, json_equal finds a separate copy
      equal exactly when no key holds a NUL. */
  lemma {:induction false} ReflexiveIffTidy(v: Value)
    requires Proper(v) && Separate(v)
    ensures JsonEqual(v, v) <==> Tidy(v)
  {
    if Tidy(v) {
      EqualReflexive(v);
    }
    if JsonEqual(v, v) {
      SelfEqualIsTidy(v);
    }
  }

  lemma {:induction false} SelfEqualIsTidy(v: Value)
    requires Proper(v) && Separate(v) && JsonEqual(v, v)
    ensures Tidy(v)
  {
    match v
    case Array(es) =>
      forall i | 0 <= i < |es| ensures Tidy(es[i]) {
        SelfEqualIsTidy(es[i]);
      }
    case Object(ms) =>
      forall i | 0 <= i < |ms| ensures NulFree(ms[i].0) && Tidy(ms[i].1) {
        assert MemberEqual(ms[i].0, ms[i].1, ms);
        var j := Find(ms, CString(ms[i].0));
        assert ms[j].0 == CString(ms[i].0);
        assert j == i;
        UncutIsNulFree(ms[i].0);
        SelfEqualIsTidy(ms[i].1);
      }
    case _ =>
  }

  /** Every key of b without a NUL is a key of a, at every level. */
  ghost predicate SameNames(a: Value, b: Value)
    decreases b
  {
    match b
    case Array(es) => a.Array? && |a.elems| == |es| && forall i :: 0 <= i < |es| ==> SameNames(a.elems[i], es[i])
    case Object(ms) => a.Object? && forall j :: 0 <= j < |ms| && NulFree(ms[j].0) ==>
      Find(a.members, ms[j].0) < |a.members| && SameNames(a.members[Find(a.members, ms[j].0)].1, ms[j].1)
    case _ => true
  }

  /** json_equal can be turned around exactly when the second value equals its
      own copy and names nothing that the first does not. */
  lemma {:induction false} SymmetricIff(a: Value, b: Value)
    requires Proper(b) && JsonEqual(a, b)
    ensures JsonEqual(b, a) <==> MeetsItself(b) && SameNames(a, b)
  {
    EqualToCopyIff(b);
    if JsonEqual(b, a) {
      EqualTransitive(b, a, b);
      BothWaysNameTheSame(a, b);
    }
    if JsonEqual(b, b) && SameNames(a, b) {
      SameNamesTurn(a, b);
    }
  }

  lemma {:induction false} BothWaysNameTheSame(a: Value, b: Value)
    requires Proper(b) && JsonEqual(a, b) && JsonEqual(b, a)
    ensures SameNames(a, b)
    decreases b
  {
    match b
    case Array(es) =>
      forall i | 0 <= i < |es| ensures SameNames(a.elems[i], es[i]) {
        BothWaysNameTheSame(a.elems[i], es[i]);
      }
    case Object(ms) =>
      forall j | 0 <= j < |ms| && NulFree(ms[j].0)
        ensures Find(a.members, ms[j].0) < |a.members| && SameNames(a.members[Find(a.members, ms[j].0)].1, ms[j].1)
      {
        CStringOfNulFree(ms[j].0);
        FindUnique(ms, j);
        assert MemberEqual(ms[j].0, ms[j].1, a.members);
        var i := Find(a.members, ms[j].0);
        assert MemberEqual(a.members[i].0, a.members[i].1, ms);
        BothWaysNameTheSame(a.members[i].1, ms[j].1);
      }
    case _ =>
  }

  lemma {:induction false} SameNamesTurn(a: Value, b: Value)
    requires Proper(b) && JsonEqual(a, b) && JsonEqual(b, b) && SameNames(a, b)
    ensures JsonEqual(b, a)
    decreases b
  {
    match b
    case Array(es) =>
      forall i | 0 <= i < |es| ensures JsonEqual(es[i], a.elems[i]) {
        SameNamesTurn(a.elems[i], es[i]);
      }
    case Object(ms) =>
      forall j | 0 <= j < |ms| ensures MemberEqual(ms[j].0, ms[j].1, a.members) {
        TurnMember(a, b, j);
      }
    case _ =>
  }

  lemma {:induction false} TurnMember(a: Value, b: Value, j: nat)
    requires b.Object? && Proper(b) && JsonEqual(a, b) && JsonEqual(b, b) && SameNames(a, b) && j < |b.members|
    ensures MemberEqual(b.members[j].0, b.members[j].1, a.members)
    decreases b, 0
  {
    var ms := b.members;
    assert MemberEqual(ms[j].0, ms[j].1, ms);
    var n := CString(ms[j].0);
    CStringTwice(ms[j].0);
    UncutIsNulFree(n);
    var h := Find(ms, n);
    FindUnique(ms, h);
    assert MemberEqual(ms[h].0, ms[h].1, ms);
    var i := Find(a.members, ms[h].0);
    assert MemberEqual(a.members[i].0, a.members[i].1, ms);
    SameNamesTurn(a.members[i].1, ms[h].1);
    EqualTransitive(ms[j].1, ms[h].1, a.members[i].1);
  }

  const KEY_A: Text := [97]
  const KEY_A_NUL: Text := [97, 0]
  const KEY_C: Text := [99]

  lemma CutKey()
    ensures CString(KEY_A_NUL) == KEY_A && CString(KEY_A) == KEY_A
  {
    assert KEY_A_NUL[1..] == [0];
    assert KEY_A[1..] == [];
  }

  /** A lone key with a NUL is not found: the value differs from its copy. */
  lemma NulKeyIsNotFound()
    ensures
      var v := Object([(KEY_A_NUL, Null)]);
      !JsonEqual(v, v)
  {
    CutKey();
    var ms: Items<Text, Value> := [(KEY_A_NUL, Null)];
    assert !MemberEqual(ms[0].0, ms[0].1, ms);
  }

  /** Beside the key it is cut to, it lands on that member: with equal members
      the value equals its copy, with different ones it does not. */
  lemma NulKeyLandsOnPrefix(x: Value, y: Value)
    requires JsonEqual(x, x)
    ensures
      var v := Object([(KEY_A, x), (KEY_A_NUL, y)]);
      JsonEqual(v, v) <==> JsonEqual(y, x)
  {
    CutKey();
    var ms: Items<Text, Value> := [(KEY_A, x), (KEY_A_NUL, y)];
    assert Find(ms, KEY_A) == 0;
    assert MemberEqual(ms[0].0, ms[0].1, ms);
    assert MemberEqual(ms[1].0, ms[1].1, ms) <==> JsonEqual(y, x);
  }

  /** With such keys the comparison can hold one way only. */
  lemma NulKeyBreaksSymmetry(x: Value, y: Value)
    requires JsonEqual(x, x)
    ensures
      var a, b := Object([(KEY_A, x), (KEY_A_NUL, x)]), Object([(KEY_A, x), (KEY_C, y)]);
      JsonEqual(a, b) && !JsonEqual(b, a)
  {
    CutKey();
    var ms: Items<Text, Value> := [(KEY_A, x), (KEY_A_NUL, x)];
    var ns: Items<Text, Value> := [(KEY_A, x), (KEY_C, y)];
    assert Find(ns, KEY_A) == 0;
    assert MemberEqual(ms[0].0, ms[0].1, ns) && MemberEqual(ms[1].0, ms[1].1, ns);
    assert CString(KEY_C) == KEY_C by {
      assert KEY_C[1..] == [];
    }
    assert !MemberEqual(ns[1].0, ns[1].1, ms);
  }
}
