/** A finite map that remembers the order in which its keys were first
    inserted: what a hash table promises its callers. */
module OrderedMap {
  import opened Options

  type Items<K, V> = seq<(K, V)>

  ghost predicate DistinctKeys<K, V>(items: Items<K, V>) {
    forall i, j :: 0 <= i < j < |items| ==> items[i].0 != items[j].0
  }

  /** The position of key `k`, or the length. */
  function Find<K(==), V>(items: Items<K, V>, k: K): (i: nat)
    ensures i <= |items|
    ensures i < |items| ==> items[i].0 == k
    ensures forall j :: 0 <= j < i ==> items[j].0 != k
  {
    if items == [] || items[0].0 == k then 0 else 1 + Find(items[1..], k)
  }

  function Get<K(==), V>(items: Items<K, V>, k: K): Option<V> {
    var i := Find(items, k);
    if i < |items| then Some(items[i].1) else None
  }

  function Set<K(==), V>(items: Items<K, V>, k: K, v: V): Items<K, V> {
    var i := Find(items, k);
    if i < |items| then items[i := (k, v)] else items + [(k, v)]
  }

  function Delete<K(==), V>(items: Items<K, V>, k: K): Items<K, V> {
    var i := Find(items, k);
    if i < |items| then items[..i] + items[i + 1..] else items
  }

  // ----- against a plain map and a list of keys

  datatype Op<K, V> = Put(key: K, value: V) | Remove(key: K) | Clear

  function Apply<K(==), V>(items: Items<K, V>, op: Op<K, V>): Items<K, V> {
    match op
    case Put(k, v) => Set(items, k, v)
    case Remove(k) => Delete(items, k)
    case Clear => []
  }

  function Run<K(==), V>(items: Items<K, V>, ops: seq<Op<K, V>>): Items<K, V>
    decreases |ops|
  {
    if ops == [] then items else Run(Apply(items, ops[0]), ops[1..])
  }

  /** The same operation on a plain map. */
  function ApplyMap<K(==), V>(m: map<K, V>, op: Op<K, V>): map<K, V> {
    match op
    case Put(k, v) => m[k := v]
    case Remove(k) => m - {k}
    case Clear => map[]
  }

  function RunMap<K(==), V>(m: map<K, V>, ops: seq<Op<K, V>>): map<K, V>
    decreases |ops|
  {
    if ops == [] then m else RunMap(ApplyMap(m, ops[0]), ops[1..])
  }

  /** The same operation on the list of keys in first-insertion order. */
  function ApplyOrder<K(==), V>(ks: seq<K>, op: Op<K, V>): seq<K> {
    match op
    case Put(k, _) => if k in ks then ks else ks + [k]
    case Remove(k) => Without(ks, k)
    case Clear => []
  }

  function Without<K(==)>(ks: seq<K>, k: K): seq<K> {
    if ks == [] then []
    else if ks[0] == k then ks[1..]
    else [ks[0]] + Without(ks[1..], k)
  }

  function RunOrder<K(==), V>(ks: seq<K>, ops: seq<Op<K, V>>): seq<K>
    decreases |ops|
  {
    if ops == [] then ks else RunOrder(ApplyOrder(ks, ops[0]), ops[1..])
  }

  lemma FindUnique<K, V>(items: Items<K, V>, i: nat)
    requires DistinctKeys(items) && i < |items|
    ensures Find(items, items[i].0) == i
  {
  }

  lemma SetKeepsDistinct<K, V>(items: Items<K, V>, k: K, v: V)
    requires DistinctKeys(items)
    ensures DistinctKeys(Set(items, k, v))
  {
  }

  /** `m` and `ks` are the map and the key order that `items` stands for. */
  ghost predicate StandsFor<K(!new), V>(items: Items<K, V>, m: map<K, V>, ks: seq<K>) {
    && DistinctKeys(items)
    && |ks| == |items|
    && (forall i :: 0 <= i < |items| ==> ks[i] == items[i].0)
    && (forall i :: 0 <= i < |items| ==> items[i].0 in m && m[items[i].0] == items[i].1)
    && (forall k :: k in m ==> k in ks)
  }

  lemma PutStandsFor<K(!new), V>(items: Items<K, V>, m: map<K, V>, ks: seq<K>, k: K, v: V)
    requires StandsFor(items, m, ks)
    ensures StandsFor(Set(items, k, v), m[k := v], ApplyOrder(ks, Put(k, v)))
  {
    var i := Find(items, k);
    SetKeepsDistinct(items, k, v);
    if i < |items| {
      assert ks[i] == k;
    } else {
      assert k !in ks;
      assert forall k' :: k' in ks ==> k' in ks + [k];
      assert (ks + [k])[|ks|] == k;
    }
  }

  lemma {:induction false} WithoutAt<K>(ks: seq<K>, k: K, i: nat)
    requires i <= |ks| && (forall j :: 0 <= j < i ==> ks[j] != k) && (i < |ks| ==> ks[i] == k)
    ensures Without(ks, k) == if i < |ks| then ks[..i] + ks[i + 1..] else ks
  {
    if i > 0 {
      WithoutAt(ks[1..], k, i - 1);
    }
  }

  function DropAt<T>(s: seq<T>, i: nat): (r: seq<T>)
    requires i < |s|
    ensures |r| == |s| - 1
    ensures forall j :: 0 <= j < i ==> r[j] == s[j]
    ensures forall j :: i <= j < |r| ==> r[j] == s[j + 1]
  {
    s[..i] + s[i + 1..]
  }

  lemma DropAtCovers<T>(s: seq<T>, i: nat)
    requires i < |s|
    ensures forall x :: x in s && x != s[i] ==> x in DropAt(s, i)
  {
    forall x | x in s && x != s[i]
      ensures x in DropAt(s, i)
    {
      var j :| 0 <= j < |s| && s[j] == x;
      assert DropAt(s, i)[if j < i then j else j - 1] == x;
    }
  }

  lemma DropStandsFor<K(!new), V>(items: Items<K, V>, m: map<K, V>, ks: seq<K>, i: nat)
    requires StandsFor(items, m, ks) && i < |items|
    ensures StandsFor(DropAt(items, i), m - {items[i].0}, DropAt(ks, i))
  {
    DropAtCovers(ks, i);
    hide DropAt;
    var items', k := DropAt(items, i), items[i].0;
    forall j | 0 <= j < |items'|
      ensures items'[j].0 != k && items'[j].0 in m && m[items'[j].0] == items'[j].1
    {
      var j' := if j < i then j else j + 1;
      assert items'[j] == items[j'];
    }
  }

  lemma RemoveStandsFor<K(!new), V>(items: Items<K, V>, m: map<K, V>, ks: seq<K>, k: K)
    requires StandsFor(items, m, ks)
    ensures StandsFor(Delete(items, k), m - {k}, Without(ks, k))
  {
    var i := Find(items, k);
    WithoutAt(ks, k, i);
    if i < |items| {
      DropStandsFor(items, m, ks, i);
    }
  }

  /** Every run behaves as a plain finite map does, and its iteration order is
      first insertion: overwriting keeps a key's place. */
  lemma {:induction false} RunIsMapInInsertionOrder<K(!new), V>(items: Items<K, V>, m: map<K, V>, ks: seq<K>,
      ops: seq<Op<K, V>>)
    requires StandsFor(items, m, ks)
    ensures StandsFor(Run(items, ops), RunMap(m, ops), RunOrder(ks, ops))
    decreases |ops|
  {
    if ops != [] {
      match ops[0] {
        case Put(k, v) => PutStandsFor(items, m, ks, k, v);
        case Remove(k) => RemoveStandsFor(items, m, ks, k);
        case Clear =>
      }
      hide StandsFor;
      RunIsMapInInsertionOrder(Apply(items, ops[0]), ApplyMap(m, ops[0]), ApplyOrder(ks, ops[0]), ops[1..]);
    }
  }
}
