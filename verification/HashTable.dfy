/** The hash table of JSON objects: all buckets share one ring, a second ring
    keeps insertion order, and both are relinked in place. */
module HashTable {
  import opened Options
  import opened Powers
  import opened OrderedMap
  import opened Rings
  import opened Segments

  datatype Pair<K, V> = Pair(hash: nat, key: K, value: V)

  type Pairs<K, V> = map<Ptr, Pair<K, V>>

  const INITIAL_ORDER: nat := 3

  // ----- the abstraction

  function TagOf<K, V>(pairs: Pairs<K, V>, a: Ptr, n: nat): nat
    requires n > 0
  {
    if a in pairs then pairs[a].hash % n else 0
  }

  /** The bucket index of each ring position, in a table of `n` buckets. */
  function Tags<K, V>(pairs: Pairs<K, V>, s: seq<Ptr>, n: nat): (tags: seq<nat>)
    requires n > 0
    ensures |tags| == |s|
    ensures forall i :: 0 <= i < |s| ==> tags[i] == TagOf(pairs, s[i], n)
  {
    seq(|s|, i requires 0 <= i < |s| => TagOf(pairs, s[i], n))
  }

  /** `s` lists every pair once. */
  ghost predicate Lists<K, V>(pairs: Pairs<K, V>, s: seq<Ptr>) {
    && Distinct(s)
    && (forall i :: 0 <= i < |s| ==> s[i] in pairs)
    && (forall a :: a in pairs ==> a in s)
  }

  /** Pairs carry the hash of their key, and no key twice. */
  ghost predicate Keyed<K, V>(pairs: Pairs<K, V>, hash: K -> nat) {
    && (forall a :: a in pairs ==> pairs[a].hash == hash(pairs[a].key))
    && (forall a, b :: a in pairs && b in pairs && pairs[a].key == pairs[b].key ==> a == b)
  }

  /** The table's contents in iteration order. */
  function ItemsOf<K, V>(pairs: Pairs<K, V>, ord: seq<Ptr>): (items: Items<K, V>)
    requires forall i :: 0 <= i < |ord| ==> ord[i] in pairs
    ensures |items| == |ord|
    ensures forall i :: 0 <= i < |ord| ==> items[i] == (pairs[ord[i]].key, pairs[ord[i]].value)
  {
    seq(|ord|, i requires 0 <= i < |ord| => (pairs[ord[i]].key, pairs[ord[i]].value))
  }

  lemma ItemsAreDistinct<K, V>(pairs: Pairs<K, V>, ord: seq<Ptr>, hash: K -> nat)
    requires Lists(pairs, ord) && Keyed(pairs, hash)
    ensures DistinctKeys(ItemsOf(pairs, ord))
  {
  }

  lemma FoundAt<K, V>(pairs: Pairs<K, V>, ord: seq<Ptr>, hash: K -> nat, i: nat)
    requires Lists(pairs, ord) && Keyed(pairs, hash) && i < |ord|
    ensures Find(ItemsOf(pairs, ord), pairs[ord[i]].key) == i
  {
    ItemsAreDistinct(pairs, ord, hash);
    FindUnique(ItemsOf(pairs, ord), i);
  }

  lemma NotFound<K, V>(pairs: Pairs<K, V>, ord: seq<Ptr>, k: K)
    requires Lists(pairs, ord) && forall a :: a in pairs ==> pairs[a].key != k
    ensures Find(ItemsOf(pairs, ord), k) == |ord|
  {
  }

  // ----- what each operation does to the contents

  lemma OverwriteLists<K, V>(pairs: Pairs<K, V>, s: seq<Ptr>, hash: K -> nat, a: Ptr, v: V)
    requires Lists(pairs, s) && Keyed(pairs, hash) && a in pairs
    ensures var pairs' := pairs[a := pairs[a].(value := v)]; Lists(pairs', s) && Keyed(pairs', hash)
  {
  }

  lemma OverwriteSets<K, V>(pairs: Pairs<K, V>, ord: seq<Ptr>, hash: K -> nat, a: Ptr, v: V)
    requires Lists(pairs, ord) && Keyed(pairs, hash) && a in pairs
    ensures var pairs' := pairs[a := pairs[a].(value := v)];
            && Lists(pairs', ord) && Keyed(pairs', hash)
            && ItemsOf(pairs', ord) == Set(ItemsOf(pairs, ord), pairs[a].key, v)
  {
    var i :| 0 <= i < |ord| && ord[i] == a;
    FoundAt(pairs, ord, hash, i);
    OverwriteLists(pairs, ord, hash, a, v);
    var items, pairs' := ItemsOf(pairs, ord), pairs[a := pairs[a].(value := v)];
    hide Keyed, Find, ItemsOf;
    forall j | 0 <= j < |ord|
      ensures ItemsOf(pairs', ord)[j] == items[i := (pairs[a].key, v)][j]
    {
      assert ord[j] == a <==> j == i;
    }
  }

  lemma AppendSets<K, V>(pairs: Pairs<K, V>, ord: seq<Ptr>, hash: K -> nat, id: Ptr, k: K, v: V)
    requires Lists(pairs, ord) && Keyed(pairs, hash) && id !in pairs && id != HEAD
    requires forall a :: a in pairs ==> pairs[a].key != k
    ensures var pairs', ord' := pairs[id := Pair(hash(k), k, v)], InsertAt(ord, |ord|, id);
            && Lists(pairs', ord') && Keyed(pairs', hash)
            && ItemsOf(pairs', ord') == Set(ItemsOf(pairs, ord), k, v)
  {
    NotFound(pairs, ord, k);
    ListsInsert(pairs, ord, |ord|, id, Pair(hash(k), k, v));
    var pairs', ord' := pairs[id := Pair(hash(k), k, v)], InsertAt(ord, |ord|, id);
    hide Lists, InsertAt;
    assert ItemsOf(pairs', ord') == ItemsOf(pairs, ord) + [(k, v)];
  }

  lemma ListsInsert<K, V>(pairs: Pairs<K, V>, s: seq<Ptr>, p: nat, id: Ptr, pair: Pair<K, V>)
    requires Lists(pairs, s) && p <= |s| && id !in pairs && id != HEAD
    ensures id !in s
    ensures Lists(pairs[id := pair], InsertAt(s, p, id))
    ensures forall i :: 0 <= i < |InsertAt(s, p, id)| ==> InsertAt(s, p, id)[i] in pairs[id := pair]
    ensures forall i :: 0 <= i < |s| ==> s[i] in pairs
  {
    assert id !in s;
    InsertedDistinct(s, p, id);
    var r := InsertAt(s, p, id);
    hide InsertAt, Distinct;
    forall a | a in pairs[id := pair]
      ensures a in r
    {
      if a == id {
        assert r[p] == id;
      } else {
        var j :| 0 <= j < |s| && s[j] == a;
        assert r[if j < p then j else j + 1] == a;
      }
    }
    forall i | 0 <= i < |r|
      ensures r[i] in pairs[id := pair]
    {
      assert i != p ==> r[i] == s[if i < p then i else i - 1];
    }
  }

  lemma ListsDrop<K, V>(pairs: Pairs<K, V>, s: seq<Ptr>, p: nat)
    requires Lists(pairs, s) && p < |s|
    ensures Lists(pairs - {s[p]}, DropAt(s, p))
    ensures forall i :: 0 <= i < |DropAt(s, p)| ==> DropAt(s, p)[i] in pairs - {s[p]}
  {
    DropAtCovers(s, p);
    var r := DropAt(s, p);
    hide DropAt;
    forall i | 0 <= i < |r|
      ensures r[i] in pairs && r[i] != s[p] && r[i] != HEAD
    {
      assert r[i] == s[if i < p then i else i + 1];
    }
    forall i, j | 0 <= i < j < |r|
      ensures r[i] != r[j]
    {
      assert r[i] == s[if i < p then i else i + 1];
      assert r[j] == s[if j < p then j else j + 1];
    }
  }

  lemma RemoveDeletes<K, V>(pairs: Pairs<K, V>, ord: seq<Ptr>, hash: K -> nat, i: nat)
    requires Lists(pairs, ord) && Keyed(pairs, hash) && i < |ord|
    ensures var pairs', ord' := pairs - {ord[i]}, DropAt(ord, i);
            && Lists(pairs', ord') && Keyed(pairs', hash)
            && ItemsOf(pairs', ord') == Delete(ItemsOf(pairs, ord), pairs[ord[i]].key)
  {
    var pairs', ord', items := pairs - {ord[i]}, DropAt(ord, i), ItemsOf(pairs, ord);
    ListsDrop(pairs, ord, i);
    FoundAt(pairs, ord, hash, i);
    assert Delete(items, pairs[ord[i]].key) == DropAt(items, i);
    hide Lists, DropAt, Find;
    assert ItemsOf(pairs', ord') == DropAt(items, i);
  }

  // ----- tags

  lemma TagsAfterInsert<K, V>(pairs: Pairs<K, V>, s: seq<Ptr>, p: nat, id: Ptr, n: nat)
    requires n > 0 && p <= |s|
    ensures Tags(pairs, InsertAt(s, p, id), n) == InsertAt(Tags(pairs, s, n), p, TagOf(pairs, id, n))
  {
  }

  lemma TagsAfterDrop<K, V>(pairs: Pairs<K, V>, s: seq<Ptr>, p: nat, n: nat)
    requires n > 0 && p < |s| && Distinct(s)
    ensures Tags(pairs - {s[p]}, DropAt(s, p), n) == DropAt(Tags(pairs, s, n), p)
  {
    hide DropAt;
    var r := DropAt(s, p);
    forall i | 0 <= i < |r|
      ensures TagOf(pairs - {s[p]}, r[i], n) == DropAt(Tags(pairs, s, n), p)[i]
    {
      var j := if i < p then i else i + 1;
      assert r[i] == s[j];
    }
  }

  // ----- the links

  /** Both rings run over exactly the live pairs, and memory holds the links
      of those pairs and the heads, nothing else. */
  ghost predicate Linked<K, V>(list: Links, ordered: Links, pairs: Pairs<K, V>, ring: seq<Ptr>, ord: seq<Ptr>) {
    var n := |ring|;
    && Ring(list, ring) && Ring(ordered, ord)
    && Lists(pairs, ring) && Lists(pairs, ord)
    && |ord| == n
    && list.Keys == pairs.Keys + {HEAD}
    && ordered.Keys == pairs.Keys + {HEAD}
  }

  ghost predicate Below<K, V>(pairs: Pairs<K, V>, n: Ptr) {
    HEAD < n && forall a :: a in pairs ==> a < n
  }

  /** A table of |bk| buckets: links, contents and buckets agree, and the load
      ratio is at most one. */
  ghost predicate Sound<K, V>(hash: K -> nat, size: nat, bk: seq<Bucket>, list: Links, ordered: Links,
                              pairs: Pairs<K, V>, limit: Ptr, ring: seq<Ptr>, ord: seq<Ptr>, lo: seq<nat>, hi: seq<nat>)
  {
    && size == |ring| <= |bk| && 0 < |bk|
    && Linked(list, ordered, pairs, ring, ord)
    && Keyed(pairs, hash) && Below(pairs, limit)
    && Segmented(bk, ring, Tags(pairs, ring, |bk|), lo, hi)
  }

  lemma RingInitNode(m: Links, s: seq<Ptr>, node: Ptr)
    requires Ring(m, s) && node !in m
    ensures Ring(ListInit(m, node), s)
    ensures node !in s && node != HEAD
  {
    assert forall i :: 0 <= i < |s| ==> s[i] in m;
    assert node !in s;
  }

  lemma EmptyRing(m: Links)
    ensures Ring(ListInit(m, HEAD), [])
  {
  }

  /** Outside the ring, the inserted node and the head, no link changes. */
  ghost predicate LinksKept(m: Links, m': Links, s: seq<Ptr>, node: Ptr) {
    && m'.Keys == m.Keys
    && forall a :: a in m && a != HEAD && a != node && a !in s ==> m'[a] == m[a]
  }

  lemma InsertKeepsLinks(m: Links, s: seq<Ptr>, p: nat, node: Ptr)
    requires Ring(m, s) && p <= |s| && node in m && node != HEAD && node !in s
    ensures var c := Cells(s);
            c[p + 1] in m && m[c[p + 1]].prev in m && LinksKept(m, ListInsert(m, c[p + 1], node), s, node)
  {
    var c := Cells(s);
    RingAt(m, s, p);
    assert c[p] == HEAD || c[p] in s by {
      assert p > 0 ==> c[p] == s[p - 1];
    }
    assert c[p + 1] == HEAD || c[p + 1] in s by {
      assert p < |s| ==> c[p + 1] == s[p];
    }
    InsertEffect(m, c[p + 1], node);
  }

  class HashTable<K(==), V> {
    const hash: K -> nat
    var size: nat
    var order: nat
    var buckets: seq<Bucket>
    var list: Links
    var ordered: Links
    var pairs: Pairs<K, V>
    var nextFree: Ptr
    ghost var ring: seq<Ptr>
    ghost var ord: seq<Ptr>
    ghost var lo: seq<nat>
    ghost var hi: seq<nat>

    ghost predicate Valid()
      reads this
    {
      && size <= |buckets| == Pow2(order)
      && Sound(hash, size, buckets, list, ordered, pairs, nextFree, ring, ord, lo, hi)
    }

    /** The contents, in iteration order. */
    ghost function Contents(): Items<K, V>
      requires Valid()
      reads this
    {
      ItemsOf(pairs, ord)
    }

    constructor (hash: K -> nat)
      ensures Valid() && Contents() == [] && this.hash == hash
    {
      this.hash := hash;
      size, order, nextFree := 0, INITIAL_ORDER, HEAD + 1;
      buckets := NoBuckets(Pow2(INITIAL_ORDER));
      list, ordered := ListInit(map[], HEAD), ListInit(map[], HEAD);
      pairs, ring, ord := map[], [], [];
      lo, hi := Zeros(Pow2(INITIAL_ORDER)), Zeros(Pow2(INITIAL_ORDER));
      new;
      EmptySegments(Pow2(INITIAL_ORDER));
      EmptyRing(map[]);
      hide Segmented, Ring;
      assert Tags(pairs, [], |buckets|) == [];
    }

    /** insert_to_bucket */
    method InsertToBucket(b: nat, node: Ptr, ghost tags: seq<nat>) returns (ghost p: nat)
      requires Ring(list, ring) && Segmented(buckets, ring, tags, lo, hi)
      requires b < |buckets| && node in list && node != HEAD && node !in ring
      modifies this`buckets, this`list, this`ring, this`lo, this`hi
      ensures |buckets| == |old(buckets)| && |tags| == |old(ring)|
      ensures p <= |tags| && ring == InsertAt(old(ring), p, node)
      ensures Segmented(buckets, ring, InsertAt(tags, p, b), lo, hi)
      ensures Ring(list, ring) && LinksKept(old(list), list, old(ring), node) && list.Keys == old(list).Keys
    {
      p := Place(ring, lo, hi, b);
      InsertKeepsSegments(buckets, ring, tags, lo, hi, b, node, p);
      InsertIntoRing(list, ring, p, node);
      InsertKeepsLinks(list, ring, p, node);
      hide Ring, Segmented, ListInsert, LinksKept, LoAfterInsert, HiAfterInsert, Place;
      if buckets[b].first == HEAD && buckets[b].first == buckets[b].last {
        list := ListInsert(list, HEAD, node);
        buckets := buckets[b := Bucket(node, node)];
      } else {
        list := ListInsert(list, buckets[b].first, node);
        buckets := buckets[b := buckets[b].(first := node)];
      }
      ring := InsertAt(ring, p, node);
      lo, hi := LoAfterInsert(lo, p, b), HiAfterInsert(lo, hi, p, b);
    }

    /** hashtable_do_rehash */
    method Rehash(memory: bool) returns (ok: bool)
      requires Valid()
      modifies this
      ensures Valid() && Contents() == old(Contents())
      ensures ok == memory && order == old(order) + if ok then 1 else 0
      ensures pairs == old(pairs) && ord == old(ord) && size == old(size)
    {
      hide Sound, Moving, ItemsOf, Linked, Segmented, Tags, Cells, Pow2;
      if !memory {
        return false;
      }
      ghost var b0, l0, r0, lo0, hi0 := buckets, list, ring, lo, hi;
      var node := Reset();
      MoveAll(node, l0, r0);
      FinishRehash(hash, size, b0, buckets, l0, list, ordered, pairs, nextFree, r0, ring, ord, lo0, hi0, lo, hi);
      return true;
    }

    /** Empty buckets, twice as many, and a ring that has lost its nodes; `node`
        is where the walk over them starts. */
    method Reset() returns (node: Ptr)
      requires Valid()
      modifies this`order, this`buckets, this`list, this`ring, this`lo, this`hi
      ensures order == old(order) + 1 && |old(buckets)| <= |buckets| == Pow2(order)
      ensures Linked(old(list), ordered, pairs, old(ring), ord) && list.Keys == old(list).Keys
      ensures Moving(list, old(ring), ring, 0) && node == Cells(old(ring))[1]
      ensures Segmented(buckets, ring, Tags(pairs, ring, |buckets|), lo, hi)
    {
      hide Sound, Moving, NoBuckets, Zeros, ListInit, Linked, Segmented, Tags, Cells;
      StartRehash(hash, size, buckets, list, ordered, pairs, nextFree, ring, ord, lo, hi, Pow2(order + 1));
      order := order + 1;
      buckets := NoBuckets(Pow2(order));
      node := list[HEAD].next;
      list := ListInit(list, HEAD);
      ring, lo, hi := [], Zeros(Pow2(order)), Zeros(Pow2(order));
    }

    /** The relinking walk of hashtable_do_rehash, over the very nodes it is
        following. */
    method MoveAll(first: Ptr, ghost list0: Links, ghost was: seq<Ptr>)
      requires Linked(list0, ordered, pairs, was, ord) && list.Keys == list0.Keys
      requires Moving(list, was, ring, 0) && first == Cells(was)[1]
      requires |buckets| > 0 && Segmented(buckets, ring, Tags(pairs, ring, |buckets|), lo, hi)
      modifies this`buckets, this`list, this`ring, this`lo, this`hi
      ensures Linked(list, ordered, pairs, ring, ord) && |ring| == |was|
      ensures |buckets| == |old(buckets)| && Segmented(buckets, ring, Tags(pairs, ring, |buckets|), lo, hi)
    {
      hide Linked, Moving, Segmented, Tags, InsertAt, LinksKept;
      var node := first;
      ghost var i, n := 0, |buckets|;
      while node != HEAD
        invariant Moving(list, was, ring, i) && i <= |was| && node == Cells(was)[i + 1]
        invariant list.Keys == list0.Keys && |buckets| == n
        invariant Segmented(buckets, ring, Tags(pairs, ring, n), lo, hi)
        decreases |was| - i
      {
        NextToMove(list0, ordered, list, pairs, was, ring, ord, i);
        ghost var l, s := list, ring;
        var next := list[node].next;
        ghost var p := InsertToBucket(pairs[node].hash % |buckets|, node, Tags(pairs, ring, n));
        TagsAfterInsert(pairs, s, p, node, n);
        MoveOne(l, list, was, s, i, p);
        node := next;
        i := i + 1;
      }
      DoneMoving(list0, list, ordered, pairs, was, ring, ord, i);
    }

    /** hashtable_find_pair */
    method FindPair(b: nat, key: K, h: nat) returns (r: Option<Ptr>)
      requires Valid() && h == hash(key) && b == h % |buckets|
      ensures r.Some? ==> r.value in pairs && pairs[r.value].key == key && pairs[r.value].hash == h
      ensures r.None? ==> forall a :: a in pairs ==> pairs[a].key != key
    {
      hide Sound, Linked, Pow2, Segmented, NoMatch;
      BucketOf(hash, size, buckets, list, ordered, pairs, nextFree, ring, ord, lo, hi, b);
      ghost var l, e := lo[b], hi[b];
      if buckets[b].first == HEAD && buckets[b].first == buckets[b].last {
        r := None;
      } else {
        r := Walk(list, pairs, buckets[b].first, buckets[b].last, key, h, ordered, ring, ord, l, e);
      }
      if r.None? {
        NoneInBucket(hash, size, buckets, list, ordered, pairs, nextFree, ring, ord, lo, hi, key);
      }
    }

    /** hashtable_set; `table` and `node` say whether the two allocations it may
        need succeed. */
    method Set(key: K, value: V, table: bool, node: bool) returns (ok: bool)
      requires Valid()
      modifies this
      ensures Valid()
      ensures Contents() == if ok then OrderedMap.Set(old(Contents()), key, value) else old(Contents())
      ensures ok <==> (old(size) < Pow2(old(order)) || table) && (OrderedMap.Get(old(Contents()), key).Some? || node)
      ensures size <= Pow2(order)
    {
      hide Sound, ItemsOf, OrderedMap.Set, OrderedMap.Get;
      if size >= |buckets| {
        var rehashed := Rehash(table);
        if !rehashed {
          return false;
        }
      }
      Lookup(hash, size, buckets, list, ordered, pairs, nextFree, ring, ord, lo, hi, key);
      var h := hash(key);
      var found := FindPair(h % |buckets|, key, h);
      if found.Some? {
        OverwriteKeeps(hash, size, buckets, list, ordered, pairs, nextFree, ring, ord, lo, hi, found.value, value);
        pairs := pairs[found.value := pairs[found.value].(value := value)];
      } else {
        if !node {
          return false;
        }
        AddPair(h % |buckets|, key, value, h);
      }
      return true;
    }

    /** The insertion of a new pair in hashtable_set. */
    method AddPair(b: nat, key: K, value: V, h: nat)
      requires Valid() && size < |buckets| && h == hash(key) && b == h % |buckets|
      requires forall a :: a in pairs ==> pairs[a].key != key
      modifies this
      ensures Valid() && order == old(order)
      ensures Contents() == OrderedMap.Set(old(Contents()), key, value)
    {
      hide Sound, Segmented, Tags, Ring, LinksKept, Pow2, ItemsOf, OrderedMap.Set, InsertAt, ListInit, ListInsert;
      PrepareNode(hash, size, buckets, list, ordered, pairs, nextFree, ring, ord, lo, hi);
      ghost var b0, l0, o0, p0, r0, d0, lo0, hi0 := buckets, list, ordered, pairs, ring, ord, lo, hi;
      var id := nextFree;
      nextFree := nextFree + 1;
      list, ordered := ListInit(list, id), ListInit(ordered, id);
      pairs := pairs[id := Pair(h, key, value)];
      ghost var p := InsertToBucket(b, id, Tags(p0, r0, |b0|));
      ordered := ListInsert(ordered, HEAD, id);
      ord := InsertAt(ord, |ord|, id);
      size := size + 1;
      AttachNode(hash, size, b0, buckets, l0, list, o0, p0, id, r0, d0, lo0, hi0, lo, hi, key, value, b, p);
    }

    /** hashtable_get */
    method Get(key: K) returns (r: Option<V>)
      requires Valid()
      ensures r == OrderedMap.Get(Contents(), key)
    {
      Lookup(hash, size, buckets, list, ordered, pairs, nextFree, ring, ord, lo, hi, key);
      hide Sound, ItemsOf, OrderedMap.Get;
      var h := hash(key);
      var found := FindPair(h % |buckets|, key, h);
      if found.None? {
        return None;
      }
      return Some(pairs[found.value].value);
    }

    /** hashtable_del */
    method Del(key: K) returns (ok: bool)
      requires Valid()
      modifies this
      ensures Valid()
      ensures ok <==> OrderedMap.Get(old(Contents()), key).Some?
      ensures Contents() == OrderedMap.Delete(old(Contents()), key)
    {
      Lookup(hash, size, buckets, list, ordered, pairs, nextFree, ring, ord, lo, hi, key);
      hide Sound, ItemsOf, OrderedMap.Get, Delete;
      var h := hash(key);
      var found := FindPair(h % |buckets|, key, h);
      if found.None? {
        return false;
      }
      RemovePair(h % |buckets|, found.value);
      return true;
    }

    /** The unlinking half of hashtable_do_del. */
    method RemovePair(b: nat, node: Ptr)
      requires Valid() && |buckets| > 0 && node in pairs && b == pairs[node].hash % |buckets|
      modifies this
      ensures Valid()
      ensures Contents() == OrderedMap.Delete(old(Contents()), old(pairs)[node].key)
    {
      hide Sound, Pow2, ItemsOf, Delete, DropAt, AfterDrop, ListRemove, Cells;
      ghost var i, j := Positions(hash, size, buckets, list, ordered, pairs, nextFree, ring, ord, lo, hi, node);
      DetachNode(hash, size, buckets, list, ordered, pairs, nextFree, ring, ord, lo, hi, i, j);
      ShrinkBucket(b, node, i);
      hide Shrunk;
      list := ListRemove(list, node) - {node};
      ordered := ListRemove(ordered, node) - {node};
      pairs := pairs - {node};
      size := size - 1;
      lo, hi := AfterDrop(lo, i), AfterDrop(hi, i);
      ring, ord := DropAt(ring, i), DropAt(ord, j);
    }

    /** The bucket update of hashtable_do_del. */
    method ShrinkBucket(b: nat, node: Ptr, ghost i: nat)
      requires b < |buckets| && i < |ring| && node in list && list[node] == Link(Cells(ring)[i], Cells(ring)[i + 2])
      requires Cells(ring)[i + 1] == node
      modifies this`buckets
      ensures buckets == old(buckets)[b := Shrunk(old(buckets)[b], Cells(ring), i)]
    {
      if node == buckets[b].first && node == buckets[b].last {
        buckets := buckets[b := Bucket(HEAD, HEAD)];
      } else if node == buckets[b].first {
        buckets := buckets[b := buckets[b].(first := list[node].next)];
      } else if node == buckets[b].last {
        buckets := buckets[b := buckets[b].(last := list[node].prev)];
      }
    }

    /** hashtable_clear: each node is released only after its successor was
        read. */
    method Clear()
      requires Valid()
      modifies this
      ensures Valid() && Contents() == [] && order == old(order)
    {
      hide Keyed, Below, Segmented, Linked, Tags, NoBuckets, Zeros;
      DoClear();
      buckets := NoBuckets(Pow2(order));
      EmptyTable(list, ordered, old(pairs), pairs, hash, nextFree, |buckets|);
      list, ordered := ListInit(list, HEAD), ListInit(ordered, HEAD);
      size := 0;
      ring, ord, lo, hi := [], [], Zeros(Pow2(order)), Zeros(Pow2(order));
      EmptySegments(Pow2(order));
    }

    /** hashtable_do_clear */
    method DoClear()
      requires Valid()
      modifies this`list, this`ordered, this`pairs
      ensures pairs == map[] && list.Keys == {HEAD} && ordered.Keys == {HEAD}
    {
      hide Keyed, Below, Segmented, Tags, Pow2, Linked, Freeing;
      ghost var list0 := list;
      StartFreeing(list, ordered, pairs, ring, ord);
      var node := list[HEAD].next;
      ghost var i := 0;
      while node != HEAD
        invariant 0 <= i <= |ring| && node == Cells(ring)[i + 1]
        invariant Freeing(list0, list, ordered, pairs, ring, i)
        decreases |ring| - i
      {
        FreeOne(list0, list, ordered, pairs, ring, i);
        var next := list[node].next;
        list, ordered, pairs := list - {node}, ordered - {node}, pairs - {node};
        node := next;
        i := i + 1;
      }
      DoneFreeing(list0, list, ordered, pairs, ring, i);
    }

    /** Walking hashtable_iter / hashtable_iter_next from the start. */
    method Iterate() returns (items: Items<K, V>)
      requires Valid()
      ensures items == Contents()
    {
      hide Sound, ItemsOf;
      items := [];
      OrderStep(hash, size, buckets, list, ordered, pairs, nextFree, ring, ord, lo, hi, 0);
      var node := ordered[HEAD].next;
      ghost var i := 0;
      while node != HEAD
        invariant 0 <= i <= |ord| && node == Cells(ord)[i + 1]
        invariant items == Contents()[..i]
        decreases |ord| - i
      {
        assert i < |ord|;
        OrderStep(hash, size, buckets, list, ordered, pairs, nextFree, ring, ord, lo, hi, i + 1);
        items := items + [(pairs[node].key, pairs[node].value)];
        node := ordered[node].next;
        i := i + 1;
      }
      OrderEnds(hash, size, buckets, list, ordered, pairs, nextFree, ring, ord, lo, hi, i);
    }
  }

  // ----- the single operations, seen from the links

  lemma OverwriteKeeps<K, V>(hash: K -> nat, size: nat, bk: seq<Bucket>, list: Links, ordered: Links,
                             pairs: Pairs<K, V>, limit: Ptr, ring: seq<Ptr>, ord: seq<Ptr>,
                             lo: seq<nat>, hi: seq<nat>, a: Ptr, v: V)
    requires Sound(hash, size, bk, list, ordered, pairs, limit, ring, ord, lo, hi) && a in pairs
    ensures var pairs' := pairs[a := pairs[a].(value := v)];
            && Sound(hash, size, bk, list, ordered, pairs', limit, ring, ord, lo, hi)
            && ItemsOf(pairs', ord) == OrderedMap.Set(ItemsOf(pairs, ord), pairs[a].key, v)
  {
    hide Lists, Keyed, Ring, ItemsOf, Segmented;
    OverwriteSets(pairs, ord, hash, a, v);
    OverwriteLists(pairs, ring, hash, a, v);
    assert Tags(pairs[a := pairs[a].(value := v)], ring, |bk|) == Tags(pairs, ring, |bk|);
  }

  lemma Lookup<K, V>(hash: K -> nat, size: nat, bk: seq<Bucket>, list: Links, ordered: Links, pairs: Pairs<K, V>,
                     limit: Ptr, ring: seq<Ptr>, ord: seq<Ptr>, lo: seq<nat>, hi: seq<nat>, k: K)
    requires Sound(hash, size, bk, list, ordered, pairs, limit, ring, ord, lo, hi)
    ensures (forall a :: a in pairs ==> pairs[a].key != k) ==>
              OrderedMap.Get(ItemsOf(pairs, ord), k) == None && Delete(ItemsOf(pairs, ord), k) == ItemsOf(pairs, ord)
    ensures forall a :: a in pairs && pairs[a].key == k ==>
      OrderedMap.Get(ItemsOf(pairs, ord), k) == Some(pairs[a].value)
  {
    hide Segmented, Ring, Tags;
    if forall a :: a in pairs ==> pairs[a].key != k {
      NotFound(pairs, ord, k);
    }
    forall a | a in pairs && pairs[a].key == k
      ensures OrderedMap.Get(ItemsOf(pairs, ord), k) == Some(pairs[a].value)
    {
      var i :| 0 <= i < |ord| && ord[i] == a;
      FoundAt(pairs, ord, hash, i);
    }
  }

  /** The step of the insertion-order walk at cell `i`. */
  lemma OrderStep<K, V>(hash: K -> nat, size: nat, bk: seq<Bucket>, list: Links, ordered: Links, pairs: Pairs<K, V>,
                        limit: Ptr, ring: seq<Ptr>, ord: seq<Ptr>, lo: seq<nat>, hi: seq<nat>, i: nat)
    requires Sound(hash, size, bk, list, ordered, pairs, limit, ring, ord, lo, hi) && i <= |ord|
    ensures Cells(ord)[i] in ordered && ordered[Cells(ord)[i]].next == Cells(ord)[i + 1]
    ensures i > 0 ==> Cells(ord)[i] == ord[i - 1] && ord[i - 1] in pairs
    ensures forall j :: 0 <= j < |ord| ==> ord[j] in pairs
  {
    RingAt(ordered, ord, i);
  }

  lemma OrderEnds<K, V>(hash: K -> nat, size: nat, bk: seq<Bucket>, list: Links, ordered: Links, pairs: Pairs<K, V>,
                        limit: Ptr, ring: seq<Ptr>, ord: seq<Ptr>, lo: seq<nat>, hi: seq<nat>, i: nat)
    requires Sound(hash, size, bk, list, ordered, pairs, limit, ring, ord, lo, hi) && i <= |ord|
    ensures Cells(ord)[i + 1] == HEAD ==> i == |ord|
  {
  }

  /** A fresh node is on no ring, and linking it to itself disturbs none. */
  lemma PrepareNode<K, V>(hash: K -> nat, size: nat, bk: seq<Bucket>, list: Links, ordered: Links, pairs: Pairs<K, V>,
                          id: Ptr, ring: seq<Ptr>, ord: seq<Ptr>, lo: seq<nat>, hi: seq<nat>)
    requires Sound(hash, size, bk, list, ordered, pairs, id, ring, ord, lo, hi)
    ensures id !in pairs && id != HEAD && id !in ring && id !in ord
    ensures Ring(ListInit(list, id), ring) && id in ListInit(list, id)
    ensures ListInit(list, id).Keys == list.Keys + {id}
    ensures HEAD in ordered && ordered[HEAD].prev in ordered
    ensures var m := ListInit(ordered, id); HEAD in m && m[HEAD].prev in m && id in m
    ensures |bk| > 0 && Segmented(bk, ring, Tags(pairs, ring, |bk|), lo, hi)
  {
    hide Segmented, Keyed, Tags;
    RingInitNode(list, ring, id);
    RingInitNode(ordered, ord, id);
    RingAt(ordered, ord, |ord|);
  }

  lemma AttachNode<K, V>(hash: K -> nat, size: nat, bk0: seq<Bucket>, bk: seq<Bucket>, list0: Links, list: Links,
                         ordered0: Links, pairs0: Pairs<K, V>, id: Ptr, ring0: seq<Ptr>, ord0: seq<Ptr>,
                         lo0: seq<nat>, hi0: seq<nat>, lo: seq<nat>, hi: seq<nat>, k: K, v: V, b: nat, p: nat)
    requires size > 0 && Sound(hash, size - 1, bk0, list0, ordered0, pairs0, id, ring0, ord0, lo0, hi0)
    requires forall a :: a in pairs0 ==> pairs0[a].key != k
    requires size <= |bk0| == |bk| && p <= |ring0| && Ring(list, InsertAt(ring0, p, id))
      && list.Keys == list0.Keys + {id}
    requires b == hash(k) % |bk0|
    requires Segmented(bk, InsertAt(ring0, p, id), InsertAt(Tags(pairs0, ring0, |bk0|), p, b), lo, hi)
    requires HEAD in ordered0 && ordered0[HEAD].prev in ordered0 && id != HEAD
    ensures var pairs := pairs0[id := Pair(hash(k), k, v)];
            var ring, ord := InsertAt(ring0, p, id), InsertAt(ord0, |ord0|, id);
            && Sound(hash, size, bk, list, ListInsert(ListInit(ordered0, id), HEAD, id), pairs, id + 1,
                     ring, ord, lo, hi)
            && ItemsOf(pairs, ord) == OrderedMap.Set(ItemsOf(pairs0, ord0), k, v)
  {
    hide Lists, Keyed, Ring, ItemsOf, InsertAt, ListInsert, Tags, OrderedMap.Set, ListInit, Segmented;
    var pair := Pair(hash(k), k, v);
    PrepareNode(hash, size - 1, bk0, list0, ordered0, pairs0, id, ring0, ord0, lo0, hi0);
    AppendSets(pairs0, ord0, hash, id, k, v);
    ListsInsert(pairs0, ring0, p, id, pair);
    AppendToOrder(ordered0, ord0, id);
    TagsAfterInsert(pairs0[id := pair], ring0, p, id, |bk|);
    TagsOfOthers(pairs0, ring0, id, pair, |bk|);
    assert pairs0[id := pair].Keys == pairs0.Keys + {id};
  }

  lemma AppendToOrder(m: Links, ord: seq<Ptr>, id: Ptr)
    requires Ring(m, ord) && id !in m
    ensures var m' := ListInit(m, id);
            && HEAD in m' && m'[HEAD].prev in m' && id in m'
            && Ring(ListInsert(m', HEAD, id), InsertAt(ord, |ord|, id))
            && ListInsert(m', HEAD, id).Keys == m.Keys + {id}
  {
    var m' := ListInit(m, id);
    RingInitNode(m, ord, id);
    InsertIntoRing(m', ord, |ord|, id);
    InsertKeepsLinks(m', ord, |ord|, id);
  }

  lemma TagsOfOthers<K, V>(pairs: Pairs<K, V>, s: seq<Ptr>, id: Ptr, pair: Pair<K, V>, n: nat)
    requires n > 0 && id !in s
    ensures Tags(pairs[id := pair], s, n) == Tags(pairs, s, n)
  {
  }

  lemma Positions<K, V>(hash: K -> nat, size: nat, bk: seq<Bucket>, list: Links, ordered: Links, pairs: Pairs<K, V>,
                        limit: Ptr, ring: seq<Ptr>, ord: seq<Ptr>, lo: seq<nat>, hi: seq<nat>, a: Ptr)
    returns (i: nat, j: nat)
    requires Sound(hash, size, bk, list, ordered, pairs, limit, ring, ord, lo, hi) && a in pairs
    ensures i < |ring| && ring[i] == a && j < |ord| && ord[j] == a
  {
    hide Segmented, Ring, Keyed, Tags;
    i :| 0 <= i < |ring| && ring[i] == a;
    j :| 0 <= j < |ord| && ord[j] == a;
  }

  lemma DetachNode<K, V>(hash: K -> nat, size: nat, bk: seq<Bucket>, list: Links, ordered: Links, pairs: Pairs<K, V>,
                         limit: Ptr, ring: seq<Ptr>, ord: seq<Ptr>, lo: seq<nat>, hi: seq<nat>, i: nat, j: nat)
    requires Sound(hash, size, bk, list, ordered, pairs, limit, ring, ord, lo, hi)
    requires i < |ring| && j < |ord| && ring[i] == ord[j]
    ensures size > 0 && |bk| > 0
    ensures var a := ring[i];
            && a in pairs && a in list && list[a] == Link(Cells(ring)[i], Cells(ring)[i + 2]) && Cells(ring)[i + 1] == a
            && list[a].prev in list && list[a].next in list
            && a in ordered && ordered[a].prev in ordered && ordered[a].next in ordered
            && Sound(hash, size - 1, bk[pairs[a].hash % |bk| := Shrunk(bk[pairs[a].hash % |bk|], Cells(ring), i)],
                     ListRemove(list, a) - {a}, ListRemove(ordered, a) - {a}, pairs - {a}, limit,
                     DropAt(ring, i), DropAt(ord, j), AfterDrop(lo, i), AfterDrop(hi, i))
            && ItemsOf(pairs - {a}, DropAt(ord, j)) == Delete(ItemsOf(pairs, ord), pairs[a].key)
  {
    hide Lists, Keyed, Ring, ItemsOf, DropAt, ListRemove, Tags, Delete, Segmented, AfterDrop, Cells, Shrunk;
    RemoveFromRing(list, ring, i);
    RemoveFromRing(ordered, ord, j);
    RemoveEffectKeys(list, ring, i);
    RemoveEffectKeys(ordered, ord, j);
    ListsDrop(pairs, ring, i);
    RemoveDeletes(pairs, ord, hash, j);
    DetachSegment(bk, pairs, ring, lo, hi, i);
    TagsAfterDrop(pairs, ring, i, |bk|);
  }

  lemma RemoveEffectKeys(m: Links, s: seq<Ptr>, p: nat)
    requires Ring(m, s) && p < |s|
    ensures s[p] in m && m[s[p]].prev in m && m[s[p]].next in m
    ensures ListRemove(m, s[p]).Keys == m.Keys
  {
    RemoveFromRing(m, s, p);
  }

  lemma DetachSegment<K, V>(bk: seq<Bucket>, pairs: Pairs<K, V>, ring: seq<Ptr>, lo: seq<nat>, hi: seq<nat>, i: nat)
    requires |bk| > 0 && i < |ring| && Lists(pairs, ring)
    requires Segmented(bk, ring, Tags(pairs, ring, |bk|), lo, hi)
    ensures ring[i] in pairs && Distinct(ring)
    ensures var b := pairs[ring[i]].hash % |bk|;
            Segmented(bk[b := Shrunk(bk[b], Cells(ring), i)], DropAt(ring, i), DropAt(Tags(pairs, ring, |bk|), i),
                      AfterDrop(lo, i), AfterDrop(hi, i))
  {
    DropKeepsSegments(bk, ring, Tags(pairs, ring, |bk|), lo, hi, i);
  }

  lemma EmptyTable<K, V>(list: Links, ordered: Links, pairs0: Pairs<K, V>, pairs: Pairs<K, V>,
                         hash: K -> nat, limit: Ptr, n: nat)
    requires pairs == map[] && list.Keys == {HEAD} && ordered.Keys == {HEAD} && Below(pairs0, limit) && n > 0
    ensures Linked(ListInit(list, HEAD), ListInit(ordered, HEAD), pairs, [], [])
    ensures Keyed(pairs, hash) && Below(pairs, limit) && Tags(pairs, [], n) == []
  {
    EmptyRing(list);
    EmptyRing(ordered);
  }

  /** The first `i` nodes are released; memory holds the rest, untouched. */
  ghost predicate Freeing<K, V>(list0: Links, list: Links, ordered: Links, pairs: Pairs<K, V>, ring: seq<Ptr>, i: nat) {
    && i <= |ring| && Ring(list0, ring)
    && list.Keys == Elems(ring[i..]) + {HEAD}
    && ordered.Keys == Elems(ring[i..]) + {HEAD}
    && pairs.Keys == Elems(ring[i..])
    && (forall j :: i <= j < |ring| ==> ring[j] in list && list[ring[j]] == list0[ring[j]])
  }

  lemma StartFreeing<K, V>(list: Links, ordered: Links, pairs: Pairs<K, V>, ring: seq<Ptr>, ord: seq<Ptr>)
    requires Linked(list, ordered, pairs, ring, ord)
    ensures HEAD in list && list[HEAD].next == Cells(ring)[1]
    ensures Freeing(list, list, ordered, pairs, ring, 0)
  {
    RingAt(list, ring, 0);
    assert ring[0..] == ring;
    assert pairs.Keys == Elems(ring);
  }

  lemma FreeOne<K, V>(list0: Links, list: Links, ordered: Links, pairs: Pairs<K, V>, ring: seq<Ptr>, i: nat)
    requires Freeing(list0, list, ordered, pairs, ring, i) && Cells(ring)[i + 1] != HEAD
    ensures i < |ring| && Cells(ring)[i + 1] == ring[i] && ring[i] in list && list[ring[i]].next == Cells(ring)[i + 2]
    ensures Freeing(list0, list - {ring[i]}, ordered - {ring[i]}, pairs - {ring[i]}, ring, i + 1)
  {
    RingAt(list0, ring, i + 1);
    ElemsTake(ring, i);
    DistinctSplit(ring, i);
    hide Elems;
    assert forall j :: i + 1 <= j < |ring| ==> ring[j] != ring[i];
    assert ring[i] != HEAD;
    hide Ring, Cells;
  }

  lemma DoneFreeing<K, V>(list0: Links, list: Links, ordered: Links, pairs: Pairs<K, V>, ring: seq<Ptr>, i: nat)
    requires Freeing(list0, list, ordered, pairs, ring, i) && Cells(ring)[i + 1] == HEAD
    ensures pairs == map[] && list.Keys == {HEAD} && ordered.Keys == {HEAD}
  {
    assert i == |ring|;
    assert Elems(ring[i..]) == {};
  }

  // ----- rehashing

  /** The first `i` nodes of the old ring are in the new one; the others still
      lead to their old successors. */
  ghost predicate Moving(list: Links, was: seq<Ptr>, s: seq<Ptr>, i: nat) {
    && i <= |was| && Distinct(was)
    && Ring(list, s) && |s| == i
    && Elems(s) == Elems(was[..i])
    && (forall j :: i <= j < |was| ==> was[j] in list && list[was[j]].next == Cells(was)[j + 2])
  }

  lemma StartMoving<K, V>(list: Links, ordered: Links, pairs: Pairs<K, V>, ring: seq<Ptr>, ord: seq<Ptr>)
    requires Linked(list, ordered, pairs, ring, ord)
    ensures HEAD in list && list[HEAD].next == Cells(ring)[1]
    ensures Moving(ListInit(list, HEAD), ring, [], 0)
    ensures ListInit(list, HEAD).Keys == list.Keys
  {
    RingAt(list, ring, 0);
    EmptyRing(list);
    forall j | 0 <= j < |ring|
      ensures ring[j] in list && list[ring[j]].next == Cells(ring)[j + 2]
    {
      RingAt(list, ring, j + 1);
    }
  }

  lemma StartRehash<K, V>(hash: K -> nat, size: nat, bk: seq<Bucket>, list: Links, ordered: Links, pairs: Pairs<K, V>,
                          limit: Ptr, ring: seq<Ptr>, ord: seq<Ptr>, lo: seq<nat>, hi: seq<nat>, n: nat)
    requires Sound(hash, size, bk, list, ordered, pairs, limit, ring, ord, lo, hi) && n > 0
    ensures Linked(list, ordered, pairs, ring, ord)
    ensures HEAD in list && list[HEAD].next == Cells(ring)[1]
    ensures Moving(ListInit(list, HEAD), ring, [], 0) && ListInit(list, HEAD).Keys == list.Keys
    ensures Segmented(NoBuckets(n), [], Tags(pairs, [], n), Zeros(n), Zeros(n))
  {
    StartMoving(list, ordered, pairs, ring, ord);
    EmptySegments(n);
    assert Tags(pairs, [], n) == [];
  }

  lemma FinishRehash<K, V>(hash: K -> nat, size: nat, bk0: seq<Bucket>, bk: seq<Bucket>, list0: Links, list: Links,
                           ordered: Links, pairs: Pairs<K, V>, limit: Ptr, ring0: seq<Ptr>, ring: seq<Ptr>,
                           ord: seq<Ptr>, lo0: seq<nat>, hi0: seq<nat>, lo: seq<nat>, hi: seq<nat>)
    requires Sound(hash, size, bk0, list0, ordered, pairs, limit, ring0, ord, lo0, hi0)
    requires |bk0| <= |bk| && Linked(list, ordered, pairs, ring, ord) && |ring| == |ring0|
    requires Segmented(bk, ring, Tags(pairs, ring, |bk|), lo, hi)
    ensures Sound(hash, size, bk, list, ordered, pairs, limit, ring, ord, lo, hi)
  {
  }

  lemma NextToMove<K, V>(list0: Links, ordered: Links, list: Links, pairs: Pairs<K, V>, was: seq<Ptr>,
                         s: seq<Ptr>, ord: seq<Ptr>, i: nat)
    requires Linked(list0, ordered, pairs, was, ord)
    requires Moving(list, was, s, i) && Cells(was)[i + 1] != HEAD
    ensures i < |was| && was[i] == Cells(was)[i + 1] && Ring(list, s)
    ensures was[i] in pairs && was[i] in list && was[i] != HEAD && was[i] !in s
    ensures list[was[i]].next == Cells(was)[i + 2]
  {
    DistinctSplit(was, i);
    assert was[i] !in Elems(s);
  }

  lemma MoveOne(list: Links, list': Links, was: seq<Ptr>, s: seq<Ptr>, i: nat, p: nat)
    requires Moving(list, was, s, i) && i < |was| && p <= |s|
    requires Ring(list', InsertAt(s, p, was[i])) && LinksKept(list, list', s, was[i])
    ensures Moving(list', was, InsertAt(s, p, was[i]), i + 1)
    ensures list'.Keys == list.Keys
  {
    ElemsInsert(s, p, was[i]);
    ElemsTake(was, i);
    DistinctSplit(was, i);
    hide InsertAt, Ring;
    forall j | i + 1 <= j < |was|
      ensures was[j] in list' && list'[was[j]] == list[was[j]]
    {
      assert was[j] !in Elems(s);
    }
  }

  lemma DoneMoving<K, V>(list0: Links, list: Links, ordered: Links, pairs: Pairs<K, V>, was: seq<Ptr>,
                         s: seq<Ptr>, ord: seq<Ptr>, i: nat)
    requires Linked(list0, ordered, pairs, was, ord) && list.Keys == list0.Keys
    requires Moving(list, was, s, i) && Cells(was)[i + 1] == HEAD
    ensures Linked(list, ordered, pairs, s, ord) && |s| == |was|
  {
    assert i == |was|;
    assert was[..i] == was;
    hide Keyed;
    forall k | 0 <= k < |s|
      ensures s[k] in pairs
    {
      assert s[k] in Elems(s);
    }
    forall a | a in pairs
      ensures a in s
    {
      assert a in Elems(was);
    }
  }

  /** The loop of hashtable_find_pair. */
  method Walk<K(==), V>(list: Links, pairs: Pairs<K, V>, first: Ptr, last: Ptr, key: K, h: nat,
                        ghost ordered: Links, ghost ring: seq<Ptr>, ghost ord: seq<Ptr>, ghost l: nat, ghost e: nat)
    returns (r: Option<Ptr>)
    requires Linked(list, ordered, pairs, ring, ord)
    requires l < e <= |ring| && first == ring[l] && last == ring[e - 1]
    ensures r.Some? ==> r.value in pairs && pairs[r.value].hash == h && pairs[r.value].key == key
    ensures r.None? ==> NoMatch(pairs, ring, l, e, h, key)
  {
    hide Linked;
    var node := first;
    ghost var i := l;
    WalkStep(list, ordered, pairs, ring, ord, i);
    while true
      invariant l <= i < e && node == ring[i] && node in pairs && node in list
      invariant NoMatch(pairs, ring, l, i, h, key)
      decreases e - i
    {
      WalkStep(list, ordered, pairs, ring, ord, i);
      if pairs[node].hash == h && pairs[node].key == key {
        return Some(node);
      }
      if node == last {
        break;
      }
      node := list[node].next;
      i := i + 1;
      WalkStep(list, ordered, pairs, ring, ord, i);
    }
    return None;
  }

  ghost predicate NoMatch<K, V>(pairs: Pairs<K, V>, ring: seq<Ptr>, l: nat, e: nat, h: nat, key: K) {
    e <= |ring| && forall j :: l <= j < e ==>
      ring[j] in pairs && !(pairs[ring[j]].hash == h && pairs[ring[j]].key == key)
  }

  lemma WalkStep<K, V>(list: Links, ordered: Links, pairs: Pairs<K, V>, ring: seq<Ptr>, ord: seq<Ptr>, i: nat)
    requires Linked(list, ordered, pairs, ring, ord) && i < |ring|
    ensures ring[i] in pairs && ring[i] in list
    ensures i + 1 < |ring| ==> list[ring[i]].next == ring[i + 1]
    ensures Distinct(ring)
  {
    RingAt(list, ring, i + 1);
  }

  lemma NoneInBucket<K, V>(hash: K -> nat, size: nat, bk: seq<Bucket>, list: Links, ordered: Links, pairs: Pairs<K, V>,
                           limit: Ptr, ring: seq<Ptr>, ord: seq<Ptr>, lo: seq<nat>, hi: seq<nat>, key: K)
    requires Sound(hash, size, bk, list, ordered, pairs, limit, ring, ord, lo, hi)
    requires var b := hash(key) % |bk|;
             |lo| == |hi| == |bk| && (lo[b] == hi[b] || NoMatch(pairs, ring, lo[b], hi[b], hash(key), key))
    ensures forall a :: a in pairs ==> pairs[a].key != key
  {
    hide Ring, Covers;
    forall a | a in pairs
      ensures pairs[a].key != key
    {
      var i :| 0 <= i < |ring| && ring[i] == a;
      assert Tags(pairs, ring, |bk|)[i] == pairs[a].hash % |bk|;
    }
  }

  /** The stretch of the ring that bucket `b` leads to. */
  lemma BucketOf<K, V>(hash: K -> nat, size: nat, bk: seq<Bucket>, list: Links, ordered: Links, pairs: Pairs<K, V>,
                       limit: Ptr, ring: seq<Ptr>, ord: seq<Ptr>, lo: seq<nat>, hi: seq<nat>, b: nat)
    requires Sound(hash, size, bk, list, ordered, pairs, limit, ring, ord, lo, hi) && b < |bk|
    ensures |lo| == |hi| == |bk| && lo[b] <= hi[b] <= |ring|
    ensures bk[b].first == HEAD && bk[b].first == bk[b].last <==> lo[b] == hi[b]
    ensures lo[b] < hi[b] ==> bk[b] == Bucket(ring[lo[b]], ring[hi[b] - 1])
    ensures Linked(list, ordered, pairs, ring, ord)
  {
    assert Covers(bk[b], ring, lo[b], hi[b]);
  }
}
