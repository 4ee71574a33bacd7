/** Buckets as stretches of one ring: which positions each bucket covers. */
module Segments {
  import opened OrderedMap
  import opened Rings

  datatype Bucket = Bucket(first: Ptr, last: Ptr)

  const EMPTY: Bucket := Bucket(HEAD, HEAD)

  /** A bucket covering positions [l, h) of ring `s`. */
  ghost predicate Covers(b: Bucket, s: seq<Ptr>, l: nat, h: nat) {
    l <= h <= |s| && b == if l == h then EMPTY else Bucket(s[l], s[h - 1])
  }

  /** Bucket `b` holds exactly the ring positions tagged `b`, and they are the
      contiguous stretch [lo[b], hi[b]). */
  ghost predicate Segmented(bk: seq<Bucket>, s: seq<Ptr>, tags: seq<nat>, lo: seq<nat>, hi: seq<nat>) {
    && |tags| == |s| && |lo| == |bk| && |hi| == |bk|
    && (forall b :: 0 <= b < |bk| ==> Covers(bk[b], s, lo[b], hi[b]))
    && Tagged(tags, lo, hi)
  }

  /** Position `i` lies in the stretch of `b` exactly when it is tagged `b`. */
  ghost predicate Tagged(tags: seq<nat>, lo: seq<nat>, hi: seq<nat>)
    requires |lo| == |hi|
  {
    && (forall i :: 0 <= i < |tags| ==> tags[i] < |lo| && lo[tags[i]] <= i < hi[tags[i]])
    && (forall b, i :: 0 <= b < |lo| && lo[b] <= i < hi[b] && i < |tags| ==> tags[i] == b)
  }

  /** Where insert_to_bucket puts a node: first in its bucket, or at the end of
      the ring if the bucket was empty. */
  ghost function Place(s: seq<Ptr>, lo: seq<nat>, hi: seq<nat>, b: nat): nat
    requires b < |lo| == |hi|
  {
    if lo[b] == hi[b] then |s| else lo[b]
  }

  ghost function LoAfterInsert(lo: seq<nat>, p: nat, b: nat): (r: seq<nat>)
    ensures |r| == |lo|
    ensures forall c :: 0 <= c < |lo| ==> r[c] == if c == b then p else if lo[c] >= p then lo[c] + 1 else lo[c]
  {
    seq(|lo|, c requires 0 <= c < |lo| => if c == b then p else if lo[c] >= p then lo[c] + 1 else lo[c])
  }

  ghost function HiAfterInsert(lo: seq<nat>, hi: seq<nat>, p: nat, b: nat): (r: seq<nat>)
    requires |lo| == |hi|
    ensures |r| == |lo|
    ensures forall c :: 0 <= c < |lo| ==>
                          r[c] == if c == b then (if lo[b] == hi[b] then p + 1 else hi[b] + 1)
                                  else if lo[c] >= p then hi[c] + 1 else hi[c]
  {
    seq(|lo|, c requires 0 <= c < |lo| =>
      if c == b then (if lo[b] == hi[b] then p + 1 else hi[b] + 1)
      else if lo[c] >= p then hi[c] + 1 else hi[c])
  }

  /** No other bucket straddles the place of insertion. */
  lemma PlaceIsClear(bk: seq<Bucket>, s: seq<Ptr>, tags: seq<nat>, lo: seq<nat>, hi: seq<nat>, b: nat, c: nat)
    requires Segmented(bk, s, tags, lo, hi) && b < |bk| && c < |bk| && c != b
    ensures var p := Place(s, lo, hi, b); p <= |s| && (lo[c] >= p || hi[c] <= p)
  {
    var p := Place(s, lo, hi, b);
    assert Covers(bk[b], s, lo[b], hi[b]) && Covers(bk[c], s, lo[c], hi[c]);
    if p < |s| {
      assert tags[p] == b;
    }
  }

  lemma CoversAfterInsert(bkt: Bucket, s: seq<Ptr>, l: nat, h: nat, p: nat, node: Ptr)
    requires Covers(bkt, s, l, h) && p <= |s| && (l >= p || h <= p)
    ensures if l >= p then Covers(bkt, InsertAt(s, p, node), l + 1, h + 1) else Covers(bkt, InsertAt(s, p, node), l, h)
  {
  }

  function Grown(b: Bucket, node: Ptr): Bucket {
    Bucket(node, if b == EMPTY then node else b.last)
  }

  /** insert_to_bucket keeps every bucket a contiguous stretch of its own. */
  lemma InsertKeepsSegments(bk: seq<Bucket>, s: seq<Ptr>, tags: seq<nat>, lo: seq<nat>, hi: seq<nat>, b: nat,
                            node: Ptr, p: nat)
    requires Segmented(bk, s, tags, lo, hi) && Distinct(s) && b < |bk| && node != HEAD
    requires p == Place(s, lo, hi, b)
    ensures p <= |s|
    ensures if bk[b] == EMPTY then p == |s| else p < |s| && bk[b].first == s[p]
    ensures Segmented(bk[b := Grown(bk[b], node)], InsertAt(s, p, node), InsertAt(tags, p, b),
                      LoAfterInsert(lo, p, b), HiAfterInsert(lo, hi, p, b))
  {
    var bk' := bk[b := Grown(bk[b], node)];
    var lo', hi' := LoAfterInsert(lo, p, b), HiAfterInsert(lo, hi, p, b);
    assert Covers(bk[b], s, lo[b], hi[b]);
    OwnCovers(bk[b], s, lo[b], hi[b], node);
    hide Covers, InsertAt, LoAfterInsert, HiAfterInsert, Distinct, Tagged;
    InsertedTags(bk, s, tags, lo, hi, b);
    forall c | 0 <= c < |bk'|
      ensures Covers(bk'[c], InsertAt(s, p, node), lo'[c], hi'[c])
    {
      if c != b {
        PlaceIsClear(bk, s, tags, lo, hi, b, c);
        CoversAfterInsert(bk[c], s, lo[c], hi[c], p, node);
      }
    }
  }

  lemma OwnCovers(b: Bucket, s: seq<Ptr>, l: nat, h: nat, node: Ptr)
    requires Covers(b, s, l, h) && Distinct(s)
    ensures b == EMPTY <==> l == h
    ensures l < h ==> b.first == s[l]
    ensures var p := if l == h then |s| else l;
            Covers(Grown(b, node), InsertAt(s, p, node), p, if l == h then p + 1 else h + 1)
  {
  }

  lemma InsertedTags(bk: seq<Bucket>, s: seq<Ptr>, tags: seq<nat>, lo: seq<nat>, hi: seq<nat>, b: nat)
    requires Segmented(bk, s, tags, lo, hi) && b < |bk|
    ensures var p := Place(s, lo, hi, b);
            p <= |tags| && Tagged(InsertAt(tags, p, b), LoAfterInsert(lo, p, b), HiAfterInsert(lo, hi, p, b))
  {
    var p := Place(s, lo, hi, b);
    var tags', lo', hi' := InsertAt(tags, p, b), LoAfterInsert(lo, p, b), HiAfterInsert(lo, hi, p, b);
    assert Covers(bk[b], s, lo[b], hi[b]);
    hide InsertAt, LoAfterInsert, HiAfterInsert;
    forall i | 0 <= i < |tags'|
      ensures tags'[i] < |bk| && lo'[tags'[i]] <= i < hi'[tags'[i]]
    {
      if i != p {
        var j := if i < p then i else i - 1;
        assert tags'[i] == tags[j];
        if tags[j] != b {
          PlaceIsClear(bk, s, tags, lo, hi, b, tags[j]);
        }
      }
    }
    forall c, i | 0 <= c < |bk| && lo'[c] <= i < hi'[c] && i < |tags'|
      ensures tags'[i] == c
    {
      if c == b {
        assert i > p ==> tags[i - 1] == b;
      } else {
        PlaceIsClear(bk, s, tags, lo, hi, b, c);
        if lo[c] >= p {
          assert tags[i - 1] == c;
        } else {
          assert tags[i] == c;
        }
      }
    }
  }

  // ----- taking a node out

  ghost function AfterDrop(xs: seq<nat>, p: nat): (r: seq<nat>)
    ensures |r| == |xs|
    ensures forall c :: 0 <= c < |xs| ==> r[c] == if xs[c] > p then xs[c] - 1 else xs[c]
  {
    seq(|xs|, c requires 0 <= c < |xs| => if xs[c] > p then xs[c] - 1 else xs[c])
  }

  /** The bucket update of hashtable_do_del for the node at ring position `p`. */
  function Shrunk(b: Bucket, c: seq<Ptr>, p: nat): Bucket
    requires p + 2 < |c|
  {
    if c[p + 1] == b.first && c[p + 1] == b.last then EMPTY
    else if c[p + 1] == b.first then b.(first := c[p + 2])
    else if c[p + 1] == b.last then b.(last := c[p])
    else b
  }

  lemma DropKeepsSegments(bk: seq<Bucket>, s: seq<Ptr>, tags: seq<nat>, lo: seq<nat>, hi: seq<nat>, p: nat)
    requires Segmented(bk, s, tags, lo, hi) && Distinct(s) && p < |s|
    ensures var b := tags[p];
            && b < |bk|
            && Segmented(bk[b := Shrunk(bk[b], Cells(s), p)], DropAt(s, p), DropAt(tags, p),
                         AfterDrop(lo, p), AfterDrop(hi, p))
  {
    var b := tags[p];
    var bk', s' := bk[b := Shrunk(bk[b], Cells(s), p)], DropAt(s, p);
    var lo', hi' := AfterDrop(lo, p), AfterDrop(hi, p);
    assert Covers(bk[b], s, lo[b], hi[b]);
    ShrunkCovers(bk[b], s, lo[b], hi[b], p);
    forall c | 0 <= c < |bk'|
      ensures Covers(bk'[c], s', lo'[c], hi'[c])
    {
      if c != b {
        assert Covers(bk[c], s, lo[c], hi[c]);
        assert !(lo[c] <= p < hi[c]);
        OtherCovers(bk[c], s, lo[c], hi[c], p);
      }
    }
    hide Covers, DropAt, Shrunk, Cells, Tagged;
    DroppedTags(bk, s, tags, lo, hi, p);
  }

  lemma ShrunkCovers(b: Bucket, s: seq<Ptr>, l: nat, h: nat, p: nat)
    requires Covers(b, s, l, h) && Distinct(s) && l <= p < h
    ensures Covers(Shrunk(b, Cells(s), p), DropAt(s, p), l, h - 1)
  {
    var c := Cells(s);
    assert c[p + 1] == s[p];
    assert c[p + 1] == b.first <==> p == l;
    assert c[p + 1] == b.last <==> p == h - 1;
    assert p > 0 ==> c[p] == s[p - 1];
    assert p + 1 < |s| ==> c[p + 2] == s[p + 1];
    hide Cells;
  }

  lemma OtherCovers(b: Bucket, s: seq<Ptr>, l: nat, h: nat, p: nat)
    requires Covers(b, s, l, h) && p < |s| && !(l <= p < h)
    ensures Covers(b, DropAt(s, p), if l > p then l - 1 else l, if h > p then h - 1 else h)
  {
  }

  lemma DroppedTags(bk: seq<Bucket>, s: seq<Ptr>, tags: seq<nat>, lo: seq<nat>, hi: seq<nat>, p: nat)
    requires Segmented(bk, s, tags, lo, hi) && p < |s|
    ensures Tagged(DropAt(tags, p), AfterDrop(lo, p), AfterDrop(hi, p))
  {
    var tags', lo', hi' := DropAt(tags, p), AfterDrop(lo, p), AfterDrop(hi, p);
    hide DropAt, AfterDrop, Covers;
    forall i | 0 <= i < |tags'|
      ensures tags'[i] < |bk| && lo'[tags'[i]] <= i < hi'[tags'[i]]
    {
      var j := if i < p then i else i + 1;
      assert tags'[i] == tags[j];
    }
    forall c, i | 0 <= c < |bk| && lo'[c] <= i < hi'[c] && i < |tags'|
      ensures tags'[i] == c
    {
      var j := if i < p then i else i + 1;
      assert tags'[i] == tags[j];
      assert lo[c] <= j < hi[c];
    }
  }

  function NoBuckets(n: nat): (bk: seq<Bucket>)
    ensures |bk| == n && forall b :: 0 <= b < n ==> bk[b] == EMPTY
  {
    seq(n, _ => EMPTY)
  }

  ghost function Zeros(n: nat): (z: seq<nat>)
    ensures |z| == n && forall b :: 0 <= b < n ==> z[b] == 0
  {
    seq(n, _ => 0)
  }

  /** A table whose buckets are all empty, over the empty ring. */
  lemma EmptySegments(n: nat)
    ensures Segmented(NoBuckets(n), [], [], Zeros(n), Zeros(n))
  {
  }
}
