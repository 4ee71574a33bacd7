/** Intrusive doubly linked rings: nodes are addresses, links live in memory,
    and the list head is the node at address 0. */
module Rings {
  import opened OrderedMap

  type Ptr = nat

  const HEAD: Ptr := 0

  datatype Link = Link(prev: Ptr, next: Ptr)

  type Links = map<Ptr, Link>

  function InsertAt<T>(s: seq<T>, i: nat, x: T): (r: seq<T>)
    requires i <= |s|
    ensures |r| == |s| + 1 && r[i] == x
    ensures forall j :: 0 <= j < i ==> r[j] == s[j]
    ensures forall j :: i < j < |r| ==> r[j] == s[j - 1]
  {
    s[..i] + [x] + s[i..]
  }

  ghost function Elems(s: seq<Ptr>): set<Ptr> {
    set x | x in s
  }

  lemma ElemsInsert(s: seq<Ptr>, p: nat, x: Ptr)
    requires p <= |s|
    ensures Elems(InsertAt(s, p, x)) == Elems(s) + {x}
  {
    assert s == s[..p] + s[p..];
  }

  lemma ElemsTake(s: seq<Ptr>, i: nat)
    requires i < |s|
    ensures Elems(s[..i + 1]) == Elems(s[..i]) + {s[i]}
    ensures Elems(s[i..]) == Elems(s[i + 1..]) + {s[i]}
  {
    assert s[..i + 1] == s[..i] + [s[i]];
    assert s[i..] == [s[i]] + s[i + 1..];
  }

  // ----- the three list primitives, one link write at a time

  function ListInit(m: Links, node: Ptr): Links {
    m[node := Link(node, node)]
  }

  /** list_insert: put `node` in front of `at`. */
  function ListInsert(m: Links, at: Ptr, node: Ptr): Links
    requires at in m && m[at].prev in m && node in m
  {
    var m := m[node := m[node].(next := at)];
    var m := m[node := m[node].(prev := m[at].prev)];
    var m := m[m[at].prev := m[m[at].prev].(next := node)];
    m[at := m[at].(prev := node)]
  }

  /** list_remove */
  function ListRemove(m: Links, node: Ptr): Links
    requires node in m && m[node].prev in m && m[node].next in m
  {
    var m := m[m[node].prev := m[m[node].prev].(next := m[node].next)];
    m[m[node].next := m[m[node].next].(prev := m[node].prev)]
  }

  // ----- rings

  /** The ring seen as a line from the head back to the head. */
  function Cells(s: seq<Ptr>): (c: seq<Ptr>)
    ensures |c| == |s| + 2 && c[0] == c[|s| + 1] == HEAD
    ensures forall i :: 1 <= i <= |s| ==> c[i] == s[i - 1]
  {
    [HEAD] + s + [HEAD]
  }

  ghost predicate Distinct(s: seq<Ptr>) {
    && (forall i :: 0 <= i < |s| ==> s[i] != HEAD)
    && (forall i, j :: 0 <= i < j < |s| ==> s[i] != s[j])
  }

  lemma DistinctSplit(s: seq<Ptr>, i: nat)
    requires Distinct(s) && i <= |s|
    ensures forall j :: i <= j < |s| ==> s[j] !in Elems(s[..i])
    ensures i < |s| ==> s[i] !in Elems(s[i + 1..])
    ensures HEAD !in Elems(s)
  {
  }

  /** `m` links the nodes of `s`, in order, into a ring through the head. */
  ghost predicate Ring(m: Links, s: seq<Ptr>) {
    && Distinct(s)
    && HEAD in m
    && (forall i :: 0 <= i < |s| ==> s[i] in m)
    && Joined(m, Cells(s))
  }

  ghost predicate Joined(m: Links, c: seq<Ptr>) {
    && (forall i :: 0 <= i < |c| ==> c[i] in m)
    && (forall i, j :: 0 <= i && j == i + 1 && j < |c| ==> m[c[i]].next == c[j] && m[c[j]].prev == c[i])
  }

  /** What list_insert changes, field by field. */
  lemma InsertEffect(m: Links, at: Ptr, node: Ptr)
    requires at in m && m[at].prev in m && node in m && node != at && node != m[at].prev
    ensures var m' := ListInsert(m, at, node);
            && m'.Keys == m.Keys
            && m'[node] == Link(m[at].prev, at)
            && (forall a :: a in m && a != node ==>
                  && m'[a].next == (if a == m[at].prev then node else m[a].next)
                  && m'[a].prev == (if a == at then node else m[a].prev))
  {
  }

  lemma RemoveEffect(m: Links, node: Ptr)
    requires node in m && m[node].prev in m && m[node].next in m && m[node].prev != node && m[node].next != node
    ensures var m' := ListRemove(m, node);
            && m'.Keys == m.Keys
            && (forall a :: a in m && a != node ==>
                  && m'[a].next == (if a == m[node].prev then m[node].next else m[a].next)
                  && m'[a].prev == (if a == m[node].next then m[node].prev else m[a].prev))
  {
  }

  lemma RingAt(m: Links, s: seq<Ptr>, i: nat)
    requires Ring(m, s) && i <= |s|
    ensures var c := Cells(s);
            c[i] in m && c[i + 1] in m && m[c[i]].next == c[i + 1] && m[c[i + 1]].prev == c[i]
  {
  }

  lemma InsertedCells(s: seq<Ptr>, p: nat, node: Ptr)
    requires p <= |s|
    ensures Cells(InsertAt(s, p, node)) == InsertAt(Cells(s), p + 1, node)
  {
  }

  lemma InsertedDistinct(s: seq<Ptr>, p: nat, node: Ptr)
    requires Distinct(s) && p <= |s| && node != HEAD && node !in s
    ensures Distinct(InsertAt(s, p, node))
  {
    hide InsertAt;
    var r := InsertAt(s, p, node);
    forall i | 0 <= i < |s|
      ensures s[i] != node
    {
      assert s[i] in s;
    }
  }

  /** Putting a node in front of ring position `p`. */
  lemma InsertIntoRing(m: Links, s: seq<Ptr>, p: nat, node: Ptr)
    requires Ring(m, s) && p <= |s|
    requires node in m && node != HEAD && node !in s
    ensures var c := Cells(s);
            c[p + 1] in m && m[c[p + 1]].prev == c[p] && c[p] in m
            && Ring(ListInsert(m, c[p + 1], node), InsertAt(s, p, node))
  {
    var c, s' := Cells(s), InsertAt(s, p, node);
    RingAt(m, s, p);
    assert c[p] != node && c[p + 1] != node by {
      assert p > 0 ==> c[p] in s;
      assert p < |s| ==> c[p + 1] in s;
    }
    InsertEffect(m, c[p + 1], node);
    InsertedCells(s, p, node);
    InsertedDistinct(s, p, node);
    InsertedJoined(m, ListInsert(m, c[p + 1], node), s, p, node);
    hide ListInsert, InsertAt;
    var m' := ListInsert(m, c[p + 1], node);
    forall i | 0 <= i < |s'|
      ensures s'[i] in m'
    {
      assert i < p ==> s'[i] == s[i];
      assert i > p ==> s'[i] == s[i - 1];
    }
  }

  lemma InsertedJoined(m: Links, m': Links, s: seq<Ptr>, p: nat, node: Ptr)
    requires Ring(m, s) && p <= |s| && node !in s && node != HEAD && node in m'
    requires m'[node] == Link(Cells(s)[p], Cells(s)[p + 1])
    requires forall a :: a in m && a != node ==>
                           a in m'
                           && m'[a].next == (if a == Cells(s)[p] then node else m[a].next)
                           && m'[a].prev == (if a == Cells(s)[p + 1] then node else m[a].prev)
    ensures Joined(m', InsertAt(Cells(s), p + 1, node))
  {
    var c := Cells(s);
    var c' := InsertAt(c, p + 1, node);
    hide Cells, InsertAt;
    forall i | 0 <= i < |c|
      ensures c[i] != node
    {
      if 1 <= i <= |s| {
        assert c[i] == s[i - 1];
      }
    }
    forall i, j | 0 <= i && j == i + 1 && j < |c'|
      ensures c'[i] in m' && c'[j] in m' && m'[c'[i]].next == c'[j] && m'[c'[j]].prev == c'[i]
    {
      if j <= p {
        LineStep(m, s, p, i);
      } else if i > p + 1 {
        LineStep(m, s, p, i - 1);
      }
    }
  }

  /** A step of the line other than the one at `p` keeps both its links when
      only that one is cut. */
  lemma LineStep(m: Links, s: seq<Ptr>, p: nat, i: nat)
    requires Ring(m, s) && p <= |s| && i <= |s| && i != p
    ensures var c := Cells(s);
            && c[i] in m && c[i + 1] in m
            && c[i] != c[p] && c[i + 1] != c[p + 1]
            && m[c[i]].next == c[i + 1] && m[c[i + 1]].prev == c[i]
  {
    RingAt(m, s, i);
  }

  /** Taking out the node at ring position `p`. */
  lemma RemoveFromRing(m: Links, s: seq<Ptr>, p: nat)
    requires Ring(m, s) && p < |s|
    ensures var c := Cells(s);
            && s[p] in m && m[s[p]] == Link(c[p], c[p + 2]) && c[p] in m && c[p + 2] in m
            && Ring(ListRemove(m, s[p]), DropAt(s, p))
            && Ring(ListRemove(m, s[p]) - {s[p]}, DropAt(s, p))
  {
    var c, s' := Cells(s), DropAt(s, p);
    RingAt(m, s, p);
    RingAt(m, s, p + 1);
    assert c[p] != s[p] && c[p + 2] != s[p];
    RemoveEffect(m, s[p]);
    var m' := ListRemove(m, s[p]);
    RemovedJoined(m, m', s, p);
    RemovedJoined(m, m' - {s[p]}, s, p);
    hide ListRemove, DropAt;
    RemovedRing(m, m', s, p);
    RemovedRing(m, m' - {s[p]}, s, p);
  }

  lemma RemovedRing(m: Links, m': Links, s: seq<Ptr>, p: nat)
    requires Ring(m, s) && p < |s|
    requires forall a :: a in m && a != s[p] ==> a in m'
    requires Joined(m', Cells(DropAt(s, p)))
    ensures Ring(m', DropAt(s, p))
  {
    var s' := DropAt(s, p);
    hide DropAt, Cells;
    forall i | 0 <= i < |s'|
      ensures s'[i] in m' && s'[i] != HEAD
    {
      assert s'[i] == s[if i < p then i else i + 1];
    }
    forall i, j | 0 <= i < j < |s'|
      ensures s'[i] != s'[j]
    {
      assert s'[i] == s[if i < p then i else i + 1];
      assert s'[j] == s[if j < p then j else j + 1];
    }
  }

  lemma RemovedJoined(m: Links, m': Links, s: seq<Ptr>, p: nat)
    requires Ring(m, s) && p < |s|
    requires forall a :: a in m && a != s[p] ==>
                           a in m'
                           && m'[a].next == (if a == Cells(s)[p] then Cells(s)[p + 2] else m[a].next)
                           && m'[a].prev == (if a == Cells(s)[p + 2] then Cells(s)[p] else m[a].prev)
    ensures Joined(m', Cells(DropAt(s, p)))
  {
    var c := Cells(s);
    var c' := Cells(DropAt(s, p));
    assert c' == DropAt(c, p + 1);
    hide Cells, DropAt;
    forall i, j | 0 <= i && j == i + 1 && j < |c'|
      ensures c'[i] in m' && c'[j] in m' && m'[c'[i]].next == c'[j] && m'[c'[j]].prev == c'[i]
    {
      if j <= p {
        LineStep(m, s, p, i);
        LineStep(m, s, p + 1, i);
        assert c'[i] == c[i] && c'[j] == c[j];
      } else if i > p {
        LineStep(m, s, p, i + 1);
        LineStep(m, s, p + 1, i + 1);
        assert c'[i] == c[i + 1] && c'[j] == c[j + 1];
      } else {
        assert c'[i] == c[p] && c'[j] == c[p + 2];
      }
    }
  }
}
