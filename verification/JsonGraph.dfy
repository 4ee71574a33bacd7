/** Values as they lie in memory: a finite graph of nodes in which containers
    may be shared and may even contain themselves. */
module JsonGraph {
  import opened Options
  import opened OrderedMap
  import opened Utf8
  import opened JsonValues

  type Id = nat

  datatype Node =
    | Leaf(value: Value)
    | ArrayNode(elems: seq<Id>)
    | ObjectNode(members: Items<Text, Id>)

  type Graph = map<Id, Node>

  function Children(n: Node): seq<Id> {
    match n
    case Leaf(_) => []
    case ArrayNode(es) => es
    case ObjectNode(ms) => seq(|ms|, i requires 0 <= i < |ms| => ms[i].1)
  }

  ghost predicate ElemsIn(g: Graph, es: seq<Id>) {
    forall i :: 0 <= i < |es| ==> es[i] in g
  }

  ghost predicate MembersIn(g: Graph, ms: Items<Text, Id>) {
    forall i :: 0 <= i < |ms| ==> ms[i].1 in g
  }

  /** No dangling references; leaves hold scalars. */
  ghost predicate NodeClosed(g: Graph, n: Node) {
    && (n.ArrayNode? ==> ElemsIn(g, n.elems))
    && (n.ObjectNode? ==> MembersIn(g, n.members))
    && (n.Leaf? ==> !n.value.Array? && !n.value.Object?)
  }

  ghost predicate Closed(g: Graph) {
    forall id :: id in g ==> NodeClosed(g, g[id])
  }

  /** Keys are distinct, as hash tables keep them, and hold no NUL. */
  ghost predicate KeysOk(n: Node) {
    n.ObjectNode? ==> DistinctKeys(n.members) && forall i :: 0 <= i < |n.members| ==> NulFree(n.members[i].0)
  }

  ghost predicate GraphOk(g: Graph) {
    Closed(g) && forall id :: id in g ==> KeysOk(g[id])
  }

  /** The parents are containers of the graph. */
  ghost predicate ParentsOk(g: Graph, parents: set<Id>) {
    forall p :: p in parents ==> p in g && !g[p].Leaf?
  }

  // ----- the copy

  /** do_deep_copy; None is its NULL return. */
  ghost function Copy(g: Graph, id: Id, parents: set<Id>): Option<Value>
    requires Closed(g) && id in g
    decreases |g.Keys - parents|, 0, 0
  {
    assert NodeClosed(g, g[id]);
    match g[id]
    case Leaf(v) => Some(v)
    case ArrayNode(es) =>
      if id in parents then None
      else
        Shrinks(g, id, parents);
        var r := CopyElems(g, es, 0, parents + {id});
        if r.None? then None else Some(Array(r.value))
    case ObjectNode(ms) =>
      if id in parents then None
      else
        Shrinks(g, id, parents);
        var r := CopyMembers(g, ms, 0, [], parents + {id});
        if r.None? then None else Some(Object(r.value))
  }

  ghost function CopyElems(g: Graph, es: seq<Id>, i: nat, parents: set<Id>): Option<seq<Value>>
    requires Closed(g) && i <= |es| && ElemsIn(g, es)
    decreases |g.Keys - parents|, 1, |es| - i
  {
    if i == |es| then Some([])
    else match Copy(g, es[i], parents)
         case None => None
         case Some(v) =>
           var r := CopyElems(g, es, i + 1, parents);
           if r.None? then None else Some([v] + r.value)
  }

  /** Members are set one by one, under the key as a C string. */
  ghost function CopyMembers(g: Graph, ms: Items<Text, Id>, i: nat, acc: Items<Text, Value>,
                             parents: set<Id>): Option<Items<Text, Value>>
    requires Closed(g) && i <= |ms| && MembersIn(g, ms)
    decreases |g.Keys - parents|, 1, |ms| - i
  {
    if i == |ms| then Some(acc)
    else match Copy(g, ms[i].1, parents)
         case None => None
         case Some(v) => CopyMembers(g, ms, i + 1, Set(acc, CString(ms[i].0), v), parents)
  }

  lemma {:induction false} Shrinks(g: Graph, id: Id, parents: set<Id>)
    requires id in g && id !in parents
    ensures |g.Keys - (parents + {id})| < |g.Keys - parents|
  {
    assert g.Keys - (parents + {id}) == (g.Keys - parents) - {id};
  }

  // ----- cycles

  /** A walk along references. */
  ghost predicate Walk(g: Graph, w: seq<Id>) {
    && w != []
    && (forall i :: 0 <= i < |w| ==> w[i] in g)
    && (forall i, j :: 0 <= i && j == i + 1 && j < |w| ==> w[j] in Children(g[w[i]]))
  }

  /** The walk ends where it has been before, or at one of the parents. */
  ghost predicate Returns(w: seq<Id>, parents: set<Id>)
    requires w != []
  {
    w[|w| - 1] in parents || exists i :: 0 <= i < |w| - 1 && w[i] == w[|w| - 1]
  }

  ghost predicate CycleReachable(g: Graph, id: Id) {
    exists w :: Walk(g, w) && w[0] == id && Returns(w, {})
  }

  lemma {:induction false} WalkTail(g: Graph, w: seq<Id>)
    requires Walk(g, w) && |w| > 1
    ensures Walk(g, w[1..]) && w[1] in Children(g[w[0]])
  {
  }

  lemma {:induction false} WalkCons(g: Graph, id: Id, w: seq<Id>)
    requires id in g && Walk(g, w) && w[0] in Children(g[id])
    ensures Walk(g, [id] + w)
  {
  }

  lemma {:induction false} ReturnsCons(id: Id, w: seq<Id>, parents: set<Id>)
    requires w != []
    ensures Returns([id] + w, parents) <==> Returns(w, parents + {id})
  {
    var v := [id] + w;
    if Returns(w, parents + {id}) {
      if w[|w| - 1] == id {
        assert v[0] == v[|v| - 1];
      } else if w[|w| - 1] !in parents {
        var i :| 0 <= i < |w| - 1 && w[i] == w[|w| - 1];
        assert v[i + 1] == v[|v| - 1];
      }
    }
    if Returns(v, parents) && v[|v| - 1] !in parents {
      var i :| 0 <= i < |v| - 1 && v[i] == v[|v| - 1];
      if i > 0 {
        assert w[i - 1] == w[|w| - 1];
      }
    }
  }

  /** A failed loop has a child whose copy failed. */
  lemma {:induction false} ElemsFail(g: Graph, es: seq<Id>, i: nat, parents: set<Id>)
    requires Closed(g) && i <= |es| && ElemsIn(g, es)
    ensures CopyElems(g, es, i, parents).None? <==> exists j :: i <= j < |es| && Copy(g, es[j], parents).None?
    decreases |es| - i
  {
    hide Copy;
    if i < |es| {
      ElemsFail(g, es, i + 1, parents);
    }
  }

  lemma {:induction false} MembersFail(g: Graph, ms: Items<Text, Id>, i: nat, acc: Items<Text, Value>, parents: set<Id>)
    requires Closed(g) && i <= |ms| && MembersIn(g, ms)
    ensures CopyMembers(g, ms, i, acc, parents).None? <==> exists j :: i <= j < |ms| && Copy(g, ms[j].1, parents).None?
    decreases |ms| - i
  {
    hide Copy, CString, Set;
    if i < |ms| && Copy(g, ms[i].1, parents).Some? {
      MembersFail(g, ms, i + 1, Set(acc, CString(ms[i].0), Copy(g, ms[i].1, parents).value), parents);
    }
  }

  /** Some child of the node cannot be copied below it. */
  ghost predicate ChildFails(g: Graph, id: Id, parents: set<Id>)
    requires Closed(g) && id in g
  {
    exists j :: 0 <= j < |Children(g[id])| && Children(g[id])[j] in g
      && Copy(g, Children(g[id])[j], parents + {id}).None?
  }

  lemma {:induction false} CopyFails(g: Graph, id: Id, parents: set<Id>)
    requires Closed(g) && id in g
    ensures Copy(g, id, parents).None? <==> !g[id].Leaf? && (id in parents || ChildFails(g, id, parents))
  {
    hide CopyElems, CopyMembers;
    var n := g[id];
    assert NodeClosed(g, n);
    match n
    case Leaf(_) =>
    case ArrayNode(es) =>
      ElemsFail(g, es, 0, parents + {id});
      assert Children(n) == es;
    case ObjectNode(ms) =>
      MembersFail(g, ms, 0, [], parents + {id});
      assert forall j :: 0 <= j < |ms| ==> Children(n)[j] == ms[j].1;
  }

  lemma {:induction false} WalkMakesCopyFail(g: Graph, w: seq<Id>, parents: set<Id>)
    requires Closed(g) && ParentsOk(g, parents) && Walk(g, w) && Returns(w, parents)
    ensures Copy(g, w[0], parents).None?
    decreases |w|
  {
    hide Copy;
    var id := w[0];
    CopyFails(g, id, parents);
    if id !in parents {
      WalkTail(g, w);
      assert w == [id] + w[1..];
      ReturnsCons(id, w[1..], parents);
      WalkMakesCopyFail(g, w[1..], parents + {id});
      var j :| 0 <= j < |Children(g[id])| && Children(g[id])[j] == w[1];
      assert Copy(g, Children(g[id])[j], parents + {id}).None?;
    }
  }

  lemma {:induction false} FailedCopyHasWalk(g: Graph, id: Id, parents: set<Id>) returns (w: seq<Id>)
    requires Closed(g) && id in g && Copy(g, id, parents).None?
    ensures Walk(g, w) && w[0] == id && Returns(w, parents)
    decreases |g.Keys - parents|
  {
    hide Copy;
    CopyFails(g, id, parents);
    if id in parents {
      w := [id];
    } else {
      Shrinks(g, id, parents);
      var j :| 0 <= j < |Children(g[id])| && Children(g[id])[j] in g
        && Copy(g, Children(g[id])[j], parents + {id}).None?;
      var v := FailedCopyHasWalk(g, Children(g[id])[j], parents + {id});
      WalkCons(g, id, v);
      ReturnsCons(id, v, parents);
      w := [id] + v;
    }
  }

  /** Deep copy fails exactly when a cycle can be reached; shared containers
      without a cycle are copied. */
  lemma {:induction false} CopyFailsIffCycle(g: Graph, id: Id)
    requires Closed(g) && id in g
    ensures Copy(g, id, {}).None? <==> CycleReachable(g, id)
  {
    hide Copy;
    if Copy(g, id, {}).None? {
      var w := FailedCopyHasWalk(g, id, {});
    }
    if w :| Walk(g, w) && w[0] == id && Returns(w, {}) {
      WalkMakesCopyFail(g, w, {});
    }
  }

  // ----- what is copied

  /** v is the tree that node id stands for. */
  ghost predicate Denotes(g: Graph, id: Id, v: Value)
    decreases v
  {
    id in g &&
    match g[id]
    case Leaf(x) => v == x
    case ArrayNode(es) => v.Array? && |v.elems| == |es| && forall i :: 0 <= i < |es| ==> Denotes(g, es[i], v.elems[i])
    case ObjectNode(ms) =>
      && v.Object? && |v.members| == |ms|
      && (forall i :: 0 <= i < |ms| ==> v.members[i].0 == ms[i].0)
      && (forall i :: 0 <= i < |ms| ==> Denotes(g, ms[i].1, v.members[i].1))
  }

  lemma {:induction false} ElemsDenote(g: Graph, es: seq<Id>, i: nat, parents: set<Id>)
    requires GraphOk(g) && i <= |es| && ElemsIn(g, es) && CopyElems(g, es, i, parents).Some?
    ensures
      var vs := CopyElems(g, es, i, parents).value;
      |vs| == |es| - i && forall j :: 0 <= j < |vs| ==> Denotes(g, es[i + j], vs[j])
    decreases |g.Keys - parents|, 1, |es| - i
  {
    hide Copy, Denotes;
    if i < |es| {
      CopyDenotes(g, es[i], parents);
      ElemsDenote(g, es, i + 1, parents);
      var vs := CopyElems(g, es, i, parents).value;
      assert forall j :: 1 <= j < |vs| ==> vs[j] == CopyElems(g, es, i + 1, parents).value[j - 1];
      forall j | 0 <= j < |vs| ensures Denotes(g, es[i + j], vs[j]) {
        if j > 0 {
          assert es[i + j] == es[(i + 1) + (j - 1)];
        }
      }
    }
  }

  /** The members set so far stand for the first i of the original. */
  ghost predicate Copied(g: Graph, ms: Items<Text, Id>, i: nat, acc: Items<Text, Value>) {
    && |acc| == i <= |ms|
    && (forall j :: 0 <= j < i ==> acc[j].0 == ms[j].0)
    && (forall j :: 0 <= j < i ==> Denotes(g, ms[j].1, acc[j].1))
  }

  lemma {:induction false} CopiedNext(g: Graph, ms: Items<Text, Id>, i: nat, acc: Items<Text, Value>, v: Value)
    requires DistinctKeys(ms) && Copied(g, ms, i, acc) && i < |ms| && NulFree(ms[i].0) && Denotes(g, ms[i].1, v)
    ensures Copied(g, ms, i + 1, Set(acc, CString(ms[i].0), v))
  {
    hide Denotes;
    CStringOfNulFree(ms[i].0);
    assert forall j :: 0 <= j < |acc| ==> acc[j].0 != ms[i].0;
  }

  lemma {:induction false} MembersDenote(g: Graph, ms: Items<Text, Id>, i: nat, acc: Items<Text, Value>,
                                         parents: set<Id>)
    requires GraphOk(g) && i <= |ms| && MembersIn(g, ms) && CopyMembers(g, ms, i, acc, parents).Some?
    requires DistinctKeys(ms) && (forall j :: 0 <= j < |ms| ==> NulFree(ms[j].0)) && Copied(g, ms, i, acc)
    ensures Copied(g, ms, |ms|, CopyMembers(g, ms, i, acc, parents).value)
    decreases |g.Keys - parents|, 1, |ms| - i
  {
    hide Copy, Denotes, Set, CString, NulFree;
    if i < |ms| {
      CopyDenotes(g, ms[i].1, parents);
      var v := Copy(g, ms[i].1, parents).value;
      CopiedNext(g, ms, i, acc, v);
      MembersDenote(g, ms, i + 1, Set(acc, CString(ms[i].0), v), parents);
    }
  }

  /** A copy is the tree the original stands for. */
  lemma {:induction false} CopyDenotes(g: Graph, id: Id, parents: set<Id>)
    requires GraphOk(g) && id in g && Copy(g, id, parents).Some?
    ensures Denotes(g, id, Copy(g, id, parents).value)
    decreases |g.Keys - parents|, 0, 0
  {
    hide CopyElems, CopyMembers, NulFree;
    var n := g[id];
    assert NodeClosed(g, n) && KeysOk(n);
    match n
    case Leaf(_) =>
    case ArrayNode(es) =>
      Shrinks(g, id, parents);
      ElemsDenote(g, es, 0, parents + {id});
    case ObjectNode(ms) =>
      Shrinks(g, id, parents);
      MembersDenote(g, ms, 0, [], parents + {id});
  }

  lemma {:induction false} DenotesOnlyOne(g: Graph, id: Id, v: Value, w: Value)
    requires Denotes(g, id, v) && Denotes(g, id, w)
    ensures v == w
    decreases v
  {
    match g[id]
    case Leaf(_) =>
    case ArrayNode(es) =>
      forall i | 0 <= i < |es| ensures v.elems[i] == w.elems[i] {
        DenotesOnlyOne(g, es[i], v.elems[i], w.elems[i]);
      }
      assert v.elems == w.elems;
    case ObjectNode(ms) =>
      forall i | 0 <= i < |ms| ensures v.members[i] == w.members[i] {
        DenotesOnlyOne(g, ms[i].1, v.members[i].1, w.members[i].1);
      }
      assert v.members == w.members;
  }

  lemma {:induction false} DenotedIsTidy(g: Graph, id: Id, v: Value)
    requires GraphOk(g) && Denotes(g, id, v)
    ensures Tidy(v)
    decreases v
  {
    hide NulFree;
    assert KeysOk(g[id]);
    match g[id]
    case Leaf(_) =>
    case ArrayNode(es) =>
      forall i | 0 <= i < |es| ensures Tidy(v.elems[i]) {
        DenotedIsTidy(g, es[i], v.elems[i]);
      }
    case ObjectNode(ms) =>
      forall i | 0 <= i < |ms| ensures Tidy(v.members[i].1) {
        DenotedIsTidy(g, ms[i].1, v.members[i].1);
      }
  }

  /** Without a reachable cycle the copy exists, and json_equal cannot tell it
      from the original, whatever tree the original is read as. */
  lemma {:induction false} CopyIsEqual(g: Graph, id: Id, original: Value)
    requires GraphOk(g) && id in g && !CycleReachable(g, id)
    requires Denotes(g, id, original)
    ensures Copy(g, id, {}).Some?
    ensures JsonEqual(original, Copy(g, id, {}).value) && JsonEqual(Copy(g, id, {}).value, original)
  {
    hide Copy, Denotes, JsonEqual, CycleReachable;
    CopyFailsIffCycle(g, id);
    CopyDenotes(g, id, {});
    DenotesOnlyOne(g, id, original, Copy(g, id, {}).value);
    DenotedIsTidy(g, id, original);
    EqualReflexive(original);
  }

  // ----- as it runs

  class Copier {
    const graph: Graph
    /** The containers being copied, keyed by address. */
    var parents: set<Id>

    constructor (g: Graph)
      ensures graph == g && parents == {}
    {
      graph := g;
      parents := {};
    }

    /** jsonp_loop_check: refuses a container that is already being copied. */
    method LoopCheck(id: Id) returns (failed: bool)
      modifies this
      ensures failed == (id in old(parents))
      ensures parents == old(parents) + {id}
    {
      if id in parents {
        return true;
      }
      parents := parents + {id};
      return false;
    }

    /** do_deep_copy; the parents are the same before and after. */
    method DeepCopy(id: Id) returns (r: Option<Value>)
      requires Closed(graph) && id in graph
      modifies this
      ensures parents == old(parents) && r == Copy(graph, id, old(parents))
      decreases |graph.Keys - parents|, 1
    {
      match graph[id]
      case Leaf(v) => r := Some(v);
      case ArrayNode(es) => r := DeepCopyArray(id);
      case ObjectNode(ms) => r := DeepCopyObject(id);
    }

    method DeepCopyArray(id: Id) returns (r: Option<Value>)
      requires Closed(graph) && id in graph && graph[id].ArrayNode?
      modifies this
      ensures parents == old(parents) && r == Copy(graph, id, old(parents))
      decreases |graph.Keys - parents|, 0
    {
      var es := graph[id].elems;
      var failed := LoopCheck(id);
      if failed {
        return None;
      }
      Shrinks(graph, id, old(parents));
      assert NodeClosed(graph, graph[id]);
      var elems: seq<Value> := [];
      var i := 0;
      ghost var goal := CopyElems(graph, es, 0, parents);
      assert goal.Some? ==> elems + goal.value == goal.value;
      while i < |es|
        invariant 0 <= i <= |es| && parents == old(parents) + {id} && ElemsIn(graph, es)
        invariant goal == Appended(elems, CopyElems(graph, es, i, parents))
      {
        hide Copy;
        var v := DeepCopy(es[i]);
        if v.None? {
          break;
        }
        AppendedStep(elems, v.value, CopyElems(graph, es, i + 1, parents));
        elems := elems + [v.value];
        i := i + 1;
      }
      assert i == |es| ==> elems + [] == elems;
      r := if i < |es| then None else Some(Array(elems));
      parents := parents - {id};
    }

    method DeepCopyObject(id: Id) returns (r: Option<Value>)
      requires Closed(graph) && id in graph && graph[id].ObjectNode?
      modifies this
      ensures parents == old(parents) && r == Copy(graph, id, old(parents))
      decreases |graph.Keys - parents|, 0
    {
      var ms := graph[id].members;
      var failed := LoopCheck(id);
      if failed {
        return None;
      }
      Shrinks(graph, id, old(parents));
      assert NodeClosed(graph, graph[id]);
      var members: Items<Text, Value> := [];
      var i := 0;
      ghost var goal := CopyMembers(graph, ms, 0, [], parents);
      while i < |ms|
        invariant 0 <= i <= |ms| && parents == old(parents) + {id} && MembersIn(graph, ms)
        invariant goal == CopyMembers(graph, ms, i, members, parents)
      {
        hide Copy;
        var v := DeepCopy(ms[i].1);
        if v.None? {
          break;
        }
        members := Set(members, CString(ms[i].0), v.value);
        i := i + 1;
      }
      r := if i < |ms| then None else Some(Object(members));
      parents := parents - {id};
    }
  }

  ghost function Appended(vs: seq<Value>, r: Option<seq<Value>>): Option<seq<Value>> {
    if r.None? then None else Some(vs + r.value)
  }

  lemma {:induction false} AppendedStep(vs: seq<Value>, v: Value, r: Option<seq<Value>>)
    ensures r.Some? ==> vs + ([v] + r.value) == vs + [v] + r.value
  {
  }
}
