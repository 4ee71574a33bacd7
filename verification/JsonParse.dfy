/** The recursive parser over tokens (sections 2 to 5 of RFC 8259), and the
    round trip through text. */
module JsonParse {
  import opened Options
  import opened OrderedMap
  import opened Utf8
  import opened JsonStrings
  import opened JsonValues
  import opened JsonTokens
  import opened JsonDump

  const MAX_DEPTH: nat := 2048

  /** REJECT_DUPLICATES, DECODE_ANY, DISABLE_EOF_CHECK and ALLOW_NUL. */
  datatype LoadFlags = LoadFlags(rejectDuplicates: bool, decodeAny: bool, disableEofCheck: bool, allowNul: bool)

  /** `rest` are the tokens after those of the value. */
  datatype Parsed = Fail | Ok(value: Value, rest: seq<Token>)

  function Peek(ts: seq<Token>): Token {
    if ts == [] then Eof else ts[0]
  }

  // ----- the parser

  /** parse_value; ts[0] is the current token, depth the number of open values. */
  function ParseValue(ts: seq<Token>, depth: nat, lf: LoadFlags): (r: Parsed)
    ensures r.Ok? ==> |r.rest| < |ts|
    decreases |ts|, 1
  {
    if ts == [] || depth + 1 > MAX_DEPTH then Fail
    else
      var rest := ts[1..];
      match ts[0]
      case Str(b) => if !lf.allowNul && !NulFree(b) then Fail else Ok(String(b), rest)
      case Int(i) => Ok(Integer(i), rest)
      case TrueToken => Ok(True, rest)
      case FalseToken => Ok(False, rest)
      case NullToken => Ok(Null, rest)
      case Punct(c) =>
        if c == OPEN_BRACE then
          if Peek(rest) == Punct(CLOSE_BRACE) then Ok(Object([]), rest[1..]) else ParseMembers([], rest, depth + 1, lf)
        else if c == OPEN_BRACKET then
          if Peek(rest) == Punct(CLOSE_BRACKET) then Ok(Array([]), rest[1..]) else ParseElems([], rest, depth + 1, lf)
        else Fail
      case Invalid => Fail
      case Eof => Fail
  }

  /** The loop of parse_array. */
  function ParseElems(acc: seq<Value>, ts: seq<Token>, depth: nat, lf: LoadFlags): (r: Parsed)
    ensures r.Ok? ==> |r.rest| < |ts|
    decreases |ts|, 2
  {
    match ParseValue(ts, depth, lf)
    case Fail => Fail
    case Ok(v, rest) =>
      if Peek(rest) == Punct(COMMA) then ParseElems(acc + [v], rest[1..], depth, lf)
      else if Peek(rest) == Punct(CLOSE_BRACKET) then Ok(Array(acc + [v]), rest[1..])
      else Fail
  }

  /** The loop of parse_object. */
  function ParseMembers(acc: Members, ts: seq<Token>, depth: nat, lf: LoadFlags): (r: Parsed)
    ensures r.Ok? ==> |r.rest| < |ts|
    decreases |ts|, 2
  {
    if |ts| < 2 || !ts[0].Str? || !NulFree(ts[0].text) then Fail
    else if lf.rejectDuplicates && Get(acc, ts[0].text).Some? then Fail
    else if ts[1] != Punct(COLON) then Fail
    else
      match ParseValue(ts[2..], depth, lf)
      case Fail => Fail
      case Ok(v, rest) =>
        var members := Set(acc, ts[0].text, v);
        if Peek(rest) == Punct(COMMA) then ParseMembers(members, rest[1..], depth, lf)
        else if Peek(rest) == Punct(CLOSE_BRACE) then Ok(Object(members), rest[1..])
        else Fail
  }

  /** parse_json. */
  function ParseJson(ts: seq<Token>, lf: LoadFlags): Option<Value> {
    if !lf.decodeAny && Peek(ts) != Punct(OPEN_BRACKET) && Peek(ts) != Punct(OPEN_BRACE) then None
    else match ParseValue(ts, 0, lf)
         case Fail => None
         case Ok(v, rest) => if lf.disableEofCheck || Peek(rest).Eof? then Some(v) else None
  }

  /** The longest prefix that decodes as UTF-8: all the lexer gets to see. */
  function Decodable(s: Text): (n: nat)
    ensures n <= |s|
    decreases |s|
  {
    if s == [] || Iterate(s).None? then 0
    else Iterate(s).value.length + Decodable(s[Iterate(s).value.length..])
  }

  /** json_loads on NUL-free text. */
  function Loads(s: Text, lf: LoadFlags): Option<Value> {
    var n := Decodable(s);
    ParseJson(LexAll(s[..n], n < |s|), lf)
  }

  // ----- depth

  function Max(a: nat, b: nat): nat { if a < b then b else a }

  /** How many values are open at once while v is read. */
  function Depth(v: Value): nat
    decreases v, 1 + Width(v)
  {
    match v
    case Array(es) => 1 + ElemsDepth(v, 0)
    case Object(ms) => 1 + MembersDepth(v, 0)
    case _ => 1
  }

  function ElemsDepth(v: Value, i: nat): nat
    requires v.Array? && i <= |v.elems|
    decreases v, |v.elems| - i
  {
    if i == |v.elems| then 0 else Max(Depth(v.elems[i]), ElemsDepth(v, i + 1))
  }

  function MembersDepth(v: Value, i: nat): nat
    requires v.Object? && i <= |v.members|
    decreases v, |v.members| - i
  {
    if i == |v.members| then 0 else Max(Depth(v.members[i].1), MembersDepth(v, i + 1))
  }

  // ----- the value that is read back

  /** v with its members in the order they were printed in. */
  function Reordered(v: Value, f: Flags): Value
    decreases v, 1 + Width(v)
  {
    match v
    case Array(es) => Array(ReorderedElems(v, 0, f))
    case Object(ms) => Object(ReorderedMembers(v, Listing(ms, f), 0, f))
    case _ => v
  }

  function ReorderedElems(v: Value, i: nat, f: Flags): (r: seq<Value>)
    requires v.Array? && i <= |v.elems|
    ensures |r| == |v.elems| - i
    ensures forall j :: 0 <= j < |r| ==> r[j] == Reordered(v.elems[i + j], f)
    decreases v, |v.elems| - i
  {
    if i == |v.elems| then [] else [Reordered(v.elems[i], f)] + ReorderedElems(v, i + 1, f)
  }

  function ReorderedMembers(v: Value, order: seq<nat>, i: nat, f: Flags): (r: Members)
    requires v.Object? && InRange(order, |v.members|) && i <= |order|
    ensures |r| == |order| - i
    decreases v, |order| - i
  {
    if i == |order| then []
    else
      var m := v.members[order[i]];
      [(m.0, Reordered(m.1, f))] + ReorderedMembers(v, order, i + 1, f)
  }

  lemma {:induction false} ReorderedMemberAt(v: Value, order: seq<nat>, i: nat, f: Flags, j: nat)
    requires v.Object? && InRange(order, |v.members|) && i + j < |order|
    ensures ReorderedMembers(v, order, i, f)[j] == (v.members[order[i + j]].0, Reordered(v.members[order[i + j]].1, f))
    decreases j
  {
    hide Reordered;
    if j > 0 {
      ReorderedMemberAt(v, order, i + 1, f, j - 1);
    }
  }

  // ----- the listing is a permutation

  ghost predicate DistinctPositions(order: seq<nat>) {
    forall i, j :: 0 <= i < j < |order| ==> order[i] != order[j]
  }

  lemma {:induction false} InsertKeepsDistinct(ms: Members, p: nat, order: seq<nat>)
    requires InRange(order, |ms|) && p < |ms| && p !in order && DistinctPositions(order)
    ensures DistinctPositions(InsertPosition(ms, p, order))
  {
    if order != [] && CompareKeys(ms[p].0, ms[order[0]].0) >= 0 {
      InsertKeepsDistinct(ms, p, order[1..]);
      var tail := InsertPosition(ms, p, order[1..]);
      assert order[0] !in order[1..];
      assert forall i :: 0 <= i < |tail| ==> tail[i] in tail;
    } else {
      assert forall i :: 0 <= i < |order| ==> order[i] in order;
    }
  }

  lemma {:induction false} SortedIsDistinct(ms: Members, n: nat)
    requires n <= |ms|
    ensures DistinctPositions(SortedPositions(ms, n))
  {
    if n > 0 {
      SortedIsDistinct(ms, n - 1);
      InsertKeepsDistinct(ms, n - 1, SortedPositions(ms, n - 1));
    }
  }

  lemma {:induction false} ListingIsDistinct(ms: Members, f: Flags)
    ensures DistinctPositions(Listing(ms, f))
  {
    SortedIsDistinct(ms, |ms|);
  }

  // ----- parsing the tokens of a value

  ghost predicate NoNulStrings(v: Value) {
    match v
    case String(b) => NulFree(b)
    case Array(es) => forall i :: 0 <= i < |es| ==> NoNulStrings(es[i])
    case Object(ms) => forall i :: 0 <= i < |ms| ==> NoNulStrings(ms[i].1)
    case _ => true
  }

  /** The depth of the members still to be read, in listing order. */
  function OrderDepth(v: Value, order: seq<nat>, i: nat): nat
    requires v.Object? && InRange(order, |v.members|) && i <= |order|
    decreases |order| - i
  {
    if i == |order| then 0 else Max(Depth(v.members[order[i]].1), OrderDepth(v, order, i + 1))
  }

  lemma {:induction false} MembersDepthIsMax(v: Value, i: nat, x: nat)
    requires v.Object? && i <= |v.members|
    ensures MembersDepth(v, i) <= x <==> forall p :: i <= p < |v.members| ==> Depth(v.members[p].1) <= x
    decreases |v.members| - i
  {
    hide Depth;
    if i < |v.members| {
      MembersDepthIsMax(v, i + 1, x);
    }
  }

  lemma {:induction false} OrderDepthIsMax(v: Value, order: seq<nat>, i: nat, x: nat)
    requires v.Object? && InRange(order, |v.members|) && i <= |order|
    ensures OrderDepth(v, order, i) <= x <==> forall p :: i <= p < |order| ==> Depth(v.members[order[p]].1) <= x
    decreases |order| - i
  {
    hide Depth;
    if i < |order| {
      OrderDepthIsMax(v, order, i + 1, x);
    }
  }

  lemma {:induction false} OrderDoesNotMatter(v: Value, f: Flags, x: nat)
    requires v.Object?
    ensures OrderDepth(v, Listing(v.members, f), 0) <= x <==> MembersDepth(v, 0) <= x
  {
    hide Depth, OrderDepth, MembersDepth, Listing;
    var order := Listing(v.members, f);
    MembersDepthIsMax(v, 0, x);
    OrderDepthIsMax(v, order, 0, x);
    if OrderDepth(v, order, 0) <= x {
      forall p | 0 <= p < |v.members| ensures Depth(v.members[p].1) <= x {
        assert p in order;
        var q :| 0 <= q < |order| && order[q] == p;
      }
    }
  }

  function Outcome(fits: bool, v: Value, rest: seq<Token>): Parsed {
    if fits then Ok(v, rest) else Fail
  }

  /** The parser reads the tokens of v as v, members in printed order, exactly
      when v is not nested too deeply. */
  lemma {:induction false} ParseToks(v: Value, f: Flags, rest: seq<Token>, depth: nat, lf: LoadFlags)
    requires Printable(v) && (lf.allowNul || NoNulStrings(v))
    ensures ParseValue(Toks(v, f) + rest, depth, lf) == Outcome(depth + Depth(v) <= MAX_DEPTH, Reordered(v, f), rest)
    decreases v, 1 + Width(v)
  {
    hide ParseElems, ParseMembers, ElemToks, MemberToks, Listing, Valid, ReorderedElems, ReorderedMembers;
    var ts := Toks(v, f) + rest;
    match v
    case Array(es) =>
      if es == [] {
        assert ts[1..] == [Punct(CLOSE_BRACKET)] + rest;
        EmptyArray(v, f);
      } else {
        assert ts[1..] == ElemToks(v, 0, f) + rest;
        StartsValue(v.elems[0], f);
        ElemToksStart(v, f);
        if depth + 1 <= MAX_DEPTH {
          ParseElemToks(v, 0, f, rest, depth + 1, lf);
        }
      }
    case Object(ms) =>
      ParseObjectToks(v, f, rest, depth, lf);
    case _ => assert ts[1..] == rest;
  }

  lemma {:induction false} EmptyArray(v: Value, f: Flags)
    requires v.Array? && v.elems == []
    ensures ElemsDepth(v, 0) == 0 && ReorderedElems(v, 0, f) == []
  {
  }

  lemma {:induction false} StartsValue(v: Value, f: Flags)
    ensures Toks(v, f) != [] && Toks(v, f)[0] != Punct(CLOSE_BRACKET)
  {
  }

  lemma {:induction false} ElemToksStart(v: Value, f: Flags)
    requires v.Array? && v.elems != []
    ensures ElemToks(v, 0, f) != [] && ElemToks(v, 0, f)[0] != Punct(CLOSE_BRACKET)
  {
    StartsValue(v.elems[0], f);
    hide Toks;
  }

  lemma {:induction false} ParseElemToks(v: Value, i: nat, f: Flags, rest: seq<Token>, depth: nat, lf: LoadFlags)
    requires v.Array? && Printable(v) && (lf.allowNul || NoNulStrings(v)) && i < |v.elems|
    ensures ParseElems(ReorderedElems(v, 0, f)[..i], ElemToks(v, i, f) + rest, depth, lf)
         == Outcome(depth + ElemsDepth(v, i) <= MAX_DEPTH, Array(ReorderedElems(v, 0, f)), rest)
    decreases v, |v.elems| - i
  {
    hide ParseValue, Toks, Reordered, Depth;
    var all := ReorderedElems(v, 0, f);
    var e := v.elems[i];
    var ts := ElemToks(v, i, f) + rest;
    assert all[..i] + [Reordered(e, f)] == all[..i + 1];
    assert ElemsDepth(v, i) == Max(Depth(e), ElemsDepth(v, i + 1));
    if i + 1 < |v.elems| {
      var next := ElemToks(v, i + 1, f) + rest;
      var after := [Punct(COMMA)] + next;
      assert ts == Toks(e, f) + after;
      assert after[1..] == next;
      ParseToks(e, f, after, depth, lf);
      ParseElemToks(v, i + 1, f, rest, depth, lf);
    } else {
      var after := [Punct(CLOSE_BRACKET)] + rest;
      assert ts == Toks(e, f) + after;
      assert after[1..] == rest;
      ParseToks(e, f, after, depth, lf);
      assert all[..i + 1] == all;
    }
  }

  lemma {:induction false} ParseObjectToks(v: Value, f: Flags, rest: seq<Token>, depth: nat, lf: LoadFlags)
    requires v.Object? && Printable(v) && (lf.allowNul || NoNulStrings(v))
    ensures ParseValue(Toks(v, f) + rest, depth, lf) == Outcome(depth + Depth(v) <= MAX_DEPTH, Reordered(v, f), rest)
    decreases v, Width(v), 1
  {
    hide ParseMembers, MemberToks, Listing, Valid, ReorderedMembers, Printable, OrderDepth, MembersDepth;
    var ts := Toks(v, f) + rest;
    var order := Listing(v.members, f);
    if v.members == [] {
      assert ts[1..] == [Punct(CLOSE_BRACE)] + rest;
      EmptyObject(v, f);
    } else {
      assert ts[1..] == MemberToks(v, order, 0, f) + rest;
      MemberToksStart(v, order, f);
      if depth + 1 <= MAX_DEPTH {
        ListingIsDistinct(v.members, f);
        ParseMemberToks(v, order, 0, f, rest, depth + 1, lf);
        OrderDoesNotMatter(v, f, MAX_DEPTH - depth - 1);
      }
    }
  }

  lemma {:induction false} EmptyObject(v: Value, f: Flags)
    requires v.Object? && v.members == []
    ensures MembersDepth(v, 0) == 0 && ReorderedMembers(v, Listing(v.members, f), 0, f) == []
  {
  }

  lemma {:induction false} MemberToksStart(v: Value, order: seq<nat>, f: Flags)
    requires v.Object? && InRange(order, |v.members|) && order != []
    ensures MemberToks(v, order, 0, f) != [] && MemberToks(v, order, 0, f)[0].Str?
  {
    hide Toks;
  }

  /** A key that is new extends the object at its end. */
  lemma {:induction false} NewKey(v: Value, order: seq<nat>, i: nat, f: Flags)
    requires v.Object? && DistinctKeys(v.members) && InRange(order, |v.members|) && DistinctPositions(order)
      && i < |order|
    ensures
      var acc := ReorderedMembers(v, order, 0, f)[..i];
      var m := v.members[order[i]];
      && Get(acc, m.0).None?
      && Set(acc, m.0, Reordered(m.1, f)) == ReorderedMembers(v, order, 0, f)[..i + 1]
  {
    hide Reordered, ReorderedMembers, Find;
    var all := ReorderedMembers(v, order, 0, f);
    var acc := all[..i];
    var key := v.members[order[i]].0;
    ReorderedMemberAt(v, order, 0, f, i);
    forall j | 0 <= j < i ensures acc[j].0 != key {
      ReorderedMemberAt(v, order, 0, f, j);
    }
    assert all[..i + 1] == acc + [all[i]];
  }

  lemma {:induction false} ParseMemberToks(v: Value, order: seq<nat>, i: nat, f: Flags, rest: seq<Token>,
                                           depth: nat, lf: LoadFlags)
    requires v.Object? && Printable(v) && (lf.allowNul || NoNulStrings(v))
    requires InRange(order, |v.members|) && DistinctPositions(order) && i < |order| <= |v.members|
    ensures ParseMembers(ReorderedMembers(v, order, 0, f)[..i], MemberToks(v, order, i, f) + rest, depth, lf)
         == Outcome(depth + OrderDepth(v, order, i) <= MAX_DEPTH, Object(ReorderedMembers(v, order, 0, f)), rest)
    decreases v, |order| - i, 0
  {
    hide ParseValue, Toks, Reordered, Depth, Valid, Get, Set, ReorderedMembers, DistinctPositions;
    var all := ReorderedMembers(v, order, 0, f);
    var m := v.members[order[i]];
    var ts := MemberToks(v, order, i, f) + rest;
    NewKey(v, order, i, f);
    assert OrderDepth(v, order, i) == Max(Depth(m.1), OrderDepth(v, order, i + 1));
    if i + 1 < |order| {
      var next := MemberToks(v, order, i + 1, f) + rest;
      var after := [Punct(COMMA)] + next;
      assert ts == [Str(m.0), Punct(COLON)] + (Toks(m.1, f) + after);
      assert ts[2..] == Toks(m.1, f) + after;
      assert after[1..] == next;
      ParseToks(m.1, f, after, depth, lf);
      ParseMemberToks(v, order, i + 1, f, rest, depth, lf);
    } else {
      var after := [Punct(CLOSE_BRACE)] + rest;
      assert ts == [Str(m.0), Punct(COLON)] + (Toks(m.1, f) + after);
      assert ts[2..] == Toks(m.1, f) + after;
      assert after[1..] == rest;
      ParseToks(m.1, f, after, depth, lf);
      assert all[..i + 1] == all;
    }
  }
}
