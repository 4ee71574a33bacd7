/** Printing a value, and why the lexer reads the same tokens back. */
module JsonDump {
  import opened Options
  import opened OrderedMap
  import opened Bytes
  import opened Utf8
  import opened JsonStrings
  import opened JsonValues
  import opened JsonTokens

  // ----- the order of members

  /** The sign of compare_keys: memcmp on the common length, then the length. */
  function CompareKeys(a: Text, b: Text): int {
    if a == [] && b == [] then 0
    else if a == [] then -1
    else if b == [] then 1
    else if a[0] != b[0] then (if a[0] < b[0] then -1 else 1)
    else CompareKeys(a[1..], b[1..])
  }

  type Members = Items<Text, Value>

  ghost predicate InRange(order: seq<nat>, n: nat) {
    forall i :: 0 <= i < |order| ==> order[i] < n
  }

  /** Places position p, whose key comes in order among those at `order`. */
  function InsertPosition(ms: Members, p: nat, order: seq<nat>): (r: seq<nat>)
    requires InRange(order, |ms|) && p < |ms|
    ensures |r| == |order| + 1 && InRange(r, |ms|)
    ensures forall x: nat :: x in r <==> x == p || x in order
  {
    if order == [] || CompareKeys(ms[p].0, ms[order[0]].0) < 0 then [p] + order
    else
      assert forall x: nat :: x in order <==> x == order[0] || x in order[1..];
      [order[0]] + InsertPosition(ms, p, order[1..])
  }

  /** The first n members in key order: what qsort leaves. */
  function SortedPositions(ms: Members, n: nat): (r: seq<nat>)
    requires n <= |ms|
    ensures |r| == n && InRange(r, |ms|)
    ensures forall x: nat :: x in r <==> x < n
  {
    if n == 0 then [] else InsertPosition(ms, n - 1, SortedPositions(ms, n - 1))
  }

  /** The order in which do_dump visits the members of an object. */
  function Listing(ms: Members, f: Flags): (r: seq<nat>)
    ensures |r| == |ms| && InRange(r, |ms|)
    ensures forall x: nat :: x in r <==> x < |ms|
  {
    if f.sortKeys then SortedPositions(ms, |ms|) else Positions(|ms|)
  }

  function Positions(n: nat): (r: seq<nat>)
    ensures |r| == n && forall i :: 0 <= i < n ==> r[i] == i
    ensures forall x: nat :: x in r <==> x < n
  {
    if n == 0 then [] else Positions(n - 1) + [n - 1]
  }

  // ----- printing

  function Width(v: Value): nat {
    if v.Array? then |v.elems| else if v.Object? then |v.members| else 0
  }

  function Spaces(n: nat): Text {
    if n == 0 then [] else [32] + Spaces(n - 1)
  }

  /** A product of 32-bit unsigned integers. */
  function IndentWidth(depth: nat, width: nat): nat {
    depth * width % 0x1_0000_0000
  }

  /** dump_indent. */
  function Indent(f: Flags, depth: nat, space: bool): Text {
    if f.indent % 32 > 0 then [10] + Spaces(IndentWidth(depth, f.indent % 32))
    else if space && !f.compact then [32]
    else []
  }

  function Separator(f: Flags): Text {
    if f.compact then [COLON] else [COLON, 32]
  }

  function Enclosed(open: Text, body: Option<Text>, close: Text): Option<Text> {
    if body.None? then None else Some(open + body.value + close)
  }

  /** do_dump; None is its error return. */
  function Dump(v: Value, f: Flags, depth: nat): Option<Text>
    decreases v, 1 + Width(v)
  {
    match v
    case Null => Some(NULL_TEXT)
    case True => Some(TRUE_TEXT)
    case False => Some(FALSE_TEXT)
    case Integer(i) => Some(IntText(i))
    case String(b) =>
      var d := DumpString(b, f);
      if d.ok then Some(d.text) else None
    case Array(es) =>
      if es == [] then Some([OPEN_BRACKET, CLOSE_BRACKET])
      else Enclosed([OPEN_BRACKET] + Indent(f, depth + 1, false), DumpElems(v, 0, f, depth), [CLOSE_BRACKET])
    case Object(ms) =>
      if ms == [] then Some([OPEN_BRACE, CLOSE_BRACE])
      else Enclosed([OPEN_BRACE] + Indent(f, depth + 1, false), DumpMembers(v, Listing(ms, f), 0, f, depth),
        [CLOSE_BRACE])
  }

  function DumpElems(v: Value, i: nat, f: Flags, depth: nat): Option<Text>
    requires v.Array? && i < |v.elems|
    decreases v, |v.elems| - i
  {
    match Dump(v.elems[i], f, depth + 1)
    case None => None
    case Some(t) =>
      if i + 1 < |v.elems| then
        Prepend(t + [COMMA] + Indent(f, depth + 1, true), DumpElems(v, i + 1, f, depth))
      else Some(t + Indent(f, depth, false))
  }

  /** A key that is not valid UTF-8 is cut off without an error. */
  function DumpMembers(v: Value, order: seq<nat>, i: nat, f: Flags, depth: nat): Option<Text>
    requires v.Object? && InRange(order, |v.members|) && i < |order|
    decreases v, |order| - i
  {
    var m := v.members[order[i]];
    match Dump(m.1, f, depth + 1)
    case None => None
    case Some(t) =>
      var head := DumpString(m.0, f).text + Separator(f) + t;
      if i + 1 < |order| then
        Prepend(head + [COMMA] + Indent(f, depth + 1, true), DumpMembers(v, order, i + 1, f, depth))
      else Some(head + Indent(f, depth, false))
  }

  /** json_dumps. */
  function Dumps(v: Value, f: Flags): Option<Text> {
    if f.encodeAny || v.Array? || v.Object? then Dump(v, f, 0) else None
  }

  /** dump_indent, in runs of at most 32 spaces. */
  method IndentTo(f: Flags, depth: nat, space: bool) returns (out: Text)
    ensures out == Indent(f, depth, space)
  {
    hide IndentWidth;
    out := [];
    var ws_count := f.indent % 32;
    if ws_count > 0 {
      out := [10];
      var n_spaces := IndentWidth(depth, ws_count);
      ghost var total := n_spaces;
      assert [10] + Spaces(total) == out + Spaces(n_spaces);
      while n_spaces > 0
        invariant 0 <= n_spaces
        invariant [10] + Spaces(total) == out + Spaces(n_spaces)
      {
        var cur_n := if n_spaces < 32 then n_spaces else 32;
        SpacesSplit(cur_n, n_spaces - cur_n);
        assert out + (Spaces(cur_n) + Spaces(n_spaces - cur_n)) == out + Spaces(cur_n) + Spaces(n_spaces - cur_n);
        out := out + Spaces(cur_n);
        n_spaces := n_spaces - cur_n;
      }
      assert out + [] == out;
    } else if space && !f.compact {
      out := [32];
    }
  }

  lemma {:induction false} SpacesSplit(a: nat, b: nat)
    ensures Spaces(a + b) == Spaces(a) + Spaces(b)
  {
    if a > 0 {
      SpacesSplit(a - 1, b);
    }
  }

  // ----- the tokens of a value

  function Toks(v: Value, f: Flags): seq<Token>
    decreases v, 1 + Width(v)
  {
    match v
    case Null => [NullToken]
    case True => [TrueToken]
    case False => [FalseToken]
    case Integer(i) => [Int(i)]
    case String(b) => [Str(b)]
    case Array(es) => [Punct(OPEN_BRACKET)] + (if es == [] then [Punct(CLOSE_BRACKET)] else ElemToks(v, 0, f))
    case Object(ms) =>
      [Punct(OPEN_BRACE)] + (if ms == [] then [Punct(CLOSE_BRACE)] else MemberToks(v, Listing(ms, f), 0, f))
  }

  function ElemToks(v: Value, i: nat, f: Flags): seq<Token>
    requires v.Array? && i < |v.elems|
    decreases v, |v.elems| - i
  {
    Toks(v.elems[i], f) +
    (if i + 1 < |v.elems| then [Punct(COMMA)] + ElemToks(v, i + 1, f) else [Punct(CLOSE_BRACKET)])
  }

  function MemberToks(v: Value, order: seq<nat>, i: nat, f: Flags): seq<Token>
    requires v.Object? && InRange(order, |v.members|) && i < |order|
    decreases v, |order| - i
  {
    var m := v.members[order[i]];
    [Str(m.0), Punct(COLON)] + Toks(m.1, f) +
    (if i + 1 < |order| then [Punct(COMMA)] + MemberToks(v, order, i + 1, f) else [Punct(CLOSE_BRACE)])
  }

  // ----- values that can be printed and read back

  /** Integers are 64-bit, strings and keys valid UTF-8, keys distinct and free of NUL. */
  ghost predicate Printable(v: Value) {
    match v
    case Integer(i) => INT_MIN <= i <= INT_MAX
    case String(b) => Valid(b)
    case Array(es) => forall i :: 0 <= i < |es| ==> Printable(es[i])
    case Object(ms) =>
      && DistinctKeys(ms)
      && (forall i :: 0 <= i < |ms| ==> NulFree(ms[i].0) && Valid(ms[i].0))
      && (forall i :: 0 <= i < |ms| ==> Printable(ms[i].1))
    case _ => true
  }

  // ----- lexing what was printed

  lemma {:induction false} LexPunct(c: byte, s: Text, bad: bool)
    requires IsPunct(c)
    ensures LexAll([c] + s, bad) == [Punct(c)] + LexAll(s, bad)
  {
    var t := [c] + s;
    assert SkipSpace(t) == t && t[1..] == s;
    assert Lex(t, bad) == Lexed(Punct(c), s);
  }

  predicate AllSpace(w: Text) {
    forall i :: 0 <= i < |w| ==> IsSpace(w[i])
  }

  lemma {:induction false} SkipSpaces(w: Text, s: Text)
    requires AllSpace(w)
    ensures SkipSpace(w + s) == SkipSpace(s)
  {
    if w == [] {
      assert w + s == s;
    } else {
      SkipSpaces(w[1..], s);
      assert (w + s)[1..] == w[1..] + s;
    }
  }

  lemma {:induction false} LexSpace(w: Text, s: Text, bad: bool)
    requires AllSpace(w)
    ensures LexAll(w + s, bad) == LexAll(s, bad)
  {
    hide SkipSpace;
    SkipSpaces(w, s);
  }

  lemma {:induction false} SpacesAreSpace(n: nat)
    ensures AllSpace(Spaces(n))
  {
    if n > 0 {
      SpacesAreSpace(n - 1);
    }
  }

  lemma {:induction false} IndentIsSpace(f: Flags, depth: nat, space: bool)
    ensures AllSpace(Indent(f, depth, space))
  {
    hide Spaces, IndentWidth;
    SpacesAreSpace(IndentWidth(depth, f.indent % 32));
  }

  lemma {:induction false} LexScalar(v: Value, f: Flags, depth: nat, tail: Text, bad: bool)
    requires Printable(v) && !v.Array? && !v.Object? && Delimited(tail)
    ensures Dump(v, f, depth).Some?
    ensures LexAll(Dump(v, f, depth).value + tail, bad) == Toks(v, f) + LexAll(tail, bad)
  {
    hide LexNumber, LexWord, LexString, DumpString, IntText, Valid;
    match v
    case Integer(i) => LexIntText(i, tail); LexOne(IntText(i) + tail, bad);
    case String(b) => LexDumpedString(b, f, tail); LexOne(DumpString(b, f).text + tail, bad);
    case Null => LexWordText(NULL_TEXT, tail); LexOne(NULL_TEXT + tail, bad);
    case True => LexWordText(TRUE_TEXT, tail); LexOne(TRUE_TEXT + tail, bad);
    case False => LexWordText(FALSE_TEXT, tail); LexOne(FALSE_TEXT + tail, bad);
  }

  /** The token at the start of text that does not start with white space. */
  lemma {:induction false} LexOne(s: Text, bad: bool)
    requires s != [] && !IsSpace(s[0])
    ensures s[0] == QUOTE ==> Lex(s, bad) == LexString(s[1..])
    ensures IsDigit(s[0]) || s[0] == MINUS ==> Lex(s, bad) == LexNumber(s)
    ensures IsAlpha(s[0]) ==> Lex(s, bad) == LexWord(s)
  {
  }

  lemma {:induction false} DelimitedSpace(w: Text, s: Text)
    requires AllSpace(w) && Delimited(s)
    ensures Delimited(w + s)
  {
    if w == [] {
      assert w + s == s;
    }
  }

  /** An element that ends the list, with the indentation before the bracket. */
  lemma {:induction false} LexClose(c: byte, w: Text, tail: Text, bad: bool)
    requires IsPunct(c) && AllSpace(w)
    ensures Delimited(w + [c] + tail)
    ensures LexAll(w + [c] + tail, bad) == [Punct(c)] + LexAll(tail, bad)
  {
    hide LexAll, IsSpace;
    assert w + [c] + tail == w + ([c] + tail);
    DelimitedSpace(w, [c] + tail);
    LexSpace(w, [c] + tail, bad);
    LexPunct(c, tail, bad);
  }

  /** A separator, with the indentation after it. */
  lemma {:induction false} LexComma(c: byte, w: Text, rest: Text, bad: bool)
    requires IsPunct(c) && AllSpace(w)
    ensures Delimited([c] + w + rest)
    ensures LexAll([c] + w + rest, bad) == [Punct(c)] + LexAll(rest, bad)
  {
    hide LexAll, IsSpace;
    assert [c] + w + rest == [c] + (w + rest);
    LexPunct(c, w + rest, bad);
    LexSpace(w, rest, bad);
  }

  /** The text printed for v is lexed to the tokens of v. */
  lemma {:induction false} LexDump(v: Value, f: Flags, depth: nat, tail: Text, bad: bool)
    requires Printable(v) && Delimited(tail)
    ensures Dump(v, f, depth).Some?
    ensures LexAll(Dump(v, f, depth).value + tail, bad) == Toks(v, f) + LexAll(tail, bad)
    decreases v, 1 + Width(v)
  {
    hide LexAll, DumpString, Indent, Printable, Delimited;
    if !v.Array? && !v.Object? {
      LexScalar(v, f, depth, tail, bad);
    } else if v.Array? {
      LexArray(v, f, depth, tail, bad);
    } else {
      LexObject(v, f, depth, tail, bad);
    }
  }

  lemma {:induction false} LexArray(v: Value, f: Flags, depth: nat, tail: Text, bad: bool)
    requires Printable(v) && v.Array?
    ensures Dump(v, f, depth).Some?
    ensures LexAll(Dump(v, f, depth).value + tail, bad) == Toks(v, f) + LexAll(tail, bad)
    decreases v, Width(v), 1
  {
    hide LexAll, Indent, Printable, Delimited, DumpElems, ElemToks;
    var open, close: Text := [OPEN_BRACKET], [CLOSE_BRACKET];
    if v.elems == [] {
      assert Dump(v, f, depth).value + tail == open + [] + ([] + close + tail);
      LexComma(OPEN_BRACKET, [], [] + close + tail, bad);
      LexClose(CLOSE_BRACKET, [], tail, bad);
    } else {
      LexElems(v, 0, f, depth, tail, bad);
      var w, t := Indent(f, depth + 1, false), DumpElems(v, 0, f, depth).value;
      IndentIsSpace(f, depth + 1, false);
      assert Dump(v, f, depth).value + tail == open + w + (t + close + tail);
      LexComma(OPEN_BRACKET, w, t + close + tail, bad);
    }
  }

  lemma {:induction false} LexElems(v: Value, i: nat, f: Flags, depth: nat, tail: Text, bad: bool)
    requires Printable(v) && v.Array? && i < |v.elems|
    ensures DumpElems(v, i, f, depth).Some?
    ensures LexAll(DumpElems(v, i, f, depth).value + [CLOSE_BRACKET] + tail, bad) ==
      ElemToks(v, i, f) + LexAll(tail, bad)
    decreases v, |v.elems| - i, 0
  {
    hide LexAll, Indent, Delimited, Dump, Toks;
    var e := v.elems[i];
    var close: Text := [CLOSE_BRACKET];
    if i + 1 < |v.elems| {
      var w := Indent(f, depth + 1, true);
      IndentIsSpace(f, depth + 1, true);
      LexElems(v, i + 1, f, depth, tail, bad);
      var u := DumpElems(v, i + 1, f, depth).value;
      var rest := u + close + tail;
      LexComma(COMMA, w, rest, bad);
      LexDump(e, f, depth + 1, [COMMA] + w + rest, bad);
      var t := Dump(e, f, depth + 1).value;
      assert DumpElems(v, i, f, depth).value + close + tail == t + ([COMMA] + w + rest);
    } else {
      var w := Indent(f, depth, false);
      IndentIsSpace(f, depth, false);
      LexClose(CLOSE_BRACKET, w, tail, bad);
      LexDump(e, f, depth + 1, w + close + tail, bad);
      var t := Dump(e, f, depth + 1).value;
      assert DumpElems(v, i, f, depth).value + close + tail == t + (w + close + tail);
    }
  }

  lemma {:induction false} LexObject(v: Value, f: Flags, depth: nat, tail: Text, bad: bool)
    requires Printable(v) && v.Object?
    ensures Dump(v, f, depth).Some?
    ensures LexAll(Dump(v, f, depth).value + tail, bad) == Toks(v, f) + LexAll(tail, bad)
    decreases v, Width(v), 1
  {
    hide LexAll, Indent, Printable, Delimited, DumpMembers, MemberToks, Listing;
    var open, close: Text := [OPEN_BRACE], [CLOSE_BRACE];
    if v.members == [] {
      assert Dump(v, f, depth).value + tail == open + [] + ([] + close + tail);
      LexComma(OPEN_BRACE, [], [] + close + tail, bad);
      LexClose(CLOSE_BRACE, [], tail, bad);
    } else {
      var order := Listing(v.members, f);
      LexMembers(v, order, 0, f, depth, tail, bad);
      var w, t := Indent(f, depth + 1, false), DumpMembers(v, order, 0, f, depth).value;
      IndentIsSpace(f, depth + 1, false);
      assert Dump(v, f, depth).value + tail == open + w + (t + close + tail);
      LexComma(OPEN_BRACE, w, t + close + tail, bad);
    }
  }

  lemma {:induction false} LexKey(key: Text, f: Flags, rest: Text, bad: bool)
    requires Valid(key)
    ensures LexAll(DumpString(key, f).text + Separator(f) + rest, bad) == [Str(key), Punct(COLON)] + LexAll(rest, bad)
  {
    hide LexAll, DumpString, Valid;
    var w: Text := if f.compact then [] else [32];
    assert Separator(f) == [COLON] + w;
    LexComma(COLON, w, rest, bad);
    LexScalar(String(key), f, 0, [COLON] + w + rest, bad);
    assert DumpString(key, f).text + Separator(f) + rest == DumpString(key, f).text + ([COLON] + w + rest);
  }

  lemma {:induction false} LexMembers(v: Value, order: seq<nat>, i: nat, f: Flags, depth: nat, tail: Text, bad: bool)
    requires Printable(v) && v.Object? && InRange(order, |v.members|) && i < |order| <= |v.members|
    ensures DumpMembers(v, order, i, f, depth).Some?
    ensures LexAll(DumpMembers(v, order, i, f, depth).value + [CLOSE_BRACE] + tail, bad)
         == MemberToks(v, order, i, f) + LexAll(tail, bad)
    decreases v, |order| - i, 0
  {
    hide LexAll, Indent, Delimited, Dump, Toks, DumpString, Separator, Valid;
    var m := v.members[order[i]];
    var close: Text := [CLOSE_BRACE];
    var key := DumpString(m.0, f).text + Separator(f);
    var after: Text;
    if i + 1 < |order| {
      var w := Indent(f, depth + 1, true);
      IndentIsSpace(f, depth + 1, true);
      LexMembers(v, order, i + 1, f, depth, tail, bad);
      var u := DumpMembers(v, order, i + 1, f, depth).value;
      LexComma(COMMA, w, u + close + tail, bad);
      after := [COMMA] + w + u;
      assert [COMMA] + w + (u + close + tail) == after + close + tail;
    } else {
      after := Indent(f, depth, false);
      IndentIsSpace(f, depth, false);
      LexClose(CLOSE_BRACE, after, tail, bad);
    }
    LexDump(m.1, f, depth + 1, after + close + tail, bad);
    var t := Dump(m.1, f, depth + 1).value;
    LexKey(m.0, f, t + (after + close + tail), bad);
    assert DumpMembers(v, order, i, f, depth).value == key + t + after;
    Regroup(key, t, after, close, tail);
  }

  lemma Regroup(a: Text, b: Text, c: Text, d: Text, e: Text)
    ensures a + b + c + d + e == a + (b + (c + d + e))
  {
  }
}
