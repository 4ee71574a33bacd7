/** json_loads undoes json_dumps. */
module JsonRoundTrip {
  import opened OrderedMap
  import opened Bytes
  import opened Utf8
  import opened JsonStrings
  import opened JsonValues
  import opened JsonTokens
  import opened JsonDump
  import opened JsonParse

  // ----- without sorting nothing moves

  lemma {:induction false} UnsortedIsSame(v: Value, f: Flags)
    requires !f.sortKeys
    ensures Reordered(v, f) == v
  {
    match v
    case Array(es) =>
      forall i | 0 <= i < |es| ensures ReorderedElems(v, 0, f)[i] == es[i] {
        UnsortedIsSame(es[i], f);
      }
      assert ReorderedElems(v, 0, f) == es;
    case Object(ms) =>
      var r := ReorderedMembers(v, Listing(ms, f), 0, f);
      forall i | 0 <= i < |ms| ensures r[i] == ms[i] {
        UnsortedIsSame(ms[i].1, f);
        ReorderedMemberAt(v, Listing(ms, f), 0, f, i);
      }
      assert r == ms;
    case _ =>
  }

  // ----- sorting keeps the value

  lemma {:induction false} PrintableIsTidy(v: Value)
    requires Printable(v)
    ensures Tidy(v)
  {
    hide Valid, NulFree;
    match v
    case Array(es) =>
      forall i | 0 <= i < |es| ensures Tidy(es[i]) {
        PrintableIsTidy(es[i]);
      }
    case Object(ms) =>
      forall i | 0 <= i < |ms| ensures Tidy(ms[i].1) {
        PrintableIsTidy(ms[i].1);
      }
    case _ =>
  }

  lemma {:induction false} ReorderedKeys(v: Value, f: Flags)
    requires v.Object? && DistinctKeys(v.members)
    ensures DistinctKeys(ReorderedMembers(v, Listing(v.members, f), 0, f))
  {
    hide ReorderedMembers, Listing, Reordered;
    var order := Listing(v.members, f);
    var r := ReorderedMembers(v, order, 0, f);
    ListingIsDistinct(v.members, f);
    forall i, j | 0 <= i < j < |r| ensures r[i].0 != r[j].0 {
      ReorderedMemberAt(v, order, 0, f, i);
      ReorderedMemberAt(v, order, 0, f, j);
    }
  }

  lemma {:induction false} ReorderedIsTidy(v: Value, f: Flags)
    requires Tidy(v)
    ensures Tidy(Reordered(v, f))
  {
    hide NulFree, ReorderedMembers, Listing;
    match v
    case Array(es) =>
      forall i | 0 <= i < |es| ensures Tidy(Reordered(es[i], f)) {
        ReorderedIsTidy(es[i], f);
      }
    case Object(ms) =>
      var order := Listing(ms, f);
      var r := ReorderedMembers(v, order, 0, f);
      ReorderedKeys(v, f);
      forall j | 0 <= j < |r| ensures NulFree(r[j].0) && Tidy(r[j].1) {
        ReorderedMemberAt(v, order, 0, f, j);
        ReorderedIsTidy(ms[order[j]].1, f);
      }
    case _ =>
  }

  lemma {:induction false} MemberIsKept(v: Value, f: Flags, i: nat)
    requires v.Object? && DistinctKeys(v.members) && i < |v.members| && NulFree(v.members[i].0)
    requires JsonEqual(v.members[i].1, Reordered(v.members[i].1, f))
    ensures MemberEqual(v.members[i].0, v.members[i].1, ReorderedMembers(v, Listing(v.members, f), 0, f))
  {
    hide ReorderedMembers, Listing, Reordered, JsonEqual, Find;
    var order := Listing(v.members, f);
    var r := ReorderedMembers(v, order, 0, f);
    ReorderedKeys(v, f);
    assert i in order;
    var j :| 0 <= j < |order| && order[j] == i;
    ReorderedMemberAt(v, order, 0, f, j);
    FindUnique(r, j);
    CStringOfNulFree(v.members[i].0);
  }

  lemma {:induction false} ReorderedIsEqual(v: Value, f: Flags)
    requires Tidy(v)
    ensures JsonEqual(v, Reordered(v, f))
  {
    hide ReorderedMembers, Listing, MemberEqual;
    match v
    case Array(es) =>
      forall i | 0 <= i < |es| ensures JsonEqual(es[i], Reordered(es[i], f)) {
        ReorderedIsEqual(es[i], f);
      }
    case Object(ms) =>
      forall i | 0 <= i < |ms| ensures MemberEqual(ms[i].0, ms[i].1, ReorderedMembers(v, Listing(ms, f), 0, f)) {
        ReorderedIsEqual(ms[i].1, f);
        MemberIsKept(v, f, i);
      }
    case _ =>
  }

  // ----- SORT_KEYS sorts

  /** compare_keys is a total order: exactly one of less, equal, greater. */
  lemma {:induction false} CompareAntisymmetric(a: Text, b: Text)
    ensures CompareKeys(a, b) == -CompareKeys(b, a)
    ensures CompareKeys(a, b) == 0 <==> a == b
  {
    if a != [] && b != [] && a[0] == b[0] {
      CompareAntisymmetric(a[1..], b[1..]);
      assert a == [a[0]] + a[1..] && b == [b[0]] + b[1..];
    }
  }

  lemma {:induction false} CompareTransitive(a: Text, b: Text, c: Text)
    requires CompareKeys(a, b) < 0 && CompareKeys(b, c) < 0
    ensures CompareKeys(a, c) < 0
  {
    if a != [] && a[0] == b[0] && b[0] == c[0] {
      CompareTransitive(a[1..], b[1..], c[1..]);
    }
  }

  /** At place i the keys part, and a has the smaller byte or has ended. */
  predicate Parts(a: Text, b: Text, i: nat) {
    i <= |a| && i < |b| && a[..i] == b[..i] && (i == |a| || a[i] < b[i])
  }

  /** Keys are ordered byte by byte, a key before its extensions. */
  lemma {:induction false} CompareIsLexicographic(a: Text, b: Text)
    ensures CompareKeys(a, b) < 0 <==> exists i: nat :: Parts(a, b, i)
  {
    if a != [] && b != [] && a[0] == b[0] {
      CompareIsLexicographic(a[1..], b[1..]);
      if i: nat :| Parts(a[1..], b[1..], i) {
        assert a[..i + 1] == [a[0]] + a[1..][..i] && b[..i + 1] == [b[0]] + b[1..][..i];
        assert Parts(a, b, i + 1);
      }
      if i: nat :| Parts(a, b, i) {
        assert a[1..][..i - 1] == a[..i][1..] && b[1..][..i - 1] == b[..i][1..];
        assert Parts(a[1..], b[1..], i - 1);
      }
    } else {
      assert CompareKeys(a, b) < 0 ==> Parts(a, b, 0);
      forall i: nat | Parts(a, b, i) ensures i == 0 {
        if i > 0 {
          SameHead(a, b, i);
        }
      }
    }
  }

  lemma SameHead(a: Text, b: Text, i: nat)
    requires Parts(a, b, i) && i > 0
    ensures a != [] && b != [] && a[0] == b[0]
  {
    assert a[0] == a[..i][0] && b[0] == b[..i][0];
  }

  ghost predicate InKeyOrder(ms: Members, order: seq<nat>)
    requires InRange(order, |ms|)
  {
    forall i, j :: 0 <= i < j < |order| ==> CompareKeys(ms[order[i]].0, ms[order[j]].0) < 0
  }

  lemma {:induction false} LeastComesFirst(ms: Members, p: nat, order: seq<nat>)
    requires InRange(order, |ms|) && p < |ms| && InKeyOrder(ms, order)
    requires forall j :: 0 <= j < |order| ==> CompareKeys(ms[p].0, ms[order[j]].0) < 0
    ensures InRange([p] + order, |ms|) && InKeyOrder(ms, [p] + order)
  {
    hide CompareKeys;
  }

  lemma {:induction false} InsertKeepsOrder(ms: Members, p: nat, order: seq<nat>)
    requires InRange(order, |ms|) && p < |ms| && p !in order && DistinctKeys(ms) && InKeyOrder(ms, order)
    ensures InKeyOrder(ms, InsertPosition(ms, p, order))
  {
    hide CompareKeys;
    if order != [] {
      assert order[0] in order;
      CompareAntisymmetric(ms[p].0, ms[order[0]].0);
      if CompareKeys(ms[p].0, ms[order[0]].0) < 0 {
        forall j | 0 <= j < |order| ensures CompareKeys(ms[p].0, ms[order[j]].0) < 0 {
          if j > 0 {
            CompareTransitive(ms[p].0, ms[order[0]].0, ms[order[j]].0);
          }
        }
        LeastComesFirst(ms, p, order);
      } else {
        InsertKeepsOrder(ms, p, order[1..]);
        FirstIsLeast(ms, p, order);
        LeastComesFirst(ms, order[0], InsertPosition(ms, p, order[1..]));
      }
    }
  }

  lemma {:induction false} FirstIsLeast(ms: Members, p: nat, order: seq<nat>)
    requires order != [] && InRange(order, |ms|) && p < |ms| && InKeyOrder(ms, order)
    requires CompareKeys(ms[order[0]].0, ms[p].0) < 0
    ensures
      var tail := InsertPosition(ms, p, order[1..]);
      forall j :: 0 <= j < |tail| ==> CompareKeys(ms[order[0]].0, ms[tail[j]].0) < 0
  {
    hide CompareKeys, InsertPosition;
    var tail := InsertPosition(ms, p, order[1..]);
    forall j | 0 <= j < |tail| ensures CompareKeys(ms[order[0]].0, ms[tail[j]].0) < 0 {
      assert tail[j] in tail;
      if tail[j] != p {
        var q :| 0 <= q < |order[1..]| && order[1..][q] == tail[j];
        assert order[q + 1] == tail[j];
      }
    }
  }

  lemma EmptyIsInOrder(ms: Members)
    ensures InKeyOrder(ms, [])
  {
  }

  lemma {:induction false} SortedIsInOrder(ms: Members, n: nat)
    requires n <= |ms| && DistinctKeys(ms)
    ensures InKeyOrder(ms, SortedPositions(ms, n))
  {
    hide CompareKeys, InKeyOrder, InsertPosition;
    if n == 0 {
      EmptyIsInOrder(ms);
    } else {
      SortedIsInOrder(ms, n - 1);
      InsertKeepsOrder(ms, n - 1, SortedPositions(ms, n - 1));
    }
  }

  /** Under SORT_KEYS the members read back are in ascending key order. */
  lemma {:induction false} SortedWhenAsked(v: Value, f: Flags, i: nat, j: nat)
    requires v.Object? && DistinctKeys(v.members) && f.sortKeys && i < j < |v.members|
    ensures |Reordered(v, f).members| == |v.members|
    ensures CompareKeys(Reordered(v, f).members[i].0, Reordered(v, f).members[j].0) < 0
  {
    hide CompareKeys, SortedPositions;
    SortedIsInOrder(v.members, |v.members|);
    ReorderedMemberAt(v, Listing(v.members, f), 0, f, i);
    ReorderedMemberAt(v, Listing(v.members, f), 0, f, j);
  }

  // ----- the text is NUL-free UTF-8

  /** Text a C string can carry and the stream can decode. */
  ghost predicate Sendable(t: Text, ascii: bool) {
    Valid(t) && NulFree(t) && (ascii ==> AllAscii(t))
  }

  lemma {:induction false} SendableConcat(a: Text, b: Text, ascii: bool)
    requires Sendable(a, ascii) && Sendable(b, ascii)
    ensures Sendable(a + b, ascii)
  {
    hide Valid;
    ValidConcat(a, b);
  }

  lemma {:induction false} PlainIsSendable(t: Text, ascii: bool)
    requires AllAscii(t) && NulFree(t)
    ensures Sendable(t, ascii)
  {
    AsciiIsValid(t);
  }

  lemma {:induction false} IndentIsSendable(f: Flags, depth: nat, space: bool)
    ensures Sendable(Indent(f, depth, space), f.ensureAscii)
  {
    IndentIsSpace(f, depth, space);
    PlainIsSendable(Indent(f, depth, space), f.ensureAscii);
  }

  lemma {:induction false} StringIsSendable(b: Text, f: Flags)
    requires Valid(b)
    ensures Sendable(DumpString(b, f).text, f.ensureAscii)
  {
    hide Valid, PrintAll, DumpRest;
    DumpRestPrints(b, [], f);
    PrintAllIsClean(Decoded(b), f);
    var t := PrintAll(Decoded(b), f);
    var q: Text := [QUOTE];
    PlainIsSendable(q, f.ensureAscii);
    SendableConcat(q, t, f.ensureAscii);
    SendableConcat(q + t, q, f.ensureAscii);
    assert DumpString(b, f).text == q + t + q;
  }

  lemma {:induction false} IntIsSendable(i: int, ascii: bool)
    ensures Sendable(IntText(i), ascii)
  {
    PlainIsSendable(IntText(i), ascii);
  }

  lemma {:induction false} DumpIsSendable(v: Value, f: Flags, depth: nat)
    requires Printable(v)
    ensures Dump(v, f, depth).Some? && Sendable(Dump(v, f, depth).value, f.ensureAscii)
    decreases v, 1 + Width(v)
  {
    hide Sendable, Valid, DumpElems, DumpMembers, Indent, Listing, IntText;
    var a := f.ensureAscii;
    match v
    case Array(es) =>
      if es == [] {
        PlainIsSendable([OPEN_BRACKET, CLOSE_BRACKET], a);
      } else {
        ElemsAreSendable(v, 0, f, depth);
        EnclosedIsSendable(OPEN_BRACKET, DumpElems(v, 0, f, depth).value, CLOSE_BRACKET, f, depth);
      }
    case Object(ms) =>
      if ms == [] {
        PlainIsSendable([OPEN_BRACE, CLOSE_BRACE], a);
      } else {
        MembersAreSendable(v, Listing(ms, f), 0, f, depth);
        EnclosedIsSendable(OPEN_BRACE, DumpMembers(v, Listing(ms, f), 0, f, depth).value, CLOSE_BRACE, f, depth);
      }
    case _ => ScalarIsSendable(v, f, depth);
  }

  lemma {:induction false} ScalarIsSendable(v: Value, f: Flags, depth: nat)
    requires Printable(v) && !v.Array? && !v.Object?
    ensures Dump(v, f, depth).Some? && Sendable(Dump(v, f, depth).value, f.ensureAscii)
  {
    hide Sendable, Valid, DumpString, IntText;
    var a := f.ensureAscii;
    LexScalar(v, f, depth, [], false);
    match v
    case Integer(i) => IntIsSendable(i, a);
    case String(b) => StringIsSendable(b, f);
    case Null => PlainIsSendable(NULL_TEXT, a);
    case True => PlainIsSendable(TRUE_TEXT, a);
    case False => PlainIsSendable(FALSE_TEXT, a);
  }

  lemma {:induction false} EnclosedIsSendable(open: byte, t: Text, close: byte, f: Flags, depth: nat)
    requires IsPunct(open) && IsPunct(close) && Sendable(t, f.ensureAscii)
    ensures Sendable([open] + Indent(f, depth + 1, false) + t + [close], f.ensureAscii)
  {
    var a, w := f.ensureAscii, Indent(f, depth + 1, false);
    IndentIsSendable(f, depth + 1, false);
    PlainIsSendable([open], a);
    PlainIsSendable([close], a);
    hide Sendable;
    SendableConcat([open], w, a);
    SendableConcat([open] + w, t, a);
    SendableConcat([open] + w + t, [close], a);
  }

  /** One item of a list, with what follows it. */
  lemma {:induction false} ItemIsSendable(t: Text, f: Flags, depth: nat, u: Text)
    requires Sendable(t, f.ensureAscii) && Sendable(u, f.ensureAscii)
    ensures Sendable(t + [COMMA] + Indent(f, depth + 1, true) + u, f.ensureAscii)
    ensures Sendable(t + Indent(f, depth, false), f.ensureAscii)
  {
    var a, w := f.ensureAscii, Indent(f, depth + 1, true);
    IndentIsSendable(f, depth + 1, true);
    IndentIsSendable(f, depth, false);
    PlainIsSendable([COMMA], a);
    hide Sendable;
    SendableConcat(t, [COMMA], a);
    SendableConcat(t + [COMMA], w, a);
    SendableConcat(t + [COMMA] + w, u, a);
    SendableConcat(t, Indent(f, depth, false), a);
  }

  lemma {:induction false} ElemsAreSendable(v: Value, i: nat, f: Flags, depth: nat)
    requires Printable(v) && v.Array? && i < |v.elems|
    ensures DumpElems(v, i, f, depth).Some? && Sendable(DumpElems(v, i, f, depth).value, f.ensureAscii)
    decreases v, |v.elems| - i
  {
    hide Sendable, Dump, Indent;
    DumpIsSendable(v.elems[i], f, depth + 1);
    var t := Dump(v.elems[i], f, depth + 1).value;
    if i + 1 < |v.elems| {
      ElemsAreSendable(v, i + 1, f, depth);
      ItemIsSendable(t, f, depth, DumpElems(v, i + 1, f, depth).value);
    } else {
      ItemIsSendable(t, f, depth, t);
    }
  }

  lemma {:induction false} KeyIsSendable(key: Text, f: Flags, t: Text)
    requires Valid(key) && Sendable(t, f.ensureAscii)
    ensures Sendable(DumpString(key, f).text + Separator(f) + t, f.ensureAscii)
  {
    var a := f.ensureAscii;
    StringIsSendable(key, f);
    PlainIsSendable(Separator(f), a);
    hide Sendable, DumpString;
    SendableConcat(DumpString(key, f).text, Separator(f), a);
    SendableConcat(DumpString(key, f).text + Separator(f), t, a);
  }

  lemma {:induction false} MembersAreSendable(v: Value, order: seq<nat>, i: nat, f: Flags, depth: nat)
    requires Printable(v) && v.Object? && InRange(order, |v.members|) && i < |order| <= |v.members|
    ensures DumpMembers(v, order, i, f, depth).Some?
      && Sendable(DumpMembers(v, order, i, f, depth).value, f.ensureAscii)
    decreases v, |order| - i
  {
    hide Sendable, Dump, Indent, DumpString, Valid;
    var m := v.members[order[i]];
    DumpIsSendable(m.1, f, depth + 1);
    KeyIsSendable(m.0, f, Dump(m.1, f, depth + 1).value);
    var t := DumpString(m.0, f).text + Separator(f) + Dump(m.1, f, depth + 1).value;
    if i + 1 < |order| {
      MembersAreSendable(v, order, i + 1, f, depth);
      ItemIsSendable(t, f, depth, DumpMembers(v, order, i + 1, f, depth).value);
    } else {
      ItemIsSendable(t, f, depth, t);
    }
  }

  // ----- when printing fails

  /** Every string that is a value, not a key, is valid UTF-8. */
  ghost predicate StringsValid(v: Value) {
    match v
    case String(b) => Valid(b)
    case Array(es) => forall i :: 0 <= i < |es| ==> StringsValid(es[i])
    case Object(ms) => forall i :: 0 <= i < |ms| ==> StringsValid(ms[i].1)
    case _ => true
  }

  lemma {:induction false} DumpFails(v: Value, f: Flags, depth: nat)
    ensures Dump(v, f, depth).Some? <==> StringsValid(v)
    decreases v, 1 + Width(v)
  {
    hide DumpElems, DumpMembers, Indent, Listing, IntText, Valid, DumpRest;
    match v
    case String(b) => DumpRestPrints(b, [], f);
    case Array(es) =>
      if es != [] {
        ElemsFail(v, 0, f, depth);
      }
    case Object(ms) =>
      if ms != [] {
        var order := Listing(ms, f);
        MembersFail(v, order, 0, f, depth);
        if Dump(v, f, depth).Some? {
          forall i | 0 <= i < |ms| ensures StringsValid(ms[i].1) {
            assert i in order;
            var j :| 0 <= j < |order| && order[j] == i;
            assert StringsValid(ms[order[j]].1);
          }
        }
      }
    case _ =>
  }

  lemma {:induction false} ElemsFail(v: Value, i: nat, f: Flags, depth: nat)
    requires v.Array? && i < |v.elems|
    ensures DumpElems(v, i, f, depth).Some? <==> forall j :: i <= j < |v.elems| ==> StringsValid(v.elems[j])
    decreases v, |v.elems| - i
  {
    hide Dump, Indent, StringsValid;
    DumpFails(v.elems[i], f, depth + 1);
    if i + 1 < |v.elems| {
      ElemsFail(v, i + 1, f, depth);
    }
  }

  lemma {:induction false} MembersFail(v: Value, order: seq<nat>, i: nat, f: Flags, depth: nat)
    requires v.Object? && InRange(order, |v.members|) && i < |order|
    ensures DumpMembers(v, order, i, f, depth).Some? <==>
      forall j :: i <= j < |order| ==> StringsValid(v.members[order[j]].1)
    decreases v, |order| - i
  {
    hide Dump, Indent, StringsValid, DumpString, Separator;
    DumpFails(v.members[order[i]].1, f, depth + 1);
    if i + 1 < |order| {
      MembersFail(v, order, i + 1, f, depth);
    }
  }

  /** json_dumps gives NULL exactly for a bare scalar without ENCODE_ANY and for
      a value that holds a string, other than a key, that is not valid UTF-8. */
  lemma {:induction false} DumpsFailsIff(v: Value, f: Flags)
    ensures Dumps(v, f).None? <==> !(f.encodeAny || v.Array? || v.Object?) || !StringsValid(v)
  {
    hide Dump, StringsValid;
    DumpFails(v, f, 0);
  }

  // ----- the round trip

  lemma {:induction false} ValidIsDecodable(s: Text)
    requires Valid(s)
    ensures Decodable(s) == |s|
    decreases |s|
  {
    hide Iterate;
    if s != [] {
      ValidIsDecodable(s[Iterate(s).value.length..]);
    }
  }

  /** Every printable value is printed under every mix of flags, as NUL-free
      UTF-8; the text is read back exactly when the value is not nested deeper
      than the parser allows, and then as an equal value, with the same member
      order unless sorting was asked for. */
  lemma {:induction false} LoadsUndoesDumps(v: Value, f: Flags, lf: LoadFlags)
    requires Printable(v)
    requires v.Array? || v.Object? || (f.encodeAny && lf.decodeAny)
    requires lf.allowNul || NoNulStrings(v)
    ensures Dumps(v, f).Some?
    ensures Sendable(Dumps(v, f).value, f.ensureAscii)
    ensures Loads(Dumps(v, f).value, lf).Some? <==> Depth(v) <= MAX_DEPTH
    ensures Depth(v) <= MAX_DEPTH ==>
      var w := Loads(Dumps(v, f).value, lf).value;
      JsonEqual(w, v) && JsonEqual(v, w) && (!f.sortKeys ==> w == v)
  {
    hide Dump, Valid, LexAll, Toks, ParseValue, Printable, NulFree, AllAscii, JsonEqual;
    DumpIsSendable(v, f, 0);
    var t := Dumps(v, f).value;
    ValidIsDecodable(t);
    LexDump(v, f, 0, [], false);
    assert t[..|t|] == t && t + [] == t;
    EmptyIsEof();
    ParseToks(v, f, [Eof], 0, lf);
    TokensStart(v, f);
    PrintableIsTidy(v);
    ReorderedIsTidy(v, f);
    ReorderedIsEqual(v, f);
    TidyIsProper(Reordered(v, f));
    EqualSymmetric(v, Reordered(v, f));
    if !f.sortKeys {
      UnsortedIsSame(v, f);
    }
  }

  lemma EmptyIsEof()
    ensures LexAll([], false) == [Eof]
  {
  }

  lemma TokensStart(v: Value, f: Flags)
    ensures Toks(v, f) != []
    ensures v.Array? ==> Toks(v, f)[0] == Punct(OPEN_BRACKET)
    ensures v.Object? ==> Toks(v, f)[0] == Punct(OPEN_BRACE)
  {
  }
}
