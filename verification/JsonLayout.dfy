/** What INDENT and COMPACT do to printed text: the text under any layout flags
    is any other such text laid out again, byte by byte, without looking at the
    value. */
module JsonLayout {
  import opened Bytes
  import opened Utf8
  import opened JsonStrings
  import opened JsonValues
  import opened JsonTokens
  import opened JsonDump
  import opened JsonRoundTrip

  // ----- laying out a text

  /** Outside string literals, inside one, or behind a backslash there. */
  datatype Mode = Outside | Inside | Escaped

  /** A new line at some depth of brackets, if the text is to be indented; the
      width is cut to five bits and the product to 32. */
  function NewLine(f: Flags, depth: nat): Text {
    if f.indent % 32 == 0 then []
    else [10] + seq(depth * (f.indent % 32) % 0x1_0000_0000, (_: int) => 32)
  }

  /** Drops the white space outside literals and puts in what the flags ask for:
      a new line behind an opening bracket and in front of a closing one unless
      they touch, a new line or a space behind a comma, a space behind a colon. */
  function Laid(t: Text, f: Flags, depth: nat, m: Mode): Text
    decreases |t|
  {
    if t == [] then []
    else
      var c, rest := t[0], t[1..];
      match m
      case Escaped => [c] + Laid(rest, f, depth, Inside)
      case Inside =>
        [c] + Laid(rest, f, depth, if c == 34 then Outside else if c == 92 then Escaped else Inside)
      case Outside =>
        if c == 32 || c == 10 then Laid(rest, f, depth, Outside)
        else if c == 34 then [c] + Laid(rest, f, depth, Inside)
        else if c == 91 || c == 123 then
          if rest != [] && rest[0] == c + 2 then [c, c + 2] + Laid(rest[1..], f, depth, Outside)
          else [c] + NewLine(f, depth + 1) + Laid(rest, f, depth + 1, Outside)
        else if c == 93 || c == 125 then
          var outer := if depth == 0 then 0 else depth - 1;
          NewLine(f, outer) + [c] + Laid(rest, f, outer, Outside)
        else if c == 44 then
          [c] + (if f.indent % 32 > 0 then NewLine(f, depth) else if f.compact then [] else [32])
          + Laid(rest, f, depth, Outside)
        else if c == 58 then [c] + (if f.compact then [] else [32]) + Laid(rest, f, depth, Outside)
        else [c] + Laid(rest, f, depth, Outside)
  }

  // ----- pieces of text

  predicate OnlyBlanks(w: Text) {
    forall i :: 0 <= i < |w| ==> w[i] == 32 || w[i] == 10
  }

  lemma {:induction false} LaidBlanks(w: Text, f: Flags, depth: nat, u: Text)
    requires OnlyBlanks(w)
    ensures Laid(w + u, f, depth, Outside) == Laid(u, f, depth, Outside)
  {
    if w == [] {
      assert w + u == u;
    } else {
      assert (w + u)[1..] == w[1..] + u;
      LaidBlanks(w[1..], f, depth, u);
    }
  }

  /** Letters, digits and the minus sign. */
  predicate OnlyPlain(t: Text) {
    forall i :: 0 <= i < |t| ==> IsAlpha(t[i]) || IsDigit(t[i]) || t[i] == 45
  }

  lemma {:induction false} LaidPlain(t: Text, f: Flags, depth: nat, u: Text)
    requires OnlyPlain(t)
    ensures Laid(t + u, f, depth, Outside) == t + Laid(u, f, depth, Outside)
  {
    if t == [] {
      assert t + u == u;
    } else {
      assert (t + u)[1..] == t[1..] + u;
      LaidPlain(t[1..], f, depth, u);
    }
  }

  lemma {:induction false} LaidRaw(raw: Text, f: Flags, depth: nat, u: Text)
    requires Raw(raw)
    ensures Laid(raw + [34] + u, f, depth, Inside) == raw + [34] + Laid(u, f, depth, Outside)
    decreases |raw|
  {
    hide Laid, UnitLength;
    if raw == [] {
      LaidQuote(f, depth, u);
      assert raw + [34] + u == [34] + u;
    } else {
      var n := UnitLength(raw);
      var next := raw[n..] + [34] + u;
      LaidRaw(raw[n..], f, depth, u);
      Cut(raw, n, u);
      LaidUnit(raw[..n], f, depth, next, raw);
      Cut(raw, n, Laid(u, f, depth, Outside));
    }
  }

  lemma Cut(raw: Text, n: nat, u: Text)
    requires n <= |raw|
    ensures raw + [34] + u == raw[..n] + (raw[n..] + [34] + u)
  {
  }

  lemma LaidQuote(f: Flags, depth: nat, u: Text)
    ensures Laid([34] + u, f, depth, Inside) == [34] + Laid(u, f, depth, Outside)
    ensures Laid([34] + u, f, depth, Outside) == [34] + Laid(u, f, depth, Inside)
  {
    assert ([34] + u)[1..] == u;
  }

  lemma {:induction false} LaidUnit(t: Text, f: Flags, depth: nat, next: Text, raw: Text)
    requires UnitLength(raw) > 0 && t == raw[..UnitLength(raw)]
    ensures Laid(t + next, f, depth, Inside) == t + Laid(next, f, depth, Inside)
  {
    hide Laid;
    var s := t + next;
    if |t| == 1 {
      LaidInside(s, f, depth);
      assert s[1..] == next;
    } else {
      LaidInside(s, f, depth);
      assert s[2..] == t[2..] + next;
      if |t| == 2 {
        assert s[2..] == next;
      } else {
        LaidLetters(t[2..], f, depth, next);
        assert [t[0], t[1]] + t[2..] == t;
      }
    }
  }

  /** One byte of a literal, or two behind a backslash. */
  lemma LaidInside(s: Text, f: Flags, depth: nat)
    requires s != [] && s[0] != 34
    ensures s[0] != 92 ==> Laid(s, f, depth, Inside) == [s[0]] + Laid(s[1..], f, depth, Inside)
    ensures s[0] == 92 && |s| > 1 ==> Laid(s, f, depth, Inside) == [s[0], s[1]] + Laid(s[2..], f, depth, Inside)
  {
    if |s| > 1 {
      assert s[1..][1..] == s[2..];
    }
  }

  lemma {:induction false} LaidLetters(t: Text, f: Flags, depth: nat, u: Text)
    requires forall i :: 0 <= i < |t| ==> IsHex(t[i])
    ensures Laid(t + u, f, depth, Inside) == t + Laid(u, f, depth, Inside)
  {
    if t == [] {
      assert t + u == u;
    } else {
      assert (t + u)[1..] == t[1..] + u;
      LaidLetters(t[1..], f, depth, u);
    }
  }

  // ----- flags that agree on everything but the layout

  predicate SameContent(f: Flags, g: Flags) {
    f.ensureAscii == g.ensureAscii && f.escapeSlash == g.escapeSlash && f.sortKeys == g.sortKeys
  }

  lemma {:induction false} SamePrint(cps: seq<int>, f: Flags, g: Flags)
    requires AllScalar(cps) && SameContent(f, g)
    ensures PrintAll(cps, f) == PrintAll(cps, g)
  {
    hide EscapeText, Encode, Scalar;
    if cps != [] {
      SamePrint(cps[1..], f, g);
    }
  }

  lemma {:induction false} StringText(b: Text, f: Flags) returns (raw: Text)
    requires Valid(b)
    ensures AllScalar(Decoded(b)) && raw == PrintAll(Decoded(b), f) && Raw(raw)
    ensures DumpString(b, f).text == [34] + (raw + [34])
  {
    hide Valid, DumpRest, PrintAll, Raw, Unescape, EncodeAll, Prepend;
    DumpRestPrints(b, [], f);
    raw := PrintAll(Decoded(b), f);
    PrintAllUnescapes(Decoded(b), f);
  }

  lemma {:induction false} LaidString(b: Text, f: Flags, g: Flags, depth: nat, u: Text)
    requires Valid(b) && SameContent(f, g)
    ensures Laid(DumpString(b, g).text + u, f, depth, Outside) == DumpString(b, f).text + Laid(u, f, depth, Outside)
  {
    hide Valid, PrintAll, Laid, Raw, DumpString, Decoded;
    var raw := StringText(b, g);
    var same := StringText(b, f);
    SamePrint(Decoded(b), f, g);
    assert DumpString(b, g).text + u == [34] + (raw + [34] + u);
    LaidQuote(f, depth, raw + [34] + u);
    LaidRaw(raw, f, depth, u);
  }

  lemma {:induction false} IndentBlanks(g: Flags, depth: nat, space: bool)
    ensures OnlyBlanks(Indent(g, depth, space))
  {
    SpacesAre(IndentWidth(depth, g.indent % 32));
  }

  lemma {:induction false} SpacesAre(n: nat)
    ensures Spaces(n) == seq(n, (_: int) => 32)
  {
    if n > 0 {
      SpacesAre(n - 1);
    }
  }

  lemma {:induction false} IndentIsNewLine(f: Flags, depth: nat)
    ensures Indent(f, depth, false) == NewLine(f, depth)
    ensures Indent(f, depth, true) ==
      if f.indent % 32 > 0 then NewLine(f, depth) else if f.compact then [] else [32]
  {
    SpacesAre(IndentWidth(depth, f.indent % 32));
  }

  // ----- brackets, commas and colons

  lemma {:induction false} LaidOpen(c: byte, g: Flags, f: Flags, depth: nat, next: Text)
    requires (c == 91 || c == 123) && next != [] && next[0] != 93 && next[0] != 125
    ensures Laid([c] + Indent(g, depth + 1, false) + next, f, depth, Outside) ==
      [c] + Indent(f, depth + 1, false) + Laid(next, f, depth + 1, Outside)
  {
    hide Indent, NewLine;
    IndentBlanks(g, depth + 1, false);
    var w := Indent(g, depth + 1, false);
    var t := [c] + w + next;
    assert t[1..] == w + next && (w + next)[0] == if w == [] then next[0] else w[0];
    IndentIsNewLine(f, depth + 1);
    LaidBlanks(w, f, depth + 1, next);
  }

  lemma {:induction false} LaidClose(c: byte, g: Flags, f: Flags, depth: nat, u: Text)
    requires c == 93 || c == 125
    ensures Laid(Indent(g, depth, false) + [c] + u, f, depth + 1, Outside) ==
      Indent(f, depth, false) + [c] + Laid(u, f, depth, Outside)
  {
    hide Indent, NewLine;
    IndentBlanks(g, depth, false);
    var w := Indent(g, depth, false);
    var t := [c] + u;
    assert w + [c] + u == w + t && t[1..] == u;
    IndentIsNewLine(f, depth);
    LaidBlanks(w, f, depth + 1, t);
  }

  lemma {:induction false} LaidComma(g: Flags, f: Flags, depth: nat, next: Text)
    ensures Laid([44] + Indent(g, depth, true) + next, f, depth, Outside) ==
      [44] + Indent(f, depth, true) + Laid(next, f, depth, Outside)
  {
    hide Indent, NewLine;
    IndentBlanks(g, depth, true);
    var w := Indent(g, depth, true);
    var t := [44] + w + next;
    assert t[1..] == w + next;
    IndentIsNewLine(f, depth);
    LaidBlanks(w, f, depth, next);
  }

  lemma {:induction false} LaidColon(g: Flags, f: Flags, depth: nat, next: Text)
    ensures Laid(Separator(g) + next, f, depth, Outside) == Separator(f) + Laid(next, f, depth, Outside)
  {
    var w: Text := if g.compact then [] else [32];
    var t := Separator(g) + next;
    assert t[1..] == w + next;
    LaidBlanks(w, f, depth, next);
  }

  lemma LaidEmpty(c: byte, f: Flags, depth: nat, u: Text)
    requires c == 91 || c == 123
    ensures Laid([c, c + 2] + u, f, depth, Outside) == [c, c + 2] + Laid(u, f, depth, Outside)
  {
    var t := [c, c + 2] + u;
    assert t[1..][0] == c + 2 && t[1..][1..] == u;
  }

  // ----- values

  lemma {:induction false} NumberIsPlain(i: int)
    ensures OnlyPlain(IntText(i))
  {
  }

  /** Printed text begins with no closing bracket. */
  lemma {:induction false} FirstByte(v: Value, f: Flags, depth: nat)
    requires Dump(v, f, depth).Some?
    ensures
      var t := Dump(v, f, depth).value;
      t != [] && t[0] != 93 && t[0] != 125
  {
    hide DumpElems, DumpMembers, Indent, DumpRest;
    if v.Integer? {
      NumberIsPlain(v.i);
    }
  }

  lemma {:induction false} LaidScalar(v: Value, f: Flags, g: Flags, depth: nat, u: Text)
    requires Printable(v) && SameContent(f, g) && !v.Array? && !v.Object?
    requires Dump(v, f, depth).Some? && Dump(v, g, depth).Some?
    ensures Laid(Dump(v, g, depth).value + u, f, depth, Outside) ==
      Dump(v, f, depth).value + Laid(u, f, depth, Outside)
  {
    hide Laid, DumpString, IntText, Valid;
    match v
    case Null => LaidPlain(NULL_TEXT, f, depth, u);
    case True => LaidPlain(TRUE_TEXT, f, depth, u);
    case False => LaidPlain(FALSE_TEXT, f, depth, u);
    case Integer(i) =>
      NumberIsPlain(i);
      LaidPlain(IntText(i), f, depth, u);
    case String(b) => LaidString(b, f, g, depth, u);
  }

  lemma {:induction false} BothPrint(v: Value, f: Flags, g: Flags, depth: nat)
    requires Printable(v)
    ensures Dump(v, f, depth).Some? && Dump(v, g, depth).Some?
  {
    hide Printable, Dump;
    DumpIsSendable(v, f, depth);
    DumpIsSendable(v, g, depth);
  }

  lemma {:induction false} LaidDump(v: Value, f: Flags, g: Flags, depth: nat, u: Text)
    requires Printable(v) && SameContent(f, g)
    ensures Dump(v, f, depth).Some? && Dump(v, g, depth).Some?
    ensures Laid(Dump(v, g, depth).value + u, f, depth, Outside) ==
      Dump(v, f, depth).value + Laid(u, f, depth, Outside)
    decreases v, 1 + Width(v)
  {
    hide Laid, DumpElems, DumpMembers, Indent, Listing, Printable;
    BothPrint(v, f, g, depth);
    match v
    case Array(es) =>
      if es == [] {
        LaidEmpty(91, f, depth, u);
      } else {
        LaidElems(v, 0, f, g, depth, u);
        var a, b := DumpElems(v, 0, g, depth).value, DumpElems(v, 0, f, depth).value;
        LaidOpen(91, g, f, depth, a + [93] + u);
        Bracketed(91, Indent(g, depth + 1, false), a, 93, u);
        Bracketed(91, Indent(f, depth + 1, false), b, 93, Laid(u, f, depth, Outside));
      }
    case Object(ms) =>
      assert Listing(ms, f) == Listing(ms, g) by { SameListing(ms, f, g); }
      if ms == [] {
        LaidEmpty(123, f, depth, u);
      } else {
        var order := Listing(ms, f);
        LaidMembers(v, order, 0, f, g, depth, u);
        var a, b := DumpMembers(v, order, 0, g, depth).value, DumpMembers(v, order, 0, f, depth).value;
        LaidOpen(123, g, f, depth, a + [125] + u);
        Bracketed(123, Indent(g, depth + 1, false), a, 125, u);
        Bracketed(123, Indent(f, depth + 1, false), b, 125, Laid(u, f, depth, Outside));
      }
    case _ => LaidScalar(v, f, g, depth, u);
  }

  lemma SameListing(ms: Members, f: Flags, g: Flags)
    requires SameContent(f, g)
    ensures Listing(ms, f) == Listing(ms, g)
  {
  }

  lemma Bracketed(open: byte, w: Text, a: Text, close: byte, u: Text)
    ensures [open] + w + a + [close] + u == [open] + w + (a + [close] + u)
  {
  }

  lemma {:induction false} LaidElems(v: Value, i: nat, f: Flags, g: Flags, depth: nat, u: Text)
    requires v.Array? && i < |v.elems| && Printable(v) && SameContent(f, g)
    ensures DumpElems(v, i, f, depth).Some? && DumpElems(v, i, g, depth).Some?
    ensures DumpElems(v, i, g, depth).value != []
    ensures DumpElems(v, i, g, depth).value[0] != 93 && DumpElems(v, i, g, depth).value[0] != 125
    ensures Laid(DumpElems(v, i, g, depth).value + [93] + u, f, depth + 1, Outside) ==
      DumpElems(v, i, f, depth).value + [93] + Laid(u, f, depth, Outside)
    decreases v, |v.elems| - i
  {
    hide Laid, Dump, Indent;
    var e, d := v.elems[i], depth + 1;
    var out := Laid(u, f, depth, Outside);
    if i + 1 < |v.elems| {
      LaidElems(v, i + 1, f, g, depth, u);
      var a, b := DumpElems(v, i + 1, g, depth).value, DumpElems(v, i + 1, f, depth).value;
      var next := [44] + Indent(g, d, true) + (a + [93] + u);
      LaidDump(e, f, g, d, next);
      LaidComma(g, f, d, a + [93] + u);
      Listed(Dump(e, g, d).value, Indent(g, d, true), a, 93, u);
      Listed(Dump(e, f, d).value, Indent(f, d, true), b, 93, out);
    } else {
      var next := Indent(g, depth, false) + [93] + u;
      LaidDump(e, f, g, d, next);
      LaidClose(93, g, f, depth, u);
      assert Dump(e, g, d).value + Indent(g, depth, false) + [93] + u == Dump(e, g, d).value + next;
      assert Dump(e, f, d).value + Indent(f, depth, false) + [93] + out
          == Dump(e, f, d).value + (Indent(f, depth, false) + [93] + out);
    }
    FirstByte(e, g, d);
  }

  lemma Listed(e: Text, w: Text, a: Text, close: byte, u: Text)
    ensures e + [44] + w + a + [close] + u == e + ([44] + w + (a + [close] + u))
  {
  }

  /** Key, colon and value. */
  lemma {:induction false} LaidMember(m: (Text, Value), f: Flags, g: Flags, d: nat, next: Text)
    requires Valid(m.0) && SameContent(f, g) && Dump(m.1, f, d).Some? && Dump(m.1, g, d).Some?
    requires Laid(Dump(m.1, g, d).value + next, f, d, Outside) == Dump(m.1, f, d).value + Laid(next, f, d, Outside)
    ensures Laid(DumpString(m.0, g).text + Separator(g) + Dump(m.1, g, d).value + next, f, d, Outside) ==
      DumpString(m.0, f).text + Separator(f) + Dump(m.1, f, d).value + Laid(next, f, d, Outside)
  {
    hide Laid, Dump, DumpString, Separator, Valid;
    var k, s, t := DumpString(m.0, g).text, Separator(g), Dump(m.1, g, d).value;
    assert k + s + t + next == k + (s + (t + next));
    LaidString(m.0, f, g, d, s + (t + next));
    LaidColon(g, f, d, t + next);
  }

  lemma {:induction false} LaidMembers(v: Value, order: seq<nat>, i: nat, f: Flags, g: Flags, depth: nat, u: Text)
    requires v.Object? && InRange(order, |v.members|) && i < |order| && Printable(v) && SameContent(f, g)
    ensures DumpMembers(v, order, i, f, depth).Some? && DumpMembers(v, order, i, g, depth).Some?
    ensures DumpMembers(v, order, i, g, depth).value != []
    ensures DumpMembers(v, order, i, g, depth).value[0] != 93 && DumpMembers(v, order, i, g, depth).value[0] != 125
    ensures Laid(DumpMembers(v, order, i, g, depth).value + [125] + u, f, depth + 1, Outside) ==
      DumpMembers(v, order, i, f, depth).value + [125] + Laid(u, f, depth, Outside)
    decreases v, |order| - i
  {
    hide Laid, Dump, Indent, DumpString, Separator, Valid, NulFree;
    var m, d := v.members[order[i]], depth + 1;
    var out := Laid(u, f, depth, Outside);
    BothPrint(m.1, f, g, d);
    var x := DumpString(m.0, g).text + Separator(g) + Dump(m.1, g, d).value;
    var y := DumpString(m.0, f).text + Separator(f) + Dump(m.1, f, d).value;
    if i + 1 < |order| {
      LaidMembers(v, order, i + 1, f, g, depth, u);
      var a, b := DumpMembers(v, order, i + 1, g, depth).value, DumpMembers(v, order, i + 1, f, depth).value;
      var next := [44] + Indent(g, d, true) + (a + [125] + u);
      LaidDump(m.1, f, g, d, next);
      LaidMember(m, f, g, d, next);
      LaidComma(g, f, d, a + [125] + u);
      Listed(x, Indent(g, d, true), a, 125, u);
      Listed(y, Indent(f, d, true), b, 125, out);
    } else {
      var next := Indent(g, depth, false) + [125] + u;
      LaidDump(m.1, f, g, d, next);
      LaidMember(m, f, g, d, next);
      LaidClose(125, g, f, depth, u);
      assert x + Indent(g, depth, false) + [125] + u == x + next;
      assert y + Indent(f, depth, false) + [125] + out == y + (Indent(f, depth, false) + [125] + out);
    }
    KeyBegins(m.0, g);
  }

  lemma KeyBegins(b: Text, g: Flags)
    ensures DumpString(b, g).text != [] && DumpString(b, g).text[0] == 34
  {
  }

  /** json_dumps under flags f is json_dumps under flags g, laid out again. */
  lemma {:induction false} DumpsIsLaidOut(v: Value, f: Flags, g: Flags)
    requires Printable(v) && SameContent(f, g) && (v.Array? || v.Object? || (f.encodeAny && g.encodeAny))
    ensures Dumps(v, f).Some? && Dumps(v, g).Some?
    ensures Dumps(v, f).value == Laid(Dumps(v, g).value, f, 0, Outside)
  {
    hide Dump, Printable;
    LaidDump(v, f, g, 0, []);
    var t := Dump(v, g, 0).value;
    assert t + [] == t;
    assert Laid([], f, 0, Outside) == [];
  }
}
