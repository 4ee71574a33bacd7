/** do_dump as it runs: text appended piece by piece to the output. */
module JsonPrinter {
  import opened Options
  import opened Utf8
  import opened JsonStrings
  import opened JsonValues
  import opened JsonTokens
  import opened JsonDump

  method DoDump(v: Value, f: Flags, depth: nat) returns (r: Option<Text>)
    ensures r == Dump(v, f, depth)
    decreases v, 1
  {
    hide DumpString, IntText, DumpElems, DumpMembers, Indent, Listing;
    match v {
      case Null => r := Some(NULL_TEXT);
      case True => r := Some(TRUE_TEXT);
      case False => r := Some(FALSE_TEXT);
      case Integer(i) => r := Some(IntText(i));
      case String(b) =>
        var out, ok := DumpStringTo(b, f);
        r := if ok then Some(out) else None;
      case Array(es) => r := DumpArray(v, f, depth);
      case Object(ms) => r := DumpObject(v, f, depth);
    }
  }

  method DumpArray(v: Value, f: Flags, depth: nat) returns (r: Option<Text>)
    requires v.Array?
    ensures r == Dump(v, f, depth)
    decreases v, 0
  {
    hide Indent;
    var out: Text := [OPEN_BRACKET];
    var n := |v.elems|;
    if n == 0 {
      out := out + [CLOSE_BRACKET];
      assert out == [OPEN_BRACKET, CLOSE_BRACKET];
      return Some(out);
    }
    var indent := IndentTo(f, depth + 1, false);
    out := out + indent;
    ghost var open := out;
    ghost var goal := DumpElems(v, 0, f, depth);
    assert Prepend(open, goal) == Prepend(out, DumpElems(v, 0, f, depth));
    var i := 0;
    while i < n
      invariant 0 <= i <= n
      invariant Prepend(open, goal) == if i < n then Prepend(out, DumpElems(v, i, f, depth)) else Some(out)
    {
      hide Dump;
      var text := DoDump(v.elems[i], f, depth + 1);
      if text.None? {
        assert goal.None?;
        break;
      }
      if i < n - 1 {
        indent := IndentTo(f, depth + 1, true);
        PrependTwice(out, text.value + [COMMA] + indent, DumpElems(v, i + 1, f, depth));
        assert out + (text.value + [COMMA] + indent) == out + text.value + [COMMA] + indent;
        out := out + text.value + [COMMA] + indent;
      } else {
        indent := IndentTo(f, depth, false);
        assert out + (text.value + indent) == out + text.value + indent;
        out := out + text.value + indent;
      }
      i := i + 1;
    }
    r := if i < n then None else Some(out + [CLOSE_BRACKET]);
  }

  method DumpObject(v: Value, f: Flags, depth: nat) returns (r: Option<Text>)
    requires v.Object?
    ensures r == Dump(v, f, depth)
    decreases v, 0
  {
    hide Indent, Listing, DumpString;
    var out: Text := [OPEN_BRACE];
    var n := |v.members|;
    if n == 0 {
      out := out + [CLOSE_BRACE];
      assert out == [OPEN_BRACE, CLOSE_BRACE];
      return Some(out);
    }
    var indent := IndentTo(f, depth + 1, false);
    out := out + indent;
    var separator: Text := if f.compact then [COLON] else [COLON, 32];
    var order := Listing(v.members, f);
    ghost var open := out;
    ghost var goal := DumpMembers(v, order, 0, f, depth);
    var i := 0;
    while i < n
      invariant 0 <= i <= n
      invariant Prepend(open, goal) == if i < n then Prepend(out, DumpMembers(v, order, i, f, depth)) else Some(out)
    {
      hide Dump;
      var m := v.members[order[i]];
      // the result of dump_string is ignored for keys
      var key, _ := DumpStringTo(m.0, f);
      var text := DoDump(m.1, f, depth + 1);
      if text.None? {
        assert goal.None?;
        break;
      }
      var item := key + separator + text.value;
      if i < n - 1 {
        indent := IndentTo(f, depth + 1, true);
        PrependTwice(out, item + [COMMA] + indent, DumpMembers(v, order, i + 1, f, depth));
        out := out + (item + [COMMA] + indent);
      } else {
        indent := IndentTo(f, depth, false);
        out := out + (item + indent);
      }
      i := i + 1;
    }
    r := if i < n then None else Some(out + [CLOSE_BRACE]);
  }

  /** json_dumps. */
  method DumpsTo(v: Value, f: Flags) returns (r: Option<Text>)
    ensures r == Dumps(v, f)
  {
    if !f.encodeAny {
      if !v.Array? && !v.Object? {
        return None;
      }
    }
    r := DoDump(v, f, 0);
  }
}
