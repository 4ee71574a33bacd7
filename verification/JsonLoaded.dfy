/** Whatever the parser accepts is a printable value, so that printing it and
    reading it again changes nothing. */
module JsonLoaded {
  import opened OrderedMap
  import opened Utf8
  import opened JsonStrings
  import opened JsonValues
  import opened JsonTokens
  import opened JsonDump
  import opened JsonParse
  import opened JsonRoundTrip

  // ----- tokens of decodable text hold valid strings

  /** Valid text can be cut before any ASCII byte. */
  lemma {:induction false} ValidCut(s: Text, n: nat)
    requires Valid(s) && n < |s| && s[n] < 0x80
    ensures Valid(s[..n]) && Valid(s[n..])
    decreases |s|
  {
    hide Encode, Iterate;
    if n > 0 {
      var c := Iterate(s).value;
      NotInside(s, n);
      IteratedIsEncoded(s);
      ValidCut(s[c.length..], n - c.length);
      var rest := s[c.length..][..n - c.length];
      assert s[..n] == s[..c.length] + rest;
      ValidEncodedThen(c.cp, rest);
      assert s[c.length..][n - c.length..] == s[n..];
    }
  }

  lemma {:induction false} NotInside(s: Text, n: nat)
    requires Valid(s) && 0 < n < |s| && s[n] < 0x80
    ensures Iterate(s).value.length <= n
  {
    var c := Iterate(s).value;
    if s[0] >= 0x80 {
      CharIsHigh(s);
      assert forall i :: 0 <= i < c.length ==> s[i] == s[..c.length][i];
    }
  }

  lemma {:induction false} SkipSpaceKeepsValid(s: Text)
    requires Valid(s)
    ensures Valid(SkipSpace(s))
    decreases |s|
  {
    if s != [] && IsSpace(s[0]) {
      assert s[..1] == [s[0]];
      ValidAfterAscii(s, 1);
      SkipSpaceKeepsValid(s[1..]);
    }
  }

  predicate TokenOk(t: Token) {
    match t
    case Str(b) => Valid(b)
    case Int(i) => INT_MIN <= i <= INT_MAX
    case _ => true
  }

  lemma {:induction false} LexStringKeepsValid(s: Text)
    requires Valid(s)
    ensures TokenOk(LexString(s).token) && Valid(LexString(s).rest)
  {
    hide Valid, RawLength, Unescape, Raw;
    if RawLength(s).Some? {
      var n := RawLength(s).value;
      RawLengthIsRaw(s);
      ValidCut(s, n);
      if Unescape(s[..n]).Some? {
        UnescapeIsValid(s[..n]);
        assert s[n..][..1] == [QUOTE];
        ValidAfterAscii(s[n..], 1);
        assert s[n..][1..] == s[n + 1..];
      }
    }
    EmptyIsValid();
  }

  lemma EmptyIsValid()
    ensures Valid([])
  {
  }

  lemma {:induction false} LexKeepsValid(s: Text, bad: bool)
    requires Valid(s)
    ensures TokenOk(Lex(s, bad).token) && Valid(Lex(s, bad).rest)
  {
    hide Valid, LexString, SkipSpace, IntValue, AlphaCount, IntegerLength;
    EmptyIsValid();
    SkipSpaceKeepsValid(s);
    var t := SkipSpace(s);
    if t != [] {
      if IsPunct(t[0]) || t[0] == QUOTE {
        ValidAfterAscii(t, 1);
        LexStringKeepsValid(t[1..]);
      } else if IsDigit(t[0]) || t[0] == MINUS {
        IntegerIsAscii(t);
        ValidAfterAscii(t, NumberLength(t));
      } else if IsAlpha(t[0]) {
        ValidAfterAscii(t, AlphaCount(t));
      }
    }
  }

  lemma {:induction false} IntegerIsAscii(t: Text)
    requires t != []
    ensures AllAscii(t[..NumberLength(t)])
  {
    var n := NumberLength(t);
    if n > 0 {
      NumberIsDigits(t);
      var x := t[..n];
      assert t[0] == MINUS ==> forall i :: 1 <= i < n ==> x[i] == x[1..][i - 1];
    }
  }

  ghost predicate TokensOk(ts: seq<Token>) {
    forall i :: 0 <= i < |ts| ==> TokenOk(ts[i])
  }

  lemma {:induction false} LexAllIsOk(s: Text, bad: bool)
    requires Valid(s)
    ensures TokensOk(LexAll(s, bad))
    decreases |s|
  {
    hide Lex, TokenOk;
    LexKeepsValid(s, bad);
    var r := Lex(s, bad);
    if !r.token.Eof? && !r.token.Invalid? {
      LexAllIsOk(r.rest, bad);
    }
  }

  lemma {:induction false} DecodableIsValid(s: Text)
    ensures Valid(s[..Decodable(s)])
    decreases |s|
  {
    hide Encode, Iterate;
    if s != [] && Iterate(s).Some? {
      var c := Iterate(s).value;
      IteratedIsEncoded(s);
      DecodableIsValid(s[c.length..]);
      var rest := s[c.length..][..Decodable(s[c.length..])];
      assert s[..Decodable(s)] == s[..c.length] + rest;
      ValidEncodedThen(c.cp, rest);
    } else {
      assert s[..0] == [];
    }
  }

  // ----- parsed values

  /** A value read while `depth` others were open. */
  ghost predicate Loaded(v: Value, depth: nat, lf: LoadFlags) {
    Printable(v) && depth + Depth(v) <= MAX_DEPTH && (lf.allowNul || NoNulStrings(v))
  }

  ghost predicate LoadedElems(es: seq<Value>, depth: nat, lf: LoadFlags) {
    forall i :: 0 <= i < |es| ==> Loaded(es[i], depth, lf)
  }

  ghost predicate LoadedMembers(ms: Members, depth: nat, lf: LoadFlags) {
    && DistinctKeys(ms)
    && (forall i :: 0 <= i < |ms| ==> NulFree(ms[i].0) && Valid(ms[i].0))
    && (forall i :: 0 <= i < |ms| ==> Loaded(ms[i].1, depth, lf))
  }

  lemma {:induction false} ElemsDepthIsMax(v: Value, i: nat, x: nat)
    requires v.Array? && i <= |v.elems|
    requires forall p :: i <= p < |v.elems| ==> Depth(v.elems[p]) <= x
    ensures ElemsDepth(v, i) <= x
    decreases |v.elems| - i
  {
    hide Depth;
    if i < |v.elems| {
      ElemsDepthIsMax(v, i + 1, x);
    }
  }

  lemma {:induction false} ArrayIsLoaded(es: seq<Value>, depth: nat, lf: LoadFlags)
    requires LoadedElems(es, depth + 1, lf) && depth < MAX_DEPTH
    ensures Loaded(Array(es), depth, lf)
  {
    ElemsDepthIsMax(Array(es), 0, MAX_DEPTH - depth - 1);
  }

  lemma {:induction false} ObjectIsLoaded(ms: Members, depth: nat, lf: LoadFlags)
    requires LoadedMembers(ms, depth + 1, lf) && depth < MAX_DEPTH
    ensures Loaded(Object(ms), depth, lf)
  {
    hide Valid, NulFree;
    MembersDepthIsMax(Object(ms), 0, MAX_DEPTH - depth - 1);
  }

  lemma {:induction false} SetIsLoaded(ms: Members, key: Text, v: Value, depth: nat, lf: LoadFlags)
    requires LoadedMembers(ms, depth, lf) && NulFree(key) && Valid(key) && Loaded(v, depth, lf)
    ensures LoadedMembers(Set(ms, key, v), depth, lf)
  {
    hide Valid, NulFree, Loaded;
    SetKeepsDistinct(ms, key, v);
  }

  lemma {:induction false} TokensRest(ts: seq<Token>, n: nat)
    requires TokensOk(ts) && n <= |ts|
    ensures TokensOk(ts[n..])
  {
    hide TokenOk;
  }

  lemma {:induction false} ParsedIsLoaded(ts: seq<Token>, depth: nat, lf: LoadFlags)
    requires TokensOk(ts) && ParseValue(ts, depth, lf).Ok?
    ensures Loaded(ParseValue(ts, depth, lf).value, depth, lf) && TokensOk(ParseValue(ts, depth, lf).rest)
    decreases |ts|, 1
  {
    hide ParseElems, ParseMembers, TokensOk, Valid, NulFree;
    var rest := ts[1..];
    TokensRest(ts, 1);
    FirstTokenOk(ts);
    if Peek(rest) == Punct(CLOSE_BRACE) || Peek(rest) == Punct(CLOSE_BRACKET) {
      TokensRest(rest, 1);
    }
    if ts[0] == Punct(OPEN_BRACKET) {
      if Peek(rest) != Punct(CLOSE_BRACKET) {
        ElemsAreLoaded([], rest, depth + 1, lf);
        ArrayIsLoaded(ParseElems([], rest, depth + 1, lf).value.elems, depth, lf);
      } else {
        ArrayIsLoaded([], depth, lf);
      }
    } else if ts[0] == Punct(OPEN_BRACE) {
      if Peek(rest) != Punct(CLOSE_BRACE) {
        MembersAreLoaded([], rest, depth + 1, lf);
        ObjectIsLoaded(ParseMembers([], rest, depth + 1, lf).value.members, depth, lf);
      } else {
        ObjectIsLoaded([], depth, lf);
      }
    }
  }

  lemma {:induction false} FirstTokenOk(ts: seq<Token>)
    requires TokensOk(ts) && ts != []
    ensures TokenOk(ts[0])
  {
  }

  lemma {:induction false} ElemsAreLoaded(acc: seq<Value>, ts: seq<Token>, depth: nat, lf: LoadFlags)
    requires TokensOk(ts) && LoadedElems(acc, depth, lf) && ParseElems(acc, ts, depth, lf).Ok?
    ensures
      var r := ParseElems(acc, ts, depth, lf);
      r.value.Array? && LoadedElems(r.value.elems, depth, lf) && TokensOk(r.rest)
    decreases |ts|, 2
  {
    hide ParseValue, TokensOk, Loaded;
    ParsedIsLoaded(ts, depth, lf);
    var p := ParseValue(ts, depth, lf);
    assert p.rest != [];
    TokensRest(p.rest, 1);
    if Peek(p.rest) == Punct(COMMA) {
      ElemsAreLoaded(acc + [p.value], p.rest[1..], depth, lf);
    }
  }

  lemma {:induction false} MembersAreLoaded(acc: Members, ts: seq<Token>, depth: nat, lf: LoadFlags)
    requires TokensOk(ts) && LoadedMembers(acc, depth, lf) && ParseMembers(acc, ts, depth, lf).Ok?
    ensures
      var r := ParseMembers(acc, ts, depth, lf);
      r.value.Object? && LoadedMembers(r.value.members, depth, lf) && TokensOk(r.rest)
    decreases |ts|, 2
  {
    hide ParseValue, TokensOk, LoadedMembers, Loaded, Valid, NulFree, Set, Get;
    TokensRest(ts, 2);
    FirstTokenOk(ts);
    ParsedIsLoaded(ts[2..], depth, lf);
    var p := ParseValue(ts[2..], depth, lf);
    SetIsLoaded(acc, ts[0].text, p.value, depth, lf);
    assert p.rest != [];
    TokensRest(p.rest, 1);
    if Peek(p.rest) == Punct(COMMA) {
      MembersAreLoaded(Set(acc, ts[0].text, p.value), p.rest[1..], depth, lf);
    }
  }

  /** Every accepted text yields a value whose strings are well-formed UTF-8,
      whose integers fit and whose keys are distinct and NUL-free; printing it
      without sorting and reading it again gives the very same value. */
  lemma {:induction false} LoadedIsStable(s: Text, lf: LoadFlags, f: Flags)
    requires Loads(s, lf).Some? && f.encodeAny && !f.sortKeys
    ensures Printable(Loads(s, lf).value)
    ensures Dumps(Loads(s, lf).value, f).Some?
    ensures Loads(Dumps(Loads(s, lf).value, f).value, lf) == Loads(s, lf)
  {
    hide Valid, LexAll, ParseValue, Printable, Dump, JsonEqual, Depth;
    var n := Decodable(s);
    var ts := LexAll(s[..n], n < |s|);
    DecodableIsValid(s);
    LexAllIsOk(s[..n], n < |s|);
    ParsedIsLoaded(ts, 0, lf);
    var v := Loads(s, lf).value;
    if !lf.decodeAny {
      ContainerStart(ts, lf);
    }
    LoadsUndoesDumps(v, f, lf);
  }

  lemma {:induction false} ContainerStart(ts: seq<Token>, lf: LoadFlags)
    requires ParseValue(ts, 0, lf).Ok? && (Peek(ts) == Punct(OPEN_BRACKET) || Peek(ts) == Punct(OPEN_BRACE))
    ensures ParseValue(ts, 0, lf).value.Array? || ParseValue(ts, 0, lf).value.Object?
  {
    hide ParseMembers, ParseElems;
    if Peek(ts) == Punct(OPEN_BRACKET) {
      if Peek(ts[1..]) != Punct(CLOSE_BRACKET) {
        ElemsGiveArray([], ts[1..], 1, lf);
      }
    } else if Peek(ts[1..]) != Punct(CLOSE_BRACE) {
      MembersGiveObject([], ts[1..], 1, lf);
    }
  }

  lemma {:induction false} ElemsGiveArray(acc: seq<Value>, ts: seq<Token>, depth: nat, lf: LoadFlags)
    requires ParseElems(acc, ts, depth, lf).Ok?
    ensures ParseElems(acc, ts, depth, lf).value.Array?
    decreases |ts|
  {
    hide ParseValue;
    var p := ParseValue(ts, depth, lf);
    if Peek(p.rest) == Punct(COMMA) {
      ElemsGiveArray(acc + [p.value], p.rest[1..], depth, lf);
    }
  }

  lemma {:induction false} MembersGiveObject(acc: Members, ts: seq<Token>, depth: nat, lf: LoadFlags)
    requires ParseMembers(acc, ts, depth, lf).Ok?
    ensures ParseMembers(acc, ts, depth, lf).value.Object?
    decreases |ts|
  {
    hide ParseValue, Set, Get;
    var p := ParseValue(ts[2..], depth, lf);
    if Peek(p.rest) == Punct(COMMA) {
      MembersGiveObject(Set(acc, ts[0].text, p.value), p.rest[1..], depth, lf);
    }
  }
}
