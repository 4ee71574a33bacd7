/** json_loads reads exactly the texts of the JSON grammar, each as the value it
    stands for. */
module JsonAccepts {
  import opened Options
  import opened OrderedMap
  import opened Bytes
  import opened Utf8
  import opened JsonStrings
  import opened JsonValues
  import opened JsonTokens
  import opened JsonDump
  import opened JsonParse
  import opened JsonSpelling
  import opened JsonGrammar
  import opened JsonRoundTrip
  import opened JsonLoaded

  // ----- every document is read as what it stands for

  lemma ClosedBy(d: Doc, ws: Text, c: byte, u: Text)
    requires Blank(ws) && IsPunct(c)
    ensures Closes(d, ws + [c] + u)
  {
    var t := ws + [c] + u;
    assert t[0] == if ws == [] then c else ws[0];
  }

  lemma {:induction false} LeafReads(d: Doc, u: Text, bad: bool, depth: nat, lf: LoadFlags)
    requires Fine(d, lf) && Closes(d, u) && depth < MAX_DEPTH && !IsContainer(d)
    ensures ParseValue(LexAll(Spell(d, lf) + u, bad), depth, lf) == Ok(Meaning(d, lf), LexAll(u, bad))
    ensures Opens(LexAll(Spell(d, lf) + u, bad)[0])
  {
    hide LexAll, ParseElems, ParseMembers, PiecesMean, NulFree, PiecesText, Blank;
    var ts := LexAll(u, bad);
    match d
    case NullDoc(ws) => WordReads(ws, NULL_TEXT, u, bad);
    case TrueDoc(ws) => WordReads(ws, TRUE_TEXT, u, bad);
    case FalseDoc(ws) => WordReads(ws, FALSE_TEXT, u, bad);
    case NumberDoc(ws, i, minusZero) => NumberReads(ws, i, minusZero, u, bad);
    case StringDoc(ws, ps) => StringReads(ws, ps, u, bad);
    assert LexAll(Spell(d, lf) + u, bad)[1..] == ts;
  }

  lemma {:induction false} EmptyReads(ws: Text, open: byte, inner: Text, close: byte, u: Text, bad: bool)
    requires Blank(ws) && Blank(inner) && IsPunct(open) && IsPunct(close)
    ensures LexAll(ws + ([open] + inner + [close]) + u, bad) == [Punct(open), Punct(close)] + LexAll(u, bad)
  {
    hide LexAll;
    assert ws + ([open] + inner + [close]) + u == ws + [open] + (inner + [close] + u);
    PunctReads(ws, open, inner + [close] + u, bad);
    PunctReads(inner, close, u, bad);
  }

  lemma {:induction false} ParseSpelled(d: Doc, u: Text, bad: bool, depth: nat, lf: LoadFlags)
    requires Fine(d, lf) && Closes(d, u) && depth + Nesting(d) <= MAX_DEPTH
    ensures ParseValue(LexAll(Spell(d, lf) + u, bad), depth, lf) == Ok(Meaning(d, lf), LexAll(u, bad))
    ensures Opens(LexAll(Spell(d, lf) + u, bad)[0])
    decreases d, 0
  {
    hide LexAll, ParseElems, ParseMembers, SpellElems, SpellPairs, Blank, PiecesMean, NulFree;
    var ts := LexAll(Spell(d, lf) + u, bad);
    match d
    case EmptyArrayDoc(ws, inner) => EmptyReads(ws, 91, inner, 93, u, bad);
    case EmptyObjectDoc(ws, inner) => EmptyReads(ws, 123, inner, 125, u, bad);
    case ArrayDoc(ws, es) =>
      var next := SpellElems(es, lf) + u;
      assert Spell(d, lf) + u == ws + [91] + next;
      PunctReads(ws, 91, next, bad);
      ElemsSpelled([], es, u, bad, depth + 1, lf);
      assert ts[1..] == LexAll(next, bad);
      assert [] + ElemValues(es, lf) == ElemValues(es, lf);
    case ObjectDoc(ws, ms) =>
      var next := SpellPairs(ms, {}, lf) + u;
      assert Spell(d, lf) + u == ws + [123] + next;
      PunctReads(ws, 123, next, bad);
      PairsSpelled([], ms, {}, u, bad, depth + 1, lf);
      assert ts[1..] == LexAll(next, bad);
    case _ => LeafReads(d, u, bad, depth, lf);
  }

  lemma {:induction false} ElemsSpelled(acc: seq<Value>, es: Elems, u: Text, bad: bool, depth: nat, lf: LoadFlags)
    requires FineElems(es, lf) && depth + ElemsNesting(es) <= MAX_DEPTH
    ensures ParseElems(acc, LexAll(SpellElems(es, lf) + u, bad), depth, lf) ==
      Ok(Array(acc + ElemValues(es, lf)), LexAll(u, bad))
    ensures Opens(LexAll(SpellElems(es, lf) + u, bad)[0])
    decreases es, 0
  {
    hide LexAll, ParseValue, Spell, Meaning, Blank, Closes, Fine, Nesting;
    match es
    case LastElem(d, ws) =>
      var next := ws + [93] + u;
      assert SpellElems(es, lf) + u == Spell(d, lf) + next;
      ClosedBy(d, ws, 93, u);
      ParseSpelled(d, next, bad, depth, lf);
      PunctReads(ws, 93, u, bad);
      assert LexAll(next, bad)[1..] == LexAll(u, bad);
    case MoreElems(d, ws, rest) =>
      var more := SpellElems(rest, lf) + u;
      var next := ws + [44] + more;
      assert SpellElems(es, lf) + u == Spell(d, lf) + next;
      ClosedBy(d, ws, 44, more);
      ParseSpelled(d, next, bad, depth, lf);
      PunctReads(ws, 44, more, bad);
      assert LexAll(next, bad)[1..] == LexAll(more, bad);
      ElemsSpelled(acc + [Meaning(d, lf)], rest, u, bad, depth, lf);
      assert acc + [Meaning(d, lf)] + ElemValues(rest, lf) == acc + ElemValues(es, lf);
  }

  /** `seen` are the keys collected so far. */
  ghost predicate Knows(acc: Members, seen: set<Text>) {
    forall k :: k in seen <==> Get(acc, k).Some?
  }

  lemma {:induction false} SetKnows(acc: Members, seen: set<Text>, key: Text, v: Value)
    requires Knows(acc, seen)
    ensures Knows(Set(acc, key, v), seen + {key})
  {
    forall k ensures k in seen + {key} <==> Get(Set(acc, key, v), k).Some? {
      GetAfterSet(acc, key, v, k);
      assert k in seen <==> Get(acc, k).Some?;
    }
  }

  lemma {:induction false} GetAfterSet(acc: Members, key: Text, v: Value, k: Text)
    ensures Get(Set(acc, key, v), k).Some? <==> k == key || Get(acc, k).Some?
  {
    hide Find;
    var i := Find(acc, key);
    var after := Set(acc, key, v);
    var j := Find(acc, k);
    var h := Find(after, k);
    if j < |acc| {
      assert after[j].0 == k;
    }
    if h < |after| && k != key {
      assert acc[h].0 == k;
    }
    if k == key {
      assert after[i].0 == k;
    }
  }

  /** What follows the value of the first pair. */
  function PairsTail(ms: Pairs, seen: set<Text>, lf: LoadFlags, u: Text): Text
    requires FinePairs(ms, seen, lf)
  {
    match ms
    case LastPair(_, _, _, _, ws) => ws + [125] + u
    case MorePairs(_, key, _, _, ws, rest) => ws + [44] + (SpellPairs(rest, seen + {PiecesMean(key)}, lf) + u)
  }

  lemma {:induction false} PairsText(ms: Pairs, seen: set<Text>, lf: LoadFlags, u: Text)
    requires FinePairs(ms, seen, lf)
    ensures SpellPairs(ms, seen, lf) + u ==
      ms.keyWs + ([34] + PiecesText(ms.key) + [34]) +
      (ms.colonWs + [58] + (Spell(ms.d, lf) + PairsTail(ms, seen, lf, u)))
  {
    hide PiecesText, Spell;
    var k, c, v := ms.keyWs + ([34] + PiecesText(ms.key) + [34]), ms.colonWs + [58], Spell(ms.d, lf);
    match ms
    case LastPair(_, _, _, _, ws) =>
      Regroup(k, c, v, ws + [125], u);
    case MorePairs(_, key, _, _, ws, rest) =>
      var r := SpellPairs(rest, seen + {PiecesMean(key)}, lf);
      hide SpellPairs;
      Regroup(k, c, v, ws + [44] + r, u);
      assert ws + [44] + r + u == ws + [44] + (r + u);
      assert SpellPairs(ms, seen, lf) == k + (c + v + (ws + [44] + r)) by {
        PairsUnfold(ms, seen, lf);
      }
  }

  lemma PairsUnfold(ms: Pairs, seen: set<Text>, lf: LoadFlags)
    requires FinePairs(ms, seen, lf) && ms.MorePairs?
    ensures SpellPairs(ms, seen, lf) == ms.keyWs + ([34] + PiecesText(ms.key) + [34]) + (ms.colonWs + [58] +
      Spell(ms.d, lf) + (ms.ws + [44] + SpellPairs(ms.rest, seen + {PiecesMean(ms.key)}, lf)))
  {
  }

  lemma Regroup(k: Text, c: Text, v: Text, w: Text, u: Text)
    ensures k + (c + v + w) + u == k + (c + (v + (w + u)))
  {
  }

  /** The tokens of the key and the colon. */
  lemma {:induction false} KeyReads(ms: Pairs, seen: set<Text>, lf: LoadFlags, u: Text, bad: bool)
    requires FinePairs(ms, seen, lf)
    ensures LexAll(SpellPairs(ms, seen, lf) + u, bad) ==
      [Str(PiecesMean(ms.key)), Punct(58)] + LexAll(Spell(ms.d, lf) + PairsTail(ms, seen, lf, u), bad)
  {
    hide LexAll, PiecesText, Spell, SpellPairs, PairsTail, Blank, Fine, PiecesMean, PiecesOk;
    var v := Spell(ms.d, lf) + PairsTail(ms, seen, lf, u);
    PairsText(ms, seen, lf, u);
    assert PiecesOk(ms.key);
    StringReads(ms.keyWs, ms.key, ms.colonWs + [58] + v, bad);
    PunctReads(ms.colonWs, 58, v, bad);
  }

  lemma {:induction false} PairsSpelled(acc: Members, ms: Pairs, seen: set<Text>, u: Text, bad: bool, depth: nat,
                                        lf: LoadFlags)
    requires FinePairs(ms, seen, lf) && Knows(acc, seen) && depth + PairsNesting(ms) <= MAX_DEPTH
    ensures ParseMembers(acc, LexAll(SpellPairs(ms, seen, lf) + u, bad), depth, lf) ==
      Ok(Object(Collected(acc, ms, seen, lf)), LexAll(u, bad))
    ensures Opens(LexAll(SpellPairs(ms, seen, lf) + u, bad)[0])
    decreases ms, 0
  {
    hide LexAll, ParseValue, Spell, SpellPairs, Meaning, Blank, Closes, Fine, Nesting, PiecesMean, NulFree, Set,
         Get, PiecesOk;
    var key := PiecesMean(ms.key);
    var ts := LexAll(SpellPairs(ms, seen, lf) + u, bad);
    var next := PairsTail(ms, seen, lf, u);
    var after := Set(acc, key, Meaning(ms.d, lf));
    KeyReads(ms, seen, lf, u, bad);
    SetKnows(acc, seen, key, Meaning(ms.d, lf));
    assert ts[0] == Str(key) && ts[1] == Punct(58) && ts[2..] == LexAll(Spell(ms.d, lf) + next, bad);
    match ms
    case LastPair(_, _, _, d, ws) =>
      ClosedBy(d, ws, 125, u);
      ParseSpelled(d, next, bad, depth, lf);
      PunctReads(ws, 125, u, bad);
      assert LexAll(next, bad)[1..] == LexAll(u, bad);
    case MorePairs(_, _, _, d, ws, rest) =>
      var more := SpellPairs(rest, seen + {key}, lf) + u;
      ClosedBy(d, ws, 44, more);
      ParseSpelled(d, next, bad, depth, lf);
      PunctReads(ws, 44, more, bad);
      assert LexAll(next, bad)[1..] == LexAll(more, bad);
      PairsSpelled(after, rest, seen + {key}, u, bad, depth, lf);
  }

  // ----- whatever is read is a document

  lemma {:induction false} LexedPunct(s: Text, bad: bool) returns (w: Text)
    requires Lex(s, bad).token.Punct?
    ensures Blank(w) && IsPunct(Lex(s, bad).token.c) && s == w + [Lex(s, bad).token.c] + Lex(s, bad).rest
  {
    hide SkipSpace, LexString, LexNumber, Blank;
    w := SkippedIsSpace(s);
    var t := SkipSpace(s);
    assert t != [];
    OnlyPuncts(t);
    assert t == [t[0]] + t[1..];
  }

  /** Strings, numbers and words are no punctuation. */
  lemma OnlyPuncts(t: Text)
    requires t != []
    ensures !LexString(t[1..]).token.Punct? && !LexWord(t).token.Punct?
    ensures IsDigit(t[0]) || t[0] == MINUS ==> !LexNumber(t).token.Punct?
  {
  }

  lemma {:induction false} LexedString(s: Text, bad: bool) returns (w: Text, ps: seq<Piece>)
    requires Valid(s) && Lex(s, bad).token.Str?
    ensures Blank(w) && PiecesOk(ps) && PiecesMean(ps) == Lex(s, bad).token.text
    ensures s == w + ([34] + PiecesText(ps) + [34]) + Lex(s, bad).rest
  {
    hide SkipSpace, LexNumber, Blank, Valid, Raw, Unescape, RawLength, PiecesText, PiecesMean, LexWord;
    w := SkippedIsSpace(s);
    var t := SkipSpace(s);
    assert t != [];
    OnlyStrings(t);
    SkipSpaceKeepsValid(s);
    assert t[..1] == [t[0]];
    ValidAfterAscii(t, 1);
    var body := t[1..];
    var n := RawLength(body).value;
    RawLengthIsRaw(body);
    ValidCut(body, n);
    ps := PiecesOf(body[..n]);
    assert t == [34] + PiecesText(ps) + [34] + body[n + 1..];
  }

  lemma OnlyStrings(t: Text)
    requires t != []
    ensures !LexWord(t).token.Str?
    ensures IsDigit(t[0]) || t[0] == MINUS ==> !LexNumber(t).token.Str?
  {
  }

  predicate IsWord(t: Token) {
    t.TrueToken? || t.FalseToken? || t.NullToken?
  }

  lemma OnlyWords(t: Text)
    requires t != []
    ensures !IsWord(LexString(t[1..]).token)
    ensures IsDigit(t[0]) || t[0] == MINUS ==> !IsWord(LexNumber(t).token)
  {
  }

  lemma {:induction false} FromWord(s: Text, bad: bool)
    requires IsWord(Lex(s, bad).token)
    ensures Lex(s, bad) == LexWord(SkipSpace(s))
  {
    hide SkipSpace, LexString, LexNumber, LexWord;
    var t := SkipSpace(s);
    assert t != [];
    OnlyWords(t);
  }

  lemma {:induction false} LexedWord(s: Text, bad: bool) returns (w: Text, word: Text)
    requires IsWord(Lex(s, bad).token)
    ensures
      var r := Lex(s, bad);
      && Blank(w) && s == w + word + r.rest && (r.rest == [] || !IsAlpha(r.rest[0]))
      && (r.token.TrueToken? ==> word == TRUE_TEXT)
      && (r.token.FalseToken? ==> word == FALSE_TEXT)
      && (r.token.NullToken? ==> word == NULL_TEXT)
  {
    hide SkipSpace, Blank, AlphaCount, Lex;
    FromWord(s, bad);
    w := SkippedIsSpace(s);
    var t := SkipSpace(s);
    var n := AlphaCount(t);
    word := t[..n];
    assert t == word + t[n..];
  }

  lemma {:induction false} NatTextOf(ds: Text)
    requires ds != [] && AllDigits(ds) && (|ds| > 1 ==> ds[0] != ZERO)
    ensures NatText(NatValue(ds)) == ds
    decreases |ds|
  {
    var init, last := ds[..|ds| - 1], ds[|ds| - 1];
    assert ds == init + [last];
    if init == [] {
      assert NatValue(init) == 0;
    } else {
      NatTextOf(init);
      NatIsPositive(init);
      assert NatValue(ds) / 10 == NatValue(init) && NatValue(ds) % 10 == last - 48;
    }
  }

  lemma {:induction false} NatIsPositive(ds: Text)
    requires ds != [] && AllDigits(ds) && ds[0] != ZERO
    ensures NatValue(ds) > 0
    decreases |ds|
  {
    if |ds| > 1 {
      NatIsPositive(ds[..|ds| - 1]);
    }
  }

  /** Sign and digits without a leading zero are what prints the integer, or
      minus zero. */
  lemma {:induction false} NumberTextOf(t: Text) returns (minusZero: bool)
    requires IsIntText(t)
    requires
      var ds := if t[0] == MINUS then t[1..] else t;
      ds != [] && (|ds| > 1 ==> ds[0] != ZERO)
    ensures (minusZero ==> IntValue(t) == 0) && NumberText(IntValue(t), minusZero) == t
  {
    hide NatText, NatValue;
    var ds := if t[0] == MINUS then t[1..] else t;
    NatTextOf(ds);
    var n := NatValue(ds);
    minusZero := t[0] == MINUS && n == 0;
    if t[0] == MINUS {
      assert t == [MINUS] + ds;
      if n == 0 {
        assert NatText(0) == [48] by { ZeroText(); }
      }
    }
  }

  lemma ZeroText()
    ensures NatText(0) == [48]
  {
  }

  lemma {:induction false} LexedInt(s: Text, bad: bool) returns (w: Text, minusZero: bool)
    requires Lex(s, bad).token.Int?
    ensures
      var r := Lex(s, bad);
      && Blank(w) && EndsNumber(r.rest) && INT_MIN <= r.token.i <= INT_MAX && (minusZero ==> r.token.i == 0)
      && s == w + NumberText(r.token.i, minusZero) + r.rest
  {
    hide SkipSpace, Blank, AlphaCount, RawLength, Unescape, IntValue, DigitCount, NumberText;
    w := SkippedIsSpace(s);
    var t := SkipSpace(s);
    assert t != [];
    var n := NumberLength(t);
    NumberIsDigits(t);
    WholeNumber(t);
    minusZero := NumberTextOf(t[..n]);
    assert t == t[..n] + t[n..];
  }

  lemma {:induction false} WholeNumber(t: Text)
    requires t != [] && NumberLength(t) > 0
    ensures
      var n := NumberLength(t);
      var ds := if t[0] == MINUS then t[..n][1..] else t[..n];
      ds != [] && (|ds| > 1 ==> ds[0] != ZERO) && EndsNumber(t[n..])
  {
    var i := if t[0] == MINUS then 1 else 0;
    var d := DigitCount(t[i..]);
    var n := NumberLength(t);
    assert t[i..] == t[i..][..d] + t[i..][d..];
    assert n == i + d && (n < |t| ==> t[n] == t[i..][d]);
  }

  lemma {:induction false} LeafOf(s: Text, bad: bool, depth: nat, lf: LoadFlags) returns (d: Doc)
    requires Valid(s) && ParseValue(LexAll(s, bad), depth, lf).Ok? && !Lex(s, bad).token.Punct?
    ensures Fine(d, lf) && !IsContainer(d) && Closes(d, Lex(s, bad).rest) && s == Spell(d, lf) + Lex(s, bad).rest
  {
    hide Lex, Blank, PiecesText, PiecesMean, IntText, ParseElems, ParseMembers, Valid, NulFree;
    var r := Lex(s, bad);
    match r.token
    case Str(_) =>
      var w, ps := LexedString(s, bad);
      d := StringDoc(w, ps);
    case Int(i) =>
      var w, minusZero := LexedInt(s, bad);
      d := NumberDoc(w, i, minusZero);
    case TrueToken =>
      var w, _ := LexedWord(s, bad);
      d := TrueDoc(w);
    case FalseToken =>
      var w, _ := LexedWord(s, bad);
      d := FalseDoc(w);
    case NullToken =>
      var w, _ := LexedWord(s, bad);
      d := NullDoc(w);
  }

  /** The text is the document and then u. */
  ghost predicate ReadAs(s: Text, depth: nat, lf: LoadFlags, d: Doc, u: Text) {
    && Fine(d, lf) && Closes(d, u) && depth + Nesting(d) <= MAX_DEPTH
    && s == Spell(d, lf) + u && Valid(u) && |u| < |s|
  }

  lemma {:induction false} DocOf(s: Text, bad: bool, depth: nat, lf: LoadFlags) returns (d: Doc, u: Text)
    requires Valid(s) && ParseValue(LexAll(s, bad), depth, lf).Ok?
    ensures ReadAs(s, depth, lf, d, u)
    decreases |s|, 0
  {
    hide Lex, Blank, ParseElems, ParseMembers, Valid, SpellElems, SpellPairs, NulFree, Closes;
    var r := Lex(s, bad);
    var ts := LexAll(s, bad);
    LexKeepsValid(s, bad);
    if !r.token.Punct? {
      d := LeafOf(s, bad, depth, lf);
      u := r.rest;
    } else {
      var w := LexedPunct(s, bad);
      var v := r.rest;
      var q := Lex(v, bad);
      assert ts[1..] == LexAll(v, bad);
      LexKeepsValid(v, bad);
      if q.token == Punct(CLOSE_BRACKET) && r.token == Punct(OPEN_BRACKET) {
        var inner := LexedPunct(v, bad);
        d, u := EmptyArrayDoc(w, inner), q.rest;
        assert s == w + ([91] + inner + [93]) + u;
      } else if q.token == Punct(CLOSE_BRACE) && r.token == Punct(OPEN_BRACE) {
        var inner := LexedPunct(v, bad);
        d, u := EmptyObjectDoc(w, inner), q.rest;
        assert s == w + ([123] + inner + [125]) + u;
      } else if r.token == Punct(OPEN_BRACKET) {
        var es;
        es, u := ElemsOf([], v, bad, depth + 1, lf);
        d := ArrayDoc(w, es);
        assert s == w + ([91] + SpellElems(es, lf)) + u;
      } else {
        var ms;
        ms, u := PairsOf([], {}, v, bad, depth + 1, lf);
        d := ObjectDoc(w, ms);
        assert s == w + ([123] + SpellPairs(ms, {}, lf)) + u;
      }
      assert Closes(d, u) by { ContainersClose(d, u); }
    }
  }

  lemma ContainersClose(d: Doc, u: Text)
    requires IsContainer(d)
    ensures Closes(d, u)
  {
  }

  lemma {:induction false} ElemsOf(acc: seq<Value>, s: Text, bad: bool, depth: nat, lf: LoadFlags)
    returns (es: Elems, u: Text)
    requires Valid(s) && ParseElems(acc, LexAll(s, bad), depth, lf).Ok?
    ensures FineElems(es, lf) && depth + ElemsNesting(es) <= MAX_DEPTH
    ensures s == SpellElems(es, lf) + u && Valid(u) && |u| < |s|
    decreases |s|, 1
  {
    hide Lex, Blank, ParseValue, Valid, Spell, Closes, Fine, Nesting, Meaning;
    var d, v := DocOf(s, bad, depth, lf);
    ParseSpelled(d, v, bad, depth, lf);
    LexKeepsValid(v, bad);
    var r := Lex(v, bad);
    var w := LexedPunct(v, bad);
    if r.token == Punct(COMMA) {
      var rest;
      assert LexAll(v, bad)[1..] == LexAll(r.rest, bad);
      rest, u := ElemsOf(acc + [Meaning(d, lf)], r.rest, bad, depth, lf);
      es := MoreElems(d, w, rest);
      assert s == Spell(d, lf) + (w + [44] + SpellElems(rest, lf)) + u;
    } else {
      es, u := LastElem(d, w), r.rest;
      assert s == Spell(d, lf) + (w + [93]) + u;
    }
  }

  lemma {:induction false} PairsOf(acc: Members, seen: set<Text>, s: Text, bad: bool, depth: nat, lf: LoadFlags)
    returns (ms: Pairs, u: Text)
    requires Valid(s) && Knows(acc, seen) && ParseMembers(acc, LexAll(s, bad), depth, lf).Ok?
    ensures FinePairs(ms, seen, lf) && depth + PairsNesting(ms) <= MAX_DEPTH
    ensures s == SpellPairs(ms, seen, lf) + u && Valid(u) && |u| < |s|
    decreases |s|, 1
  {
    hide Lex, Blank, ParseValue, Valid, Spell, Closes, Fine, Nesting, Meaning, SpellPairs, PiecesMean, PiecesText,
         NulFree, Get, Set, PiecesOk;
    var k := Lex(s, bad);
    var ts := LexAll(s, bad);
    LexKeepsValid(s, bad);
    var kw, ps := LexedString(s, bad);
    var c := Lex(k.rest, bad);
    LexKeepsValid(k.rest, bad);
    assert ts[1..] == LexAll(k.rest, bad);
    var cw := LexedPunct(k.rest, bad);
    assert ts[2..] == LexAll(c.rest, bad);
    var d, v := DocOf(c.rest, bad, depth, lf);
    ParseSpelled(d, v, bad, depth, lf);
    LexKeepsValid(v, bad);
    var r := Lex(v, bad);
    var w := LexedPunct(v, bad);
    var key := PiecesMean(ps);
    if r.token == Punct(COMMA) {
      var rest;
      assert LexAll(v, bad)[1..] == LexAll(r.rest, bad);
      SetKnows(acc, seen, key, Meaning(d, lf));
      rest, u := PairsOf(Set(acc, key, Meaning(d, lf)), seen + {key}, r.rest, bad, depth, lf);
      ms := MorePairs(kw, ps, cw, d, w, rest);
      assert v == PairsTail(ms, seen, lf, u);
    } else {
      ms, u := LastPair(kw, ps, cw, d, w), r.rest;
      assert v == PairsTail(ms, seen, lf, u);
    }
    PairsText(ms, seen, lf, u);
  }

  // ----- json_loads

  lemma {:induction false} BlankIsAscii(w: Text)
    requires Blank(w)
    ensures Valid(w)
  {
    AsciiIsValid(w);
  }

  lemma {:induction false} ValidAround(w: Text, open: byte, t: Text)
    requires Blank(w) && open < 0x80
    ensures Valid(w + [open] + t) <==> Valid(t)
  {
    hide Valid, Blank;
    BlankIsAscii(w);
    AsciiIsValid([open]);
    ValidConcat(w, [open]);
    ValidConcat(w + [open], t);
  }

  lemma {:induction false} PiecesAreValid(ps: seq<Piece>)
    requires PiecesOk(ps)
    ensures Valid(PiecesText(ps))
  {
    hide Valid, PieceText, PieceOk;
    if ps == [] {
      EmptyIsValid();
    } else {
      PieceIsValid(ps[0]);
      PiecesAreValid(ps[1..]);
      ValidConcat(PieceText(ps[0]), PiecesText(ps[1..]));
    }
  }

  lemma {:induction false} PieceIsValid(p: Piece)
    requires PieceOk(p)
    ensures Valid(PieceText(p))
  {
    hide Valid, Encode, HexByte;
    match p
    case Plain(cp) =>
      EmptyIsValid();
      ValidEncodedThen(cp, []);
      assert Encoded(cp) + [] == Encoded(cp);
    case Short(c) => AsciiIsValid([92, c]);
    case Code(q) =>
      QuadIsAscii(q);
      AsciiIsValid(QuadText(q));
    case Paired(h, l) =>
      QuadIsAscii(h);
      QuadIsAscii(l);
      AsciiIsValid(QuadText(h) + QuadText(l));
  }

  lemma QuadIsAscii(q: Quad)
    requires QuadOk(q)
    ensures AllAscii(QuadText(q))
  {
  }

  lemma {:induction false} LiteralIsValid(w: Text, ps: seq<Piece>)
    requires Blank(w) && PiecesOk(ps)
    ensures Valid(w + ([34] + PiecesText(ps) + [34]))
  {
    hide Valid, PiecesText, Blank;
    PiecesAreValid(ps);
    AsciiIsValid([34]);
    ValidConcat(PiecesText(ps), [34]);
    ValidAround(w, 34, PiecesText(ps) + [34]);
    assert w + ([34] + PiecesText(ps) + [34]) == w + [34] + (PiecesText(ps) + [34]);
  }

  lemma {:induction false} PlainSpelling(w: Text, t: Text)
    requires Blank(w) && AllAscii(t)
    ensures Valid(w + t)
  {
    hide Valid, Blank;
    BlankIsAscii(w);
    AsciiIsValid(t);
    ValidConcat(w, t);
  }

  lemma {:induction false} SpellIsValid(d: Doc, lf: LoadFlags)
    requires Fine(d, lf)
    ensures Valid(Spell(d, lf))
    decreases d
  {
    hide Valid, PiecesText, SpellElems, SpellPairs, IntText, NulFree, PiecesMean;
    match d
    case NullDoc(ws) => PlainSpelling(ws, NULL_TEXT);
    case TrueDoc(ws) => PlainSpelling(ws, TRUE_TEXT);
    case FalseDoc(ws) => PlainSpelling(ws, FALSE_TEXT);
    case NumberDoc(ws, i, minusZero) =>
      NumberIsAscii(i, minusZero);
      PlainSpelling(ws, NumberText(i, minusZero));
    case StringDoc(ws, ps) => LiteralIsValid(ws, ps);
    case EmptyArrayDoc(ws, inner) => PlainSpelling(ws, [91] + inner + [93]);
    case EmptyObjectDoc(ws, inner) => PlainSpelling(ws, [123] + inner + [125]);
    case ArrayDoc(ws, es) =>
      ElemsAreValid(es, lf);
      ValidAround(ws, 91, SpellElems(es, lf));
      assert ws + ([91] + SpellElems(es, lf)) == ws + [91] + SpellElems(es, lf);
    case ObjectDoc(ws, ms) =>
      PairsAreValid(ms, {}, lf);
      ValidAround(ws, 123, SpellPairs(ms, {}, lf));
      assert ws + ([123] + SpellPairs(ms, {}, lf)) == ws + [123] + SpellPairs(ms, {}, lf);
  }

  lemma NumberIsAscii(i: int, minusZero: bool)
    ensures AllAscii(NumberText(i, minusZero))
  {
  }

  lemma {:induction false} ElemsAreValid(es: Elems, lf: LoadFlags)
    requires FineElems(es, lf)
    ensures Valid(SpellElems(es, lf))
    decreases es
  {
    hide Valid, Spell, Blank, Fine;
    SpellIsValid(es.d, lf);
    EmptyIsValid();
    match es
    case LastElem(d, ws) =>
      ValidAround(ws, 93, []);
      assert ws + [93] + [] == ws + [93];
      ValidConcat(Spell(d, lf), ws + [93]);
    case MoreElems(d, ws, rest) =>
      ElemsAreValid(rest, lf);
      ValidAround(ws, 44, SpellElems(rest, lf));
      ValidConcat(Spell(d, lf), ws + [44] + SpellElems(rest, lf));
  }

  lemma {:induction false} PairsAreValid(ms: Pairs, seen: set<Text>, lf: LoadFlags)
    requires FinePairs(ms, seen, lf)
    ensures Valid(SpellPairs(ms, seen, lf))
    decreases ms
  {
    hide Valid, Spell, Blank, Fine, SpellPairs, PiecesText, NulFree;
    SpellIsValid(ms.d, lf);
    LiteralIsValid(ms.keyWs, ms.key);
    EmptyIsValid();
    var tail := PairsTail(ms, seen, lf, []);
    assert Valid(tail) by {
      match ms
      case LastPair(_, _, _, _, ws) =>
        ValidAround(ws, 125, []);
      case MorePairs(_, key, _, _, ws, rest) =>
        PairsAreValid(rest, seen + {PiecesMean(key)}, lf);
        var more := SpellPairs(rest, seen + {PiecesMean(key)}, lf);
        assert more + [] == more;
        ValidAround(ws, 44, more);
    }
    hide PairsTail, PiecesMean;
    var v := Spell(ms.d, lf) + tail;
    ValidConcat(Spell(ms.d, lf), tail);
    ValidAround(ms.colonWs, 58, v);
    PairsText(ms, seen, lf, []);
    ValidConcat(ms.keyWs + ([34] + PiecesText(ms.key) + [34]), ms.colonWs + [58] + v);
    assert SpellPairs(ms, seen, lf) + [] == SpellPairs(ms, seen, lf);
  }

  lemma {:induction false} DecodableAfter(a: Text, b: Text)
    requires Valid(a)
    ensures Decodable(a + b) == |a| + Decodable(b)
    decreases |a|
  {
    hide Iterate;
    if a == [] {
      assert a + b == b;
    } else {
      var n := Iterate(a).value.length;
      IterateIgnoresTail(a, b);
      DecodableAfter(a[n..], b);
      assert (a + b)[n..] == a[n..] + b;
    }
  }

  lemma {:induction false} BlankIsEof(w: Text, bad: bool)
    ensures LexAll(w, bad)[0].Eof? <==> Blank(w) && !bad
  {
    hide LexString, LexNumber, LexWord;
    if Blank(w) {
      SkipsSpace(w, []);
      assert w + [] == w;
    }
    var v := SkippedIsSpace(w);
    NeverEof(SkipSpace(w));
    if SkipSpace(w) == [] {
      assert w == v;
    }
  }

  lemma NeverEof(t: Text)
    ensures t != [] ==> !LexString(t[1..]).token.Eof? && !LexWord(t).token.Eof?
    ensures t != [] && (IsDigit(t[0]) || t[0] == MINUS) ==> !LexNumber(t).token.Eof?
  {
  }

  lemma {:induction false} UndecodableIsHigh(s: Text)
    requires Decodable(s) < |s|
    ensures s[Decodable(s)] >= 0x80
    decreases |s|
  {
    if Iterate(s).Some? {
      UndecodableIsHigh(s[Iterate(s).value.length..]);
    }
  }

  /** Exactly the containers begin with a bracket or a brace. */
  lemma {:induction false} HeadIs(d: Doc, u: Text, bad: bool, lf: LoadFlags)
    requires Fine(d, lf) && Closes(d, u)
    ensures
      var t := LexAll(Spell(d, lf) + u, bad)[0];
      t == Punct(OPEN_BRACKET) || t == Punct(OPEN_BRACE) <==> IsContainer(d)
  {
    hide LexAll, SpellElems, SpellPairs, Blank, PiecesMean, NulFree, PiecesText;
    match d
    case NullDoc(ws) => WordReads(ws, NULL_TEXT, u, bad);
    case TrueDoc(ws) => WordReads(ws, TRUE_TEXT, u, bad);
    case FalseDoc(ws) => WordReads(ws, FALSE_TEXT, u, bad);
    case NumberDoc(ws, i, minusZero) => NumberReads(ws, i, minusZero, u, bad);
    case StringDoc(ws, ps) => StringReads(ws, ps, u, bad);
    case EmptyArrayDoc(ws, inner) => EmptyReads(ws, 91, inner, 93, u, bad);
    case EmptyObjectDoc(ws, inner) => EmptyReads(ws, 123, inner, 125, u, bad);
    case ArrayDoc(ws, es) =>
      var next := SpellElems(es, lf) + u;
      assert Spell(d, lf) + u == ws + [91] + next;
      PunctReads(ws, 91, next, bad);
    case ObjectDoc(ws, ms) =>
      var next := SpellPairs(ms, {}, lf) + u;
      assert Spell(d, lf) + u == ws + [123] + next;
      PunctReads(ws, 123, next, bad);
  }

  lemma {:induction false} WrittenIsLoaded(s: Text, d: Doc, tail: Text, lf: LoadFlags)
    requires Writes(s, d, tail, lf)
    ensures Loads(s, lf) == Some(Meaning(d, lf))
  {
    hide Valid, LexAll, ParseValue, Spell, Meaning, Fine, Nesting, Closes, IsContainer;
    var t, m := Spell(d, lf), Decodable(tail);
    SpellIsValid(d, lf);
    DecodableAfter(t, tail);
    var u, bad := tail[..m], m < |tail|;
    assert s[..|t| + m] == t + u;
    if Blank(tail) {
      BlankIsAscii(tail);
      ValidIsDecodable(tail);
      BlankIsEof(tail, false);
      assert u == tail;
    }
    assert Closes(d, u) by {
      ClosesPrefix(d, tail, m);
    }
    ParseSpelled(d, u, bad, 0, lf);
    HeadIs(d, u, bad, lf);
  }

  lemma ClosesPrefix(d: Doc, tail: Text, m: nat)
    requires m <= |tail| && (Closes(d, tail) || Blank(tail))
    ensures Closes(d, tail[..m])
  {
  }

  lemma {:induction false} LoadedIsWritten(s: Text, lf: LoadFlags) returns (d: Doc, tail: Text)
    requires Loads(s, lf).Some?
    ensures Writes(s, d, tail, lf) && Loads(s, lf) == Some(Meaning(d, lf))
  {
    hide Valid, LexAll, ParseValue, Spell, Meaning, Fine, Nesting, Closes, IsContainer, Blank;
    var n := Decodable(s);
    var bad := n < |s|;
    DecodableIsValid(s);
    var u;
    d, u := DocOf(s[..n], bad, 0, lf);
    ParseSpelled(d, u, bad, 0, lf);
    HeadIs(d, u, bad, lf);
    BlankIsEof(u, bad);
    tail := u + s[n..];
    assert s == s[..n] + s[n..] == Spell(d, lf) + tail;
    if lf.disableEofCheck {
      ClosesBeyond(s, d, u, lf);
    } else {
      assert s[n..] == [] && tail == u;
    }
  }

  lemma {:induction false} ClosesBeyond(s: Text, d: Doc, u: Text, lf: LoadFlags)
    requires Closes(d, u)
    ensures Closes(d, u + s[Decodable(s)..])
  {
    var rest := s[Decodable(s)..];
    if rest != [] {
      UndecodableIsHigh(s);
    }
    if u == [] {
      assert u + rest == rest;
    } else {
      assert (u + rest)[0] == u[0];
    }
  }

  /** json_loads gives v exactly when the text is a document that stands for v,
      with any spacing and any spelling of its strings, nested no deeper than
      allowed and followed by nothing but white space unless told to ignore it. */
  lemma {:induction false} LoadsIffDenotes(s: Text, lf: LoadFlags, v: Value)
    ensures Loads(s, lf) == Some(v) <==> Denotes(s, v, lf)
  {
    hide Loads, Meaning, Fine, Spell, Closes, Blank, Nesting, IsContainer;
    if Loads(s, lf) == Some(v) {
      var d, tail := LoadedIsWritten(s, lf);
      assert Writes(s, d, tail, lf) && Meaning(d, lf) == v;
    }
    if Denotes(s, v, lf) {
      var d, tail :| Writes(s, d, tail, lf) && Meaning(d, lf) == v;
      WrittenIsLoaded(s, d, tail, lf);
    }
  }
}
