/** JSON text (sections 2 to 6 of RFC 8259, numbers without fraction and
    exponent): a document with all its spacing and spelling, the text it is and
    the value it stands for. */
module JsonGrammar {
  import opened OrderedMap
  import opened Bytes
  import opened Utf8
  import opened JsonStrings
  import opened JsonValues
  import opened JsonTokens
  import opened JsonDump
  import opened JsonParse
  import opened JsonSpelling

  /** `ws` is the white space in front; that in front of a comma, a colon or a
      closing bracket stands beside it. */
  datatype Doc =
    | NullDoc(ws: Text)
    | TrueDoc(ws: Text)
    | FalseDoc(ws: Text)
    | NumberDoc(ws: Text, i: int, minusZero: bool)
    | StringDoc(ws: Text, ps: seq<Piece>)
    | EmptyArrayDoc(ws: Text, inner: Text)
    | ArrayDoc(ws: Text, es: Elems)
    | EmptyObjectDoc(ws: Text, inner: Text)
    | ObjectDoc(ws: Text, ms: Pairs)

  datatype Elems =
    | LastElem(d: Doc, ws: Text)
    | MoreElems(d: Doc, ws: Text, rest: Elems)

  datatype Pairs =
    | LastPair(keyWs: Text, key: seq<Piece>, colonWs: Text, d: Doc, ws: Text)
    | MorePairs(keyWs: Text, key: seq<Piece>, colonWs: Text, d: Doc, ws: Text, rest: Pairs)

  /** Space, tab, newline and return. */
  predicate Blank(w: Text) {
    forall i :: 0 <= i < |w| ==> w[i] == 32 || w[i] == 9 || w[i] == 10 || w[i] == 13
  }

  // ----- well-formed documents

  predicate Fine(d: Doc, lf: LoadFlags) {
    && Blank(d.ws)
    && match d
       case NumberDoc(_, i, minusZero) =>
         -0x8000_0000_0000_0000 <= i <= 0x7FFF_FFFF_FFFF_FFFF && (minusZero ==> i == 0)
       case StringDoc(_, ps) => PiecesOk(ps) && (lf.allowNul || NulFree(PiecesMean(ps)))
       case EmptyArrayDoc(_, inner) => Blank(inner)
       case EmptyObjectDoc(_, inner) => Blank(inner)
       case ArrayDoc(_, es) => FineElems(es, lf)
       case ObjectDoc(_, ms) => FinePairs(ms, {}, lf)
       case _ => true
  }

  predicate FineElems(es: Elems, lf: LoadFlags) {
    Fine(es.d, lf) && Blank(es.ws) && (es.MoreElems? ==> FineElems(es.rest, lf))
  }

  /** Keys hold no NUL, and are new if duplicates are to be refused; `seen` are
      the keys before these. */
  predicate FinePairs(ms: Pairs, seen: set<Text>, lf: LoadFlags) {
    && Blank(ms.keyWs) && Blank(ms.colonWs) && Blank(ms.ws)
    && PiecesOk(ms.key) && NulFree(PiecesMean(ms.key))
    && (lf.rejectDuplicates ==> PiecesMean(ms.key) !in seen)
    && Fine(ms.d, lf)
    && (ms.MorePairs? ==> FinePairs(ms.rest, seen + {PiecesMean(ms.key)}, lf))
  }

  // ----- what a document is as text

  function Spell(d: Doc, lf: LoadFlags): Text
    requires Fine(d, lf)
  {
    match d
    case NullDoc(ws) => ws + [110, 117, 108, 108]
    case TrueDoc(ws) => ws + [116, 114, 117, 101]
    case FalseDoc(ws) => ws + [102, 97, 108, 115, 101]
    case NumberDoc(ws, i, minusZero) => ws + (if minusZero then [45, 48] else IntText(i))
    case StringDoc(ws, ps) => ws + ([34] + PiecesText(ps) + [34])
    case EmptyArrayDoc(ws, inner) => ws + ([91] + inner + [93])
    case EmptyObjectDoc(ws, inner) => ws + ([123] + inner + [125])
    case ArrayDoc(ws, es) => ws + ([91] + SpellElems(es, lf))
    case ObjectDoc(ws, ms) => ws + ([123] + SpellPairs(ms, {}, lf))
  }

  function SpellElems(es: Elems, lf: LoadFlags): Text
    requires FineElems(es, lf)
  {
    match es
    case LastElem(d, ws) => Spell(d, lf) + (ws + [93])
    case MoreElems(d, ws, rest) => Spell(d, lf) + (ws + [44] + SpellElems(rest, lf))
  }

  function SpellPairs(ms: Pairs, seen: set<Text>, lf: LoadFlags): Text
    requires FinePairs(ms, seen, lf)
  {
    ms.keyWs + ([34] + PiecesText(ms.key) + [34]) + (ms.colonWs + [58] + Spell(ms.d, lf) +
      match ms
      case LastPair(_, _, _, _, ws) => ws + [125]
      case MorePairs(_, key, _, _, ws, rest) => ws + [44] + SpellPairs(rest, seen + {PiecesMean(key)}, lf))
  }

  // ----- what it stands for

  function Meaning(d: Doc, lf: LoadFlags): Value
    requires Fine(d, lf)
    decreases d
  {
    match d
    case NullDoc(_) => Null
    case TrueDoc(_) => True
    case FalseDoc(_) => False
    case NumberDoc(_, i, _) => Integer(i)
    case StringDoc(_, ps) => String(PiecesMean(ps))
    case EmptyArrayDoc(_, _) => Array([])
    case EmptyObjectDoc(_, _) => Object([])
    case ArrayDoc(_, es) => Array(ElemValues(es, lf))
    case ObjectDoc(_, ms) => Object(Collected([], ms, {}, lf))
  }

  function ElemValues(es: Elems, lf: LoadFlags): seq<Value>
    requires FineElems(es, lf)
    decreases es
  {
    match es
    case LastElem(d, _) => [Meaning(d, lf)]
    case MoreElems(d, _, rest) => [Meaning(d, lf)] + ElemValues(rest, lf)
  }

  /** A repeated key keeps its place and takes the later value. */
  function Collected(acc: Members, ms: Pairs, seen: set<Text>, lf: LoadFlags): Members
    requires FinePairs(ms, seen, lf)
    decreases ms
  {
    var key := PiecesMean(ms.key);
    var after := Set(acc, key, Meaning(ms.d, lf));
    match ms
    case LastPair(_, _, _, _, _) => after
    case MorePairs(_, _, _, _, _, rest) => Collected(after, rest, seen + {key}, lf)
  }

  function Nesting(d: Doc): nat {
    match d
    case ArrayDoc(_, es) => 1 + ElemsNesting(es)
    case ObjectDoc(_, ms) => 1 + PairsNesting(ms)
    case _ => 1
  }

  function ElemsNesting(es: Elems): nat {
    match es
    case LastElem(d, _) => Nesting(d)
    case MoreElems(d, _, rest) => Max(Nesting(d), ElemsNesting(rest))
  }

  function PairsNesting(ms: Pairs): nat {
    match ms
    case LastPair(_, _, _, d, _) => Nesting(d)
    case MorePairs(_, _, _, d, _, rest) => Max(Nesting(d), PairsNesting(rest))
  }

  /** What may follow a document without becoming part of it: no more letters
      after a word; no digit, point or exponent after a number. */
  predicate Closes(d: Doc, u: Text) {
    match d
    case NullDoc(_) => u == [] || !IsAlpha(u[0])
    case TrueDoc(_) => u == [] || !IsAlpha(u[0])
    case FalseDoc(_) => u == [] || !IsAlpha(u[0])
    case NumberDoc(_, _, _) => u == [] || !(48 <= u[0] <= 57 || u[0] == 46 || u[0] == 69 || u[0] == 101)
    case _ => true
  }

  predicate IsContainer(d: Doc) {
    d.EmptyArrayDoc? || d.ArrayDoc? || d.EmptyObjectDoc? || d.ObjectDoc?
  }

  /** The text is a document, nested at most 2048 deep, and then only white
      space, or anything at all if the flags say not to look. */
  predicate Writes(s: Text, d: Doc, tail: Text, lf: LoadFlags) {
    && Fine(d, lf) && s == Spell(d, lf) + tail && Nesting(d) <= 2048
    && (lf.decodeAny || IsContainer(d))
    && (if lf.disableEofCheck then Closes(d, tail) else Blank(tail))
  }

  ghost predicate Denotes(s: Text, v: Value, lf: LoadFlags) {
    exists d, tail :: Writes(s, d, tail, lf) && Meaning(d, lf) == v
  }

  // ----- one token

  lemma {:induction false} SkipsSpace(w: Text, t: Text)
    requires Blank(w) && (t == [] || !IsSpace(t[0]))
    ensures SkipSpace(w + t) == t
  {
    if w == [] {
      assert w + t == t;
    } else {
      assert (w + t)[1..] == w[1..] + t;
      SkipsSpace(w[1..], t);
    }
  }

  lemma {:induction false} SkippedIsSpace(s: Text) returns (w: Text)
    ensures Blank(w) && s == w + SkipSpace(s)
    decreases |s|
  {
    if s == [] || !IsSpace(s[0]) {
      w := [];
    } else {
      var v := SkippedIsSpace(s[1..]);
      w := [s[0]] + v;
    }
  }

  lemma {:induction false} LexSkips(w: Text, t: Text, bad: bool)
    requires Blank(w) && t != [] && !IsSpace(t[0])
    ensures Lex(w + t, bad) == Lex(t, bad)
  {
    hide SkipSpace, LexString, LexNumber, LexWord;
    SkipsSpace(w, t);
    SkipsSpace([], t);
    assert [] + t == t;
  }

  lemma {:induction false} LexAllFrom(s: Text, bad: bool, tok: Token, u: Text)
    requires Lex(s, bad) == Lexed(tok, u) && !tok.Eof? && !tok.Invalid?
    ensures LexAll(s, bad) == [tok] + LexAll(u, bad)
  {
    hide Lex;
  }

  lemma {:induction false} PunctReads(w: Text, c: byte, u: Text, bad: bool)
    requires Blank(w) && IsPunct(c)
    ensures LexAll(w + [c] + u, bad) == [Punct(c)] + LexAll(u, bad)
  {
    hide LexString, LexNumber, LexWord, LexAll;
    var t := [c] + u;
    assert w + [c] + u == w + t && t[1..] == u;
    LexSkips(w, t, bad);
    SkipsSpace([], t);
    assert [] + t == t;
    LexAllFrom(w + t, bad, Punct(c), u);
  }

  lemma {:induction false} StringReads(w: Text, ps: seq<Piece>, u: Text, bad: bool)
    requires Blank(w) && PiecesOk(ps)
    ensures LexAll(w + ([34] + PiecesText(ps) + [34]) + u, bad) == [Str(PiecesMean(ps))] + LexAll(u, bad)
  {
    hide LexNumber, LexWord, LexAll, Raw, Unescape, RawLength, PiecesText, PiecesMean;
    var raw := PiecesText(ps);
    var body := raw + [34] + u;
    var t := [34] + body;
    assert w + ([34] + raw + [34]) + u == w + t && t[1..] == body;
    PiecesRead(ps);
    RawThenQuote(raw, u);
    assert body[..|raw|] == raw && body[|raw| + 1..] == u;
    LexSkips(w, t, bad);
    SkipsSpace([], t);
    assert [] + t == t;
    LexAllFrom(w + t, bad, Str(PiecesMean(ps)), u);
  }

  lemma {:induction false} WordReads(w: Text, word: Text, u: Text, bad: bool)
    requires Blank(w) && (word == TRUE_TEXT || word == FALSE_TEXT || word == NULL_TEXT)
    requires u == [] || !IsAlpha(u[0])
    ensures LexAll(w + word + u, bad) ==
      [if word == TRUE_TEXT then TrueToken else if word == FALSE_TEXT then FalseToken else NullToken] + LexAll(u, bad)
  {
    hide LexNumber, LexString, LexAll, AlphaCount;
    var t := word + u;
    assert w + word + u == w + t && t[0] == word[0];
    AlphaCountOf(word, u);
    assert t[..|word|] == word && t[|word|..] == u;
    LexSkips(w, t, bad);
    SkipsSpace([], t);
    assert [] + t == t;
    LexAllFrom(w + t, bad, Lex(t, bad).token, u);
  }

  predicate EndsNumber(u: Text) {
    u == [] || !(48 <= u[0] <= 57 || u[0] == 46 || u[0] == 69 || u[0] == 101)
  }

  lemma {:induction false} LongNumber(sign: Text, ds: Text, u: Text)
    requires sign == [] || sign == [MINUS]
    requires ds != [] && AllDigits(ds) && (|ds| > 1 ==> ds[0] != ZERO) && EndsNumber(u)
    ensures NumberLength(sign + ds + u) == |sign + ds|
  {
    var s := sign + ds + u;
    DigitCountOf(ds, u);
    assert s[|sign|..] == ds + u;
    assert s[|sign|] == ds[0];
    assert u != [] ==> s[|sign| + |ds|] == u[0];
  }

  /** The sign and digits of an integer; zero may carry a minus. */
  function NumberText(i: int, minusZero: bool): (t: Text)
    ensures t != []
  {
    if minusZero then [45, 48] else IntText(i)
  }

  lemma {:induction false} NumberParts(i: int, minusZero: bool) returns (sign: Text, ds: Text)
    requires minusZero ==> i == 0
    ensures (sign == [] || sign == [MINUS]) && NumberText(i, minusZero) == sign + ds
    ensures ds != [] && AllDigits(ds) && (|ds| > 1 ==> ds[0] != ZERO)
    ensures IsIntText(sign + ds) && IntValue(sign + ds) == i
  {
    hide NatText;
    sign := if minusZero || i < 0 then [MINUS] else [];
    ds := if minusZero then [48] else NatText(if i < 0 then -i else i);
    var t := sign + ds;
    assert t[|sign|..] == ds;
    if minusZero {
      assert ds[..0] == [] && NatValue(ds) == 0;
    }
    assert sign == [] ==> t == ds && t[0] == ds[0] != MINUS;
    assert sign == [MINUS] ==> t[0] == MINUS && t[1..] == ds;
  }

  lemma {:induction false} NumberReads(w: Text, i: int, minusZero: bool, u: Text, bad: bool)
    requires Blank(w) && INT_MIN <= i <= INT_MAX && (minusZero ==> i == 0) && EndsNumber(u)
    ensures LexAll(w + NumberText(i, minusZero) + u, bad) == [Int(i)] + LexAll(u, bad)
  {
    hide LexWord, LexString, LexAll, NumberText, NumberLength, IntValue;
    var sign, ds := NumberParts(i, minusZero);
    var n := sign + ds;
    var t := n + u;
    assert w + n + u == w + t && t[0] == n[0];
    LongNumber(sign, ds, u);
    assert t[..|n|] == n && t[|n|..] == u;
    LexSkips(w, t, bad);
    SkipsSpace([], t);
    assert [] + t == t;
    LexAllFrom(w + t, bad, Int(i), u);
  }

  function Power10(k: nat): (p: nat)
    ensures p > 0
  {
    if k == 0 then 1 else 10 * Power10(k - 1)
  }

  /** The digits of a number are its decimal digits, the last the least. */
  lemma {:induction false} DigitsAreDecimal(n: nat, k: nat)
    requires k < |NatText(n)|
    ensures NatText(n)[|NatText(n)| - 1 - k] == 48 + n / Power10(k) % 10
    decreases k
  {
    var ds := NatText(n);
    if k > 0 {
      DigitsAreDecimal(n / 10, k - 1);
      assert ds[|ds| - 1 - k] == NatText(n / 10)[|ds| - 2 - (k - 1)];
      DivideTwice(n, Power10(k - 1));
    }
  }

  lemma {:induction false} DivideTwice(n: nat, p: nat)
    requires p > 0
    ensures n / 10 / p == n / (10 * p)
  {
    var q := n / 10 / p;
    var r := n / 10 % p;
    assert n / 10 == q * p + r;
    assert n == q * (10 * p) + (10 * r + n % 10);
    assert 10 * r + n % 10 < 10 * p;
    Quotient(n, 10 * p, q, 10 * r + n % 10);
  }

  lemma {:induction false} Quotient(n: nat, p: nat, q: nat, r: nat)
    requires p > 0 && r < p && n == q * p + r
    ensures n / p == q
  {
    var d := n / p - q;
    assert n == n / p * p + n % p;
    assert d * p == r - n % p;
    assert (d > 0 ==> d * p >= p) && (d < 0 ==> d * p <= 0 - p as int);
  }

  // ----- the first token of a document

  predicate Opens(t: Token) {
    t != Punct(93) && t != Punct(125) && !t.Eof? && !t.Invalid?
  }
}
