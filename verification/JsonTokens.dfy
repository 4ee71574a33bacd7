/** From bytes to tokens (sections 2, 3, 6 and 7 of RFC 8259), without reals. */
module JsonTokens {
  import opened Bytes
  import opened Utf8
  import opened JsonStrings

  const MINUS: byte := 45
  const DOT: byte := 46
  const ZERO: byte := 48
  const COMMA: byte := 44
  const COLON: byte := 58
  const OPEN_BRACKET: byte := 91
  const CLOSE_BRACKET: byte := 93
  const OPEN_BRACE: byte := 123
  const CLOSE_BRACE: byte := 125

  const INT_MAX: int := 0x7FFF_FFFF_FFFF_FFFF
  const INT_MIN: int := -0x8000_0000_0000_0000

  datatype Token =
    | Punct(c: byte)
    | Str(text: Text)
    | Int(i: int)
    | TrueToken
    | FalseToken
    | NullToken
    | Invalid
    | Eof

  datatype Lexed = Lexed(token: Token, rest: Text)

  predicate IsSpace(c: byte) { c == 32 || c == 9 || c == 10 || c == 13 }

  predicate IsPunct(c: byte) {
    c == OPEN_BRACE || c == CLOSE_BRACE || c == OPEN_BRACKET || c == CLOSE_BRACKET || c == COLON || c == COMMA
  }

  function SkipSpace(s: Text): (r: Text)
    ensures |r| <= |s|
    ensures r != [] ==> !IsSpace(r[0])
  {
    if s == [] || !IsSpace(s[0]) then s else SkipSpace(s[1..])
  }

  function DigitCount(s: Text): (n: nat)
    ensures n <= |s|
    ensures forall i :: 0 <= i < n ==> IsDigit(s[i])
    ensures n < |s| ==> !IsDigit(s[n])
  {
    if s == [] || !IsDigit(s[0]) then 0 else 1 + DigitCount(s[1..])
  }

  function AlphaCount(s: Text): (n: nat)
    ensures n <= |s|
    ensures forall i :: 0 <= i < n ==> IsAlpha(s[i])
    ensures n < |s| ==> !IsAlpha(s[n])
  {
    if s == [] || !IsAlpha(s[0]) then 0 else 1 + AlphaCount(s[1..])
  }

  // ----- integers

  predicate AllDigits(ds: Text) {
    forall i :: 0 <= i < |ds| ==> IsDigit(ds[i])
  }

  function NatValue(ds: Text): (n: nat)
    requires AllDigits(ds)
  {
    if ds == [] then 0 else NatValue(ds[..|ds| - 1]) * 10 + (ds[|ds| - 1] - 48)
  }

  predicate IsIntText(t: Text) {
    t != [] && AllDigits(if t[0] == MINUS then t[1..] else t)
  }

  /** strtoll without its range check. */
  function IntValue(t: Text): int
    requires IsIntText(t)
  {
    if t[0] == MINUS then 0 - NatValue(t[1..]) as int else NatValue(t) as int
  }

  /** The length of the sign and digits at the start of s, 0 if there are no
      digits or a leading zero. */
  function IntegerLength(s: Text): (n: nat)
    requires s != []
    ensures n <= |s|
  {
    var i := if s[0] == MINUS then 1 else 0;
    var d := DigitCount(s[i..]);
    if d == 0 || (d > 1 && s[i] == ZERO) then 0 else i + d
  }

  /** The length of the number at the start of s that lex_scan_number takes for
      an integer, 0 if it is malformed or a real. */
  function NumberLength(s: Text): (n: nat)
    requires s != []
    ensures n <= |s|
  {
    var n := IntegerLength(s);
    if n < |s| && (s[n] == DOT || s[n] == 69 || s[n] == 101) then 0 else n
  }

  function LexNumber(s: Text): Lexed
    requires s != [] && (IsDigit(s[0]) || s[0] == MINUS)
  {
    var n := NumberLength(s);
    if n == 0 then Lexed(Invalid, [])
    else
      NumberIsDigits(s);
      var v := IntValue(s[..n]);
      if INT_MIN <= v <= INT_MAX then Lexed(Int(v), s[n..]) else Lexed(Invalid, [])
  }

  lemma {:induction false} NumberIsDigits(s: Text)
    requires s != [] && IntegerLength(s) > 0
    ensures IsIntText(s[..IntegerLength(s)])
  {
    var n := IntegerLength(s);
    var t := s[..n];
    if s[0] == MINUS {
      var ds := s[1..];
      assert forall i :: 0 <= i < |t[1..]| ==> t[1..][i] == ds[i];
    } else {
      assert s[0..] == s;
    }
  }

  // ----- words and strings

  const TRUE_TEXT: Text := [116, 114, 117, 101]
  const FALSE_TEXT: Text := [102, 97, 108, 115, 101]
  const NULL_TEXT: Text := [110, 117, 108, 108]

  function LexWord(s: Text): Lexed {
    var n := AlphaCount(s);
    Lexed(if s[..n] == TRUE_TEXT then TrueToken
          else if s[..n] == FALSE_TEXT then FalseToken
          else if s[..n] == NULL_TEXT then NullToken
          else Invalid, s[n..])
  }

  /** s starts after the opening quote. */
  function LexString(s: Text): Lexed {
    match RawLength(s)
    case None => Lexed(Invalid, [])
    case Some(n) =>
      RawLengthIsRaw(s);
      match Unescape(s[..n])
      case None => Lexed(Invalid, [])
      case Some(text) => Lexed(Str(text), s[n + 1..])
  }

  /** lex_scan on the rest of the decodable text; `bad` says whether an
      undecodable byte follows it rather than the end of input. */
  function Lex(s: Text, bad: bool): (r: Lexed)
    ensures |r.rest| <= |s|
    ensures r.token.Eof? || r.token.Invalid? || |r.rest| < |s|
  {
    var t := SkipSpace(s);
    if t == [] then Lexed(if bad then Invalid else Eof, [])
    else if IsPunct(t[0]) then Lexed(Punct(t[0]), t[1..])
    else if t[0] == QUOTE then LexString(t[1..])
    else if IsDigit(t[0]) || t[0] == MINUS then LexNumber(t)
    else if IsAlpha(t[0]) then LexWord(t)
    else Lexed(Invalid, [])
  }

  /** The tokens up to the end of input or the first invalid one. */
  function LexAll(s: Text, bad: bool): (ts: seq<Token>)
    ensures ts != []
    decreases |s|
  {
    var r := Lex(s, bad);
    if r.token.Eof? || r.token.Invalid? then [r.token] else [r.token] + LexAll(r.rest, bad)
  }

  // ----- printing integers

  function NatText(n: nat): (ds: Text)
    ensures ds != [] && AllDigits(ds)
    ensures NatValue(ds) == n
    ensures n > 0 ==> ds[0] != ZERO
    ensures n == 0 ==> |ds| == 1
  {
    if n < 10 then
      var ds: Text := [48 + n];
      assert ds[..0] == [];
      ds
    else
      var ds := NatText(n / 10) + [48 + n % 10];
      assert ds[..|ds| - 1] == NatText(n / 10);
      ds
  }

  /** "%lld". */
  function IntText(i: int): (t: Text)
    ensures t != []
  {
    if i < 0 then [MINUS] + NatText(-i) else NatText(i)
  }

  /** Nothing that would continue a number or a word. */
  predicate Delimited(s: Text) {
    s == [] || !(IsDigit(s[0]) || IsAlpha(s[0]) || s[0] == DOT)
  }

  lemma {:induction false} DigitCountOf(ds: Text, tail: Text)
    requires AllDigits(ds) && (tail == [] || !IsDigit(tail[0]))
    ensures DigitCount(ds + tail) == |ds|
  {
    if ds == [] {
      assert ds + tail == tail;
    } else {
      DigitCountOf(ds[1..], tail);
      assert (ds + tail)[1..] == ds[1..] + tail;
    }
  }

  lemma {:induction false} NumberLengthOf(sign: Text, ds: Text, tail: Text)
    requires sign == [] || sign == [MINUS]
    requires ds != [] && AllDigits(ds) && (|ds| > 1 ==> ds[0] != ZERO) && Delimited(tail)
    ensures NumberLength(sign + ds + tail) == |sign + ds|
  {
    var s := sign + ds + tail;
    DigitCountOf(ds, tail);
    assert s[|sign|..] == ds + tail;
    assert s[|sign|] == ds[0];
    assert tail != [] ==> s[|sign| + |ds|] == tail[0];
  }

  lemma {:induction false} LexIntText(i: int, tail: Text)
    requires INT_MIN <= i <= INT_MAX && Delimited(tail)
    ensures
      var s := IntText(i) + tail;
      (IsDigit(s[0]) || s[0] == MINUS) && LexNumber(s) == Lexed(Int(i), tail)
  {
    hide NatText, DigitCount, NatValue, NumberLength;
    var sign: Text := if i < 0 then [MINUS] else [];
    var ds := NatText(if i < 0 then -i else i);
    var s := IntText(i) + tail;
    var t := sign + ds;
    assert IntText(i) == t;
    NumberLengthOf(sign, ds, tail);
    assert s[..|t|] == t && s[|t|..] == tail;
    assert t[|sign|..] == ds && t[0] == (if i < 0 then MINUS else ds[0]);
    assert IntValue(t) == i;
  }

  lemma {:induction false} AlphaCountOf(word: Text, tail: Text)
    requires (forall i :: 0 <= i < |word| ==> IsAlpha(word[i])) && (tail == [] || !IsAlpha(tail[0]))
    ensures AlphaCount(word + tail) == |word|
  {
    if word == [] {
      assert word + tail == tail;
    } else {
      AlphaCountOf(word[1..], tail);
      assert (word + tail)[1..] == word[1..] + tail;
    }
  }

  lemma {:induction false} LexWordText(word: Text, tail: Text)
    requires word == TRUE_TEXT || word == FALSE_TEXT || word == NULL_TEXT
    requires Delimited(tail)
    ensures
      LexWord(word + tail) ==
      Lexed(if word == TRUE_TEXT then TrueToken else if word == FALSE_TEXT then FalseToken else NullToken, tail)
  {
    hide AlphaCount;
    var s := word + tail;
    AlphaCountOf(word, tail);
    assert s[..|word|] == word && s[|word|..] == tail;
  }

  /** A printed string is lexed to the bytes it was printed from. */
  lemma {:induction false} LexDumpedString(b: Text, f: Flags, tail: Text)
    requires Valid(b)
    ensures
      var d := DumpString(b, f);
      && d.ok && d.text != [] && d.text[0] == QUOTE
      && LexString((d.text + tail)[1..]) == Lexed(Str(b), tail)
  {
    hide DumpRest, RawLength, Unescape, Iterate, PrintAll, Raw;
    DumpRestPrints(b, [], f);
    EncodeAllDecode(b);
    var raw := PrintAll(Decoded(b), f);
    PrintAllUnescapes(Decoded(b), f);
    RawThenQuote(raw, tail);
    var d := DumpString(b, f);
    assert d.text == [QUOTE] + raw + [QUOTE];
    var s := raw + [QUOTE] + tail;
    assert (d.text + tail)[1..] == s;
    assert s[..|raw|] == raw;
    assert s[|raw| + 1..] == tail;
  }
}
