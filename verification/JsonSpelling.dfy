/** How a string may be spelled in JSON text (section 7 of RFC 8259): every
    spelling is read as what it means, and nothing else is read. */
module JsonSpelling {
  import opened Options
  import opened Bytes
  import opened Utf8
  import opened JsonStrings

  // ----- spellings

  /** A hexadecimal digit and the case it is written in. */
  datatype Hex = Hex(d: nat, lower: bool)

  datatype Quad = Quad(a: Hex, b: Hex, c: Hex, d: Hex)

  /** A character as itself, as a backslash and a letter, as one \u escape, or as
      a pair of them. */
  datatype Piece =
    | Plain(cp: int)
    | Short(letter: byte)
    | Code(q: Quad)
    | Paired(high: Quad, low: Quad)

  function HexByte(h: Hex): byte
    requires h.d < 16
  {
    if h.d < 10 then 48 + h.d else if h.lower then 97 + (h.d - 10) else 65 + (h.d - 10)
  }

  predicate QuadOk(q: Quad) {
    q.a.d < 16 && q.b.d < 16 && q.c.d < 16 && q.d.d < 16
  }

  function QuadText(q: Quad): Text
    requires QuadOk(q)
  {
    [92, 117, HexByte(q.a), HexByte(q.b), HexByte(q.c), HexByte(q.d)]
  }

  function QuadValue(q: Quad): nat {
    q.a.d * 4096 + q.b.d * 256 + q.c.d * 16 + q.d.d
  }

  /** The eight letters that may follow a backslash, and what they stand for:
      quote, backslash, slash, backspace, form feed, newline, return and tab. */
  const LETTERS: map<byte, int> :=
    map[34 := 34, 92 := 92, 47 := 47, 98 := 8, 102 := 12, 110 := 10, 114 := 13, 116 := 9]

  predicate PieceOk(p: Piece) {
    match p
    case Plain(cp) => Scalar(cp) && cp >= 32 && cp != 34 && cp != 92
    case Short(c) => c in LETTERS
    case Code(q) => QuadOk(q) && !(0xD800 <= QuadValue(q) < 0xE000)
    case Paired(h, l) =>
      QuadOk(h) && QuadOk(l) && 0xD800 <= QuadValue(h) < 0xDC00 && 0xDC00 <= QuadValue(l) < 0xE000
  }

  function PieceText(p: Piece): Text
    requires PieceOk(p)
  {
    match p
    case Plain(cp) => Encoded(cp)
    case Short(c) => [92, c]
    case Code(q) => QuadText(q)
    case Paired(h, l) => QuadText(h) + QuadText(l)
  }

  /** The character a piece stands for. */
  function PieceMeans(p: Piece): (cp: int)
    requires PieceOk(p)
    ensures Scalar(cp)
  {
    match p
    case Plain(cp) => cp
    case Short(c) => LETTERS[c]
    case Code(q) => QuadValue(q)
    case Paired(h, l) => 0x10000 + (QuadValue(h) - 0xD800) * 0x400 + (QuadValue(l) - 0xDC00)
  }

  predicate PiecesOk(ps: seq<Piece>) {
    forall i :: 0 <= i < |ps| ==> PieceOk(ps[i])
  }

  function PiecesText(ps: seq<Piece>): Text
    requires PiecesOk(ps)
  {
    if ps == [] then [] else PieceText(ps[0]) + PiecesText(ps[1..])
  }

  /** The bytes of the string a literal stands for. */
  function PiecesMean(ps: seq<Piece>): Text
    requires PiecesOk(ps)
  {
    if ps == [] then [] else Encoded(PieceMeans(ps[0])) + PiecesMean(ps[1..])
  }

  // ----- digits

  function HexOf(c: byte): (h: Hex)
    requires IsHex(c)
    ensures h.d < 16 && HexByte(h) == c && HexValue(c) == h.d
  {
    if c <= 57 then Hex(c - 48, false) else if c >= 97 then Hex(c - 87, true) else Hex(c - 55, false)
  }

  lemma HexByteIsHex(h: Hex)
    requires h.d < 16
    ensures IsHex(HexByte(h)) && HexValue(HexByte(h)) == h.d
  {
  }

  /** Both cases of every digit are read alike. */
  lemma {:induction false} QuadReads(q: Quad, tail: Text)
    requires QuadOk(q)
    ensures HexEscape(QuadText(q) + tail) && EscapeValue(QuadText(q) + tail) == QuadValue(q)
  {
    HexByteIsHex(q.a);
    HexByteIsHex(q.b);
    HexByteIsHex(q.c);
    HexByteIsHex(q.d);
    hide HexByte, IsHex, HexValue;
    var s := QuadText(q) + tail;
    assert s[0] == 92 && s[1] == 117;
    assert s[2] == HexByte(q.a) && s[3] == HexByte(q.b) && s[4] == HexByte(q.c) && s[5] == HexByte(q.d);
  }

  lemma {:induction false} QuadOf(s: Text) returns (q: Quad)
    requires HexEscape(s)
    ensures QuadOk(q) && QuadText(q) == s[..6] && QuadValue(q) == EscapeValue(s)
  {
    q := Quad(HexOf(s[2]), HexOf(s[3]), HexOf(s[4]), HexOf(s[5]));
    hide HexByte, IsHex, HexValue, HexOf;
  }

  // ----- every spelling is read as what it means

  lemma {:induction false} PlainReads(cp: int, raw: Text)
    requires PieceOk(Plain(cp)) && Raw(raw)
    ensures Raw(Encoded(cp) + raw) && Unescape(Encoded(cp) + raw) == Prepend(Encoded(cp), Unescape(raw))
  {
    var s := Encoded(cp) + raw;
    if cp < 0x80 {
      EncodeOne(cp);
      assert s[1..] == raw && UnitLength(s) == 1;
    } else {
      EncodedIsHigh(cp);
      HighBytesAreCopied(Encoded(cp), raw);
    }
  }

  lemma {:induction false} ShortReads(c: byte, raw: Text)
    requires PieceOk(Short(c)) && Raw(raw)
    ensures
      var s := [92, c] + raw;
      Raw(s) && Unescape(s) == Prepend(Encoded(PieceMeans(Short(c))), Unescape(raw))
  {
    var s := [92, c] + raw;
    assert s[2..] == raw;
    assert UnitLength(s) == 2;
    EncodeOne(LETTERS[c]);
  }

  lemma {:induction false} EscapeReads(s: Text, n: nat, cp: int)
    requires HexEscape(s) && EscapedChar(s) == Some(Char(cp, n)) && Raw(s[6..]) && Raw(s[n..])
    ensures Raw(s) && Unescape(s) == Prepend(Encoded(cp), Unescape(s[n..]))
  {
    hide EscapedChar, Encode, Prepend;
  }

  lemma {:induction false} CodeReads(q: Quad, raw: Text)
    requires PieceOk(Code(q)) && Raw(raw)
    ensures
      var s := QuadText(q) + raw;
      Raw(s) && Unescape(s) == Prepend(Encoded(QuadValue(q)), Unescape(raw))
  {
    hide Raw, Unescape, Encode, EscapeValue, QuadText, HexEscape;
    QuadLength(q);
    var s := QuadText(q) + raw;
    QuadReads(q, raw);
    assert s[6..] == raw;
    EscapeReads(s, 6, QuadValue(q));
  }

  lemma QuadLength(q: Quad)
    requires QuadOk(q)
    ensures |QuadText(q)| == 6
  {
  }

  lemma {:induction false} PairedReads(h: Quad, l: Quad, raw: Text)
    requires PieceOk(Paired(h, l)) && Raw(raw)
    ensures
      var s := QuadText(h) + QuadText(l) + raw;
      Raw(s) && Unescape(s) == Prepend(Encoded(PieceMeans(Paired(h, l))), Unescape(raw))
  {
    hide Raw, Unescape, Encode, EscapeValue, QuadText, HexEscape;
    QuadLength(h);
    QuadLength(l);
    var t := QuadText(l) + raw;
    var s := QuadText(h) + QuadText(l) + raw;
    assert s == QuadText(h) + t;
    QuadReads(h, t);
    QuadReads(l, raw);
    assert s[6..] == t;
    assert s[12..] == raw;
    assert t[6..] == raw;
    RawEscapeThen(t);
    EscapeReads(s, 12, PieceMeans(Paired(h, l)));
  }

  lemma RawEscapeThen(t: Text)
    requires HexEscape(t) && Raw(t[6..])
    ensures Raw(t)
  {
  }

  lemma {:induction false} PieceReads(p: Piece, raw: Text)
    requires PieceOk(p) && Raw(raw)
    ensures Raw(PieceText(p) + raw)
    ensures Unescape(PieceText(p) + raw) == Prepend(Encoded(PieceMeans(p)), Unescape(raw))
  {
    hide Raw, Unescape, Encode, QuadText;
    match p
    case Plain(cp) => PlainReads(cp, raw);
    case Short(c) => ShortReads(c, raw);
    case Code(q) => CodeReads(q, raw);
    case Paired(h, l) => PairedReads(h, l, raw);
  }

  lemma {:induction false} PiecesRead(ps: seq<Piece>)
    requires PiecesOk(ps)
    ensures Raw(PiecesText(ps)) && Unescape(PiecesText(ps)) == Some(PiecesMean(ps))
  {
    hide PieceText, Encode, PieceMeans, PieceOk;
    if ps == [] {
    } else {
      PiecesRead(ps[1..]);
      hide Raw, Unescape;
      PieceReads(ps[0], PiecesText(ps[1..]));
    }
  }

  // ----- whatever is read has such a spelling

  lemma {:induction false} PlainPiece(raw: Text) returns (p: Piece)
    requires Raw(raw) && Valid(raw) && raw != [] && raw[0] != 92
    ensures p.Plain? && PieceOk(p) && |PieceText(p)| <= |raw| && PieceText(p) == raw[..|PieceText(p)|]
    ensures Valid(raw[|PieceText(p)|..]) && Raw(raw[|PieceText(p)|..])
  {
    hide Encode, Unescape;
    var c := Iterate(raw).value;
    IteratedIsEncoded(raw);
    UnescapePlainIsValid(raw);
    p := Plain(c.cp);
    if c.cp < 0x80 {
      EncodeOne(c.cp);
      assert raw[..c.length][0] == c.cp;
    }
  }

  lemma {:induction false} ShortPiece(raw: Text) returns (p: Piece)
    requires Raw(raw) && Valid(raw) && raw != [] && raw[0] == 92 && !HexEscape(raw)
    ensures p.Short? && PieceOk(p) && PieceText(p) == raw[..2] && |raw| >= 2
    ensures Valid(raw[2..]) && Raw(raw[2..])
  {
    hide Valid;
    EscapesAreAscii(raw, UnitLength(raw));
    ValidAfterAscii(raw, 2);
    p := Short(raw[1]);
  }

  lemma {:induction false} CodePiece(raw: Text) returns (p: Piece)
    requires Raw(raw) && Valid(raw) && HexEscape(raw) && EscapedChar(raw).Some?
    ensures (p.Code? || p.Paired?) && PieceOk(p) && PieceMeans(p) == EscapedChar(raw).value.cp
    ensures PieceText(p) == raw[..EscapedChar(raw).value.length]
    ensures Valid(raw[EscapedChar(raw).value.length..]) && Raw(raw[EscapedChar(raw).value.length..])
  {
    hide Valid, Raw, EscapeValue, HexEscape, QuadText;
    RawAfterEscape(raw);
    ValidAfterEscape(raw);
    var h := QuadOf(raw);
    if EscapedChar(raw).value.length == 6 {
      p := Code(h);
    } else {
      var l := QuadOf(raw[6..]);
      p := Paired(h, l);
      assert raw[..12] == raw[..6] + raw[6..][..6];
    }
  }

  lemma {:induction false} FirstPiece(raw: Text) returns (p: Piece)
    requires Raw(raw) && Valid(raw) && raw != [] && Unescape(raw).Some?
    ensures PieceOk(p) && 0 < |PieceText(p)| <= |raw| && PieceText(p) == raw[..|PieceText(p)|]
    ensures Valid(raw[|PieceText(p)|..]) && Raw(raw[|PieceText(p)|..])
  {
    if raw[0] != 92 {
      p := PlainPiece(raw);
    } else if HexEscape(raw) {
      hide Raw, Valid, PieceText, PieceOk, HexEscape;
      p := CodePiece(raw);
    } else {
      p := ShortPiece(raw);
    }
  }

  lemma {:induction false} PiecesOf(raw: Text) returns (ps: seq<Piece>)
    requires Raw(raw) && Valid(raw) && Unescape(raw).Some?
    ensures PiecesOk(ps) && PiecesText(ps) == raw && Unescape(raw) == Some(PiecesMean(ps))
    decreases |raw|
  {
    if raw == [] {
      ps := [];
    } else {
      var p := FirstPiece(raw);
      hide Raw, Valid, PieceText, PieceMeans, Unescape, PieceOk, Encode, PiecesText, PiecesMean, PiecesOk;
      var n := |PieceText(p)|;
      var rest := raw[n..];
      assert raw == PieceText(p) + rest;
      PieceReads(p, rest);
      var tail := PiecesOf(rest);
      ConsPiece(p, tail);
      ps := [p] + tail;
    }
  }

  lemma ConsPiece(p: Piece, tail: seq<Piece>)
    requires PieceOk(p) && PiecesOk(tail)
    ensures PiecesOk([p] + tail)
    ensures PiecesText([p] + tail) == PieceText(p) + PiecesText(tail)
    ensures PiecesMean([p] + tail) == Encoded(PieceMeans(p)) + PiecesMean(tail)
  {
    hide PieceText, PieceMeans, PieceOk, Encode;
    assert ([p] + tail)[1..] == tail;
  }

  // ----- which spelling the printer chooses

  /** ENSURE_ASCII admits no byte above 127, ESCAPE_SLASH no bare slash. */
  predicate Allowed(p: Piece, f: Flags) {
    PieceOk(p) && (f.ensureAscii ==> AllAscii(PieceText(p))) && (f.escapeSlash ==> PieceText(p) != [47])
  }

  predicate UpperQuad(q: Quad) {
    !q.a.lower && !q.b.lower && !q.c.lower && !q.d.lower
  }

  predicate UpperCase(p: Piece) {
    match p
    case Code(q) => UpperQuad(q)
    case Paired(h, l) => UpperQuad(h) && UpperQuad(l)
    case _ => true
  }

  function UpperOf(v: int): Quad
    requires 0 <= v <= 0xFFFF
  {
    Quad(Hex(v / 4096, false), Hex(v / 256 % 16, false), Hex(v / 16 % 16, false), Hex(v % 16, false))
  }

  lemma {:induction false} UpperIsPrinted(v: int)
    requires 0 <= v <= 0xFFFF
    ensures QuadOk(UpperOf(v)) && QuadText(UpperOf(v)) == HexText(v) && QuadValue(UpperOf(v)) == v
    ensures AllAscii(HexText(v)) && |HexText(v)| == 6
  {
    HexSplits(v);
  }

  lemma {:induction false} EscapePiece(cp: int) returns (p: Piece)
    requires Scalar(cp) && (cp < 0x20 || cp == 34 || cp == 92 || cp == 47 || cp > 0x7F)
    ensures PieceOk(p) && PieceMeans(p) == cp && PieceText(p) == EscapeText(cp) && UpperCase(p)
    ensures AllAscii(EscapeText(cp)) && EscapeText(cp) != [47]
    ensures |EscapeText(cp)| == if p.Short? then 2 else if p.Code? then 6 else 12
    ensures p.Short? <==> cp == 34 || cp == 92 || cp == 47 || cp == 8 || cp == 12 || cp == 10 || cp == 13 || cp == 9
    ensures p.Paired? <==> cp >= 0x10000
  {
    hide HexText, QuadText, SurrogatesText;
    if cp >= 0x10000 {
      p := PairedPiece(cp);
    } else if cp == 34 || cp == 92 || cp == 47 {
      p := Short(cp);
    } else if cp == 8 {
      p := Short(98);
    } else if cp == 12 {
      p := Short(102);
    } else if cp == 10 {
      p := Short(110);
    } else if cp == 13 {
      p := Short(114);
    } else if cp == 9 {
      p := Short(116);
    } else {
      UpperIsPrinted(cp);
      p := Code(UpperOf(cp));
    }
  }

  lemma {:induction false} PairedPiece(cp: int) returns (p: Piece)
    requires 0x10000 <= cp <= 0x10FFFF
    ensures p.Paired? && PieceOk(p) && PieceMeans(p) == cp && PieceText(p) == SurrogatesText(cp) && UpperCase(p)
    ensures AllAscii(SurrogatesText(cp)) && |SurrogatesText(cp)| == 12
  {
    hide HexText, QuadText, UpperOf, QuadValue, QuadOk;
    var h, l := 0xD800 + (cp - 0x10000) / 1024, 0xDC00 + (cp - 0x10000) % 1024;
    UpperIsPrinted(h);
    UpperIsPrinted(l);
    UpperIsUpper(h);
    UpperIsUpper(l);
    p := Paired(UpperOf(h), UpperOf(l));
  }

  lemma UpperIsUpper(v: int)
    requires 0 <= v <= 0xFFFF
    ensures UpperQuad(UpperOf(v))
  {
  }

  lemma {:induction false} PrintedPiece(cp: int, f: Flags) returns (p: Piece)
    requires Scalar(cp)
    ensures Allowed(p, f) && PieceMeans(p) == cp && PieceText(p) == Print(cp, f) && UpperCase(p)
    ensures NeedsEscape(cp, f) <==> !p.Plain?
    ensures !p.Plain? ==> |Print(cp, f)| == if p.Short? then 2 else if p.Code? then 6 else 12
    ensures p.Short? ==> cp < 0x80
    ensures p.Code? ==> cp < 0x10000 && cp !in LETTERS.Values
  {
    if NeedsEscape(cp, f) {
      hide EscapeText, Encode, QuadText;
      p := EscapePiece(cp);
    } else {
      p := Plain(cp);
      if cp < 0x80 {
        EncodeOne(cp);
      }
    }
  }

  lemma EncodedLength(cp: int)
    requires Scalar(cp)
    ensures |Encoded(cp)| == if cp < 0x80 then 1 else if cp < 0x800 then 2 else if cp < 0x10000 then 3 else 4
    ensures cp < 0x80 ==> Encoded(cp) == [cp]
    ensures cp >= 0x80 ==> Encoded(cp)[0] >= 0x80
  {
  }

  /** The printer writes every character in a spelling that the flags allow, with
      upper-case digits, and no allowed spelling of the character is shorter. */
  lemma {:induction false} PrintIsShortest(cp: int, f: Flags, q: Piece) returns (p: Piece)
    requires Scalar(cp) && Allowed(q, f) && PieceMeans(q) == cp
    ensures Allowed(p, f) && PieceMeans(p) == cp && PieceText(p) == Print(cp, f) && UpperCase(p)
    ensures |Print(cp, f)| <= |PieceText(q)|
  {
    p := PrintedPiece(cp, f);
    EncodedLength(cp);
    hide Encode, EscapeText, QuadText, UpperCase;
    match q
    case Plain(_) =>
    case Short(c) => assert cp in LETTERS.Values && cp < 0x80;
    case Code(k) => QuadLength(k);
    case Paired(h, l) =>
      QuadLength(h);
      QuadLength(l);
  }
}
