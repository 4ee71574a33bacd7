/** String literals (section 7 of RFC 8259): the printer's escapes and the
    lexer's two passes over the text between the quotes. */
module JsonStrings {
  import opened Options
  import opened Bytes
  import opened Utf8

  const QUOTE: byte := 34
  const SLASH: byte := 47
  const BACKSLASH: byte := 92
  const LOWER_U: byte := 117

  /** Encoding flags: indentation width, COMPACT, ENSURE_ASCII, SORT_KEYS,
      ESCAPE_SLASH and ENCODE_ANY. */
  datatype Flags = Flags(indent: nat, compact: bool, ensureAscii: bool, sortKeys: bool, escapeSlash: bool,
    encodeAny: bool)

  // ----- hexadecimal escapes

  predicate IsDigit(c: byte) { 48 <= c <= 57 }
  predicate IsUpper(c: byte) { 65 <= c <= 90 }
  predicate IsLower(c: byte) { 97 <= c <= 122 }
  predicate IsAlpha(c: byte) { IsUpper(c) || IsLower(c) }
  predicate IsHex(c: byte) { IsDigit(c) || 65 <= c <= 70 || 97 <= c <= 102 }

  /** One digit of decode_unicode_escape, which takes any letter. */
  function HexValue(c: byte): int
    requires IsDigit(c) || IsAlpha(c)
  {
    if IsDigit(c) then c - 48 else if IsLower(c) then c - 97 + 10 else c - 65 + 10
  }

  function HexDigit(d: int): byte
    requires 0 <= d < 16
  {
    if d < 10 then 48 + d else 65 + d - 10
  }

  /** The four digits of a \uXXXX escape at the start of s. */
  predicate HexEscape(s: Text) {
    |s| >= 6 && s[0] == BACKSLASH && s[1] == LOWER_U && IsHex(s[2]) && IsHex(s[3]) && IsHex(s[4]) && IsHex(s[5])
  }

  function EscapeValue(s: Text): (v: int)
    requires HexEscape(s)
    ensures 0 <= v <= 0xFFFF
  {
    ((HexValue(s[2]) * 16 + HexValue(s[3])) * 16 + HexValue(s[4])) * 16 + HexValue(s[5])
  }

  /** "\\u%04X". */
  function HexText(v: int): Text
    requires 0 <= v <= 0xFFFF
  {
    [BACKSLASH, LOWER_U, HexDigit(v / 4096), HexDigit(v / 256 % 16), HexDigit(v / 16 % 16), HexDigit(v % 16)]
  }

  lemma {:induction false} HexRoundTrip(v: int, tail: Text)
    requires 0 <= v <= 0xFFFF
    ensures HexEscape(HexText(v) + tail) && EscapeValue(HexText(v) + tail) == v
  {
    var a, b, c, d := v / 4096, v / 256 % 16, v / 16 % 16, v % 16;
    HexSplits(v);
    forall x | 0 <= x < 16 ensures IsHex(HexDigit(x)) && HexValue(HexDigit(x)) == x {
    }
    hide HexValue, HexDigit, IsHex;
    var s := HexText(v) + tail;
    assert s[2] == HexDigit(a) && s[3] == HexDigit(b) && s[4] == HexDigit(c) && s[5] == HexDigit(d);
  }

  lemma {:induction false} HexSplits(v: int)
    requires 0 <= v <= 0xFFFF
    ensures ((v / 4096 * 16 + v / 256 % 16) * 16 + v / 16 % 16) * 16 + v % 16 == v
  {
    var p := v / 16;
    var q := p / 16;
    assert v / 256 == q;
    assert v / 4096 == q / 16;
  }

  // ----- the first pass: where does the literal end

  predicate IsShortEscape(c: byte) {
    c == QUOTE || c == BACKSLASH || c == SLASH || c == 98 || c == 102 || c == 110 || c == 114 || c == 116
  }

  /** The bytes of the next plain byte or escape, 0 if there is none: at the
      closing quote, a control character or a malformed escape. */
  function UnitLength(s: Text): (n: nat)
    ensures n <= |s|
  {
    if s == [] || s[0] == QUOTE || s[0] < 0x20 then 0
    else if s[0] != BACKSLASH then 1
    else if HexEscape(s) then 6
    else if |s| >= 2 && IsShortEscape(s[1]) then 2
    else 0
  }

  /** The length of the text before the closing quote. */
  function RawLength(s: Text): (r: Option<nat>)
    ensures r.Some? ==> r.value < |s| && s[r.value] == QUOTE
    decreases |s|
  {
    if s == [] then None
    else if s[0] == QUOTE then Some(0)
    else
      var n := UnitLength(s);
      if n == 0 then None
      else match RawLength(s[n..])
           case None => None
           case Some(k) => Some(n + k)
  }

  /** Text made of plain bytes and well-formed escapes only. */
  predicate Raw(s: Text)
    decreases |s|
  {
    s == [] || (UnitLength(s) > 0 && Raw(s[UnitLength(s)..]))
  }

  lemma {:induction false} UnitLengthLocal(s: Text, tail: Text)
    requires UnitLength(s) > 0
    ensures UnitLength(s + tail) == UnitLength(s)
  {
    if HexEscape(s) {
      assert HexEscape(s + tail);
    } else if |s| >= 2 && s[0] == BACKSLASH {
      assert (s + tail)[1] == s[1];
      assert s[1] != LOWER_U;
    }
  }

  /** A prefix of a unit is no shorter unit. */
  lemma {:induction false} UnitLengthOfPrefix(s: Text, n: nat)
    requires UnitLength(s) > 0 && UnitLength(s) <= n <= |s|
    ensures UnitLength(s[..n]) == UnitLength(s)
  {
    if HexEscape(s) {
      assert HexEscape(s[..n]);
    } else if n >= 2 && s[0] == BACKSLASH {
      assert s[..n][1] == s[1];
      assert s[1] != LOWER_U;
    }
  }

  /** What the first pass accepts is raw text, cut at an unescaped quote. */
  lemma {:induction false} RawLengthIsRaw(s: Text)
    requires RawLength(s).Some?
    ensures Raw(s[..RawLength(s).value])
    decreases |s|
  {
    if s[0] != QUOTE {
      var n := UnitLength(s);
      var k := RawLength(s).value;
      RawLengthIsRaw(s[n..]);
      UnitLengthOfPrefix(s, k);
      assert s[..k][n..] == s[n..][..k - n];
    }
  }

  lemma {:induction false} RawThenQuote(raw: Text, tail: Text)
    requires Raw(raw)
    ensures RawLength(raw + [QUOTE] + tail) == Some(|raw|)
    decreases |raw|
  {
    var s := raw + [QUOTE] + tail;
    if raw != [] {
      var n := UnitLength(raw);
      RawThenQuote(raw[n..], tail);
      assert s == raw + ([QUOTE] + tail);
      UnitLengthLocal(raw, [QUOTE] + tail);
      assert s[n..] == raw[n..] + [QUOTE] + tail;
    }
  }

  // ----- the second pass: what the literal means

  function Simple(c: byte): byte
    requires IsShortEscape(c)
  {
    if c == 98 then 8
    else if c == 102 then 12
    else if c == 110 then 10
    else if c == 114 then 13
    else if c == 116 then 9
    else c
  }

  function Prepend(a: Text, r: Option<Text>): Option<Text> {
    if r.None? then None else Some(a + r.value)
  }

  predicate HighSurrogate(v: int) { 0xD800 <= v <= 0xDBFF }
  predicate LowSurrogate(v: int) { 0xDC00 <= v <= 0xDFFF }

  function Pair(high: int, low: int): int {
    (high - 0xD800) * 1024 + (low - 0xDC00) + 0x10000
  }

  /** The code point of the escape at the start of raw, and the bytes it takes. */
  function EscapedChar(raw: Text): (r: Option<Char>)
    requires HexEscape(raw)
    ensures r.Some? ==> Scalar(r.value.cp) && r.value.length <= |raw|
    ensures r.Some? ==> (r.value.length == 6 && r.value.cp <= 0xFFFF) || r.value.length == 12
  {
    var v := EscapeValue(raw);
    if HighSurrogate(v) then
      if HexEscape(raw[6..]) && LowSurrogate(EscapeValue(raw[6..])) then Some(Char(Pair(v, EscapeValue(raw[6..])), 12))
      else None
    else if LowSurrogate(v) then None
    else Some(Char(v, 6))
  }

  function Unescape(raw: Text): Option<Text>
    requires Raw(raw)
    decreases |raw|
  {
    if raw == [] then Some([])
    else if raw[0] != BACKSLASH then Prepend([raw[0]], Unescape(raw[1..]))
    else if HexEscape(raw) then
      match EscapedChar(raw)
      case None => None
      case Some(c) =>
        RawAfterEscape(raw);
        Prepend(Encoded(c.cp), Unescape(raw[c.length..]))
    else Prepend([Simple(raw[1])], Unescape(raw[2..]))
  }

  /** After one or two hexadecimal escapes the text is still raw. */
  lemma {:induction false} RawAfterEscape(raw: Text)
    requires Raw(raw) && HexEscape(raw) && EscapedChar(raw).Some?
    ensures Raw(raw[EscapedChar(raw).value.length..])
  {
    if EscapedChar(raw).value.length == 12 {
      assert raw[6..][6..] == raw[12..];
    }
  }

  /** The result fits into a buffer the size of the literal. */
  lemma {:induction false} UnescapeShrinks(raw: Text)
    requires Raw(raw) && Unescape(raw).Some?
    ensures |Unescape(raw).value| <= |raw|
    decreases |raw|
  {
    if raw == [] {
    } else if raw[0] != BACKSLASH {
      UnescapeShrinks(raw[1..]);
    } else if HexEscape(raw) {
      RawAfterEscape(raw);
      UnescapeShrinks(raw[EscapedChar(raw).value.length..]);
    } else {
      UnescapeShrinks(raw[2..]);
    }
  }

  // ----- multi-byte characters pass through

  predicate AllHigh(h: Text) {
    forall i :: 0 <= i < |h| ==> h[i] >= 0x80
  }

  predicate AllAscii(h: Text) {
    forall i :: 0 <= i < |h| ==> h[i] < 0x80
  }

  lemma {:induction false} EncodedIsHigh(cp: int)
    requires Scalar(cp) && cp >= 0x80
    ensures AllHigh(Encoded(cp))
  {
  }

  lemma {:induction false} PrependTwice(a: Text, b: Text, r: Option<Text>)
    ensures Prepend(a, Prepend(b, r)) == Prepend(a + b, r)
  {
    if r.Some? {
      assert a + (b + r.value) == a + b + r.value;
    }
  }

  lemma {:induction false} PrependNothing(a: Text, r: Option<Text>)
    requires a == []
    ensures Prepend(a, r) == r
  {
    if r.Some? {
      assert a + r.value == r.value;
    }
  }

  lemma {:induction false} HighByteIsCopied(x: byte, raw: Text)
    requires x >= 0x80
    ensures Raw([x] + raw) <==> Raw(raw)
    ensures Raw(raw) ==> Unescape([x] + raw) == Prepend([x], Unescape(raw))
  {
    var s := [x] + raw;
    assert s[1..] == raw && UnitLength(s) == 1;
  }

  lemma {:induction false} HighBytesAreCopied(h: Text, raw: Text)
    requires AllHigh(h)
    ensures Raw(h + raw) <==> Raw(raw)
    ensures Raw(raw) ==> Unescape(h + raw) == Prepend(h, Unescape(raw))
    decreases |h|
  {
    hide Raw, Unescape, Prepend;
    if h == [] {
      assert h + raw == raw;
      if Raw(raw) {
        PrependNothing(h, Unescape(raw));
      }
    } else {
      var t := h[1..] + raw;
      HighBytesAreCopied(h[1..], raw);
      HighByteIsCopied(h[0], t);
      assert [h[0]] + t == h + raw;
      if Raw(raw) {
        PrependTwice([h[0]], h[1..], Unescape(raw));
        assert [h[0]] + h[1..] == h;
      }
    }
  }

  lemma {:induction false} ValidAfterAscii(b: Text, n: nat)
    requires Valid(b) && n <= |b| && AllAscii(b[..n])
    ensures Valid(b[n..])
    decreases n
  {
    if n > 0 {
      assert b[..n][0] == b[0];
      assert Iterate(b) == Some(Char(b[0], 1));
      assert b[1..][..n - 1] == b[..n][1..];
      ValidAfterAscii(b[1..], n - 1);
      assert b[1..][n - 1..] == b[n..];
    }
  }

  lemma {:induction false} EscapesAreAscii(raw: Text, n: nat)
    requires raw != [] && raw[0] == BACKSLASH && n == UnitLength(raw) > 0
    ensures AllAscii(raw[..n])
  {
  }

  lemma {:induction false} ValidEncodedThen(cp: int, rest: Text)
    requires Scalar(cp)
    ensures Valid(Encoded(cp) + rest) <==> Valid(rest)
  {
    hide Encode, Iterate;
    IterateEncoded(cp, rest);
    assert (Encoded(cp) + rest)[|Encoded(cp)|..] == rest;
  }

  /** Escapes and raw multi-byte text together give well-formed UTF-8. */
  lemma {:induction false} UnescapeIsValid(raw: Text)
    requires Raw(raw) && Valid(raw) && Unescape(raw).Some?
    ensures Valid(Unescape(raw).value)
    decreases |raw|
  {
    hide Encode, EscapedChar, EscapeValue;
    if raw == [] {
    } else if raw[0] == BACKSLASH {
      EscapesAreAscii(raw, UnitLength(raw));
      if HexEscape(raw) {
        var c := EscapedChar(raw).value;
        RawAfterEscape(raw);
        ValidAfterEscape(raw);
        UnescapeIsValid(raw[c.length..]);
        ValidEncodedThen(c.cp, Unescape(raw[c.length..]).value);
      } else {
        ValidAfterAscii(raw, 2);
        UnescapeIsValid(raw[2..]);
        AsciiThen(Simple(raw[1]), Unescape(raw[2..]).value);
      }
    } else {
      UnescapePlainIsValid(raw);
      var n := Iterate(raw).value.length;
      IteratedIsEncoded(raw);
      UnescapeIsValid(raw[n..]);
      ValidEncodedThen(Iterate(raw).value.cp, Unescape(raw[n..]).value);
    }
  }

  /** A character that is no escape is copied whole. */
  lemma {:induction false} UnescapePlainIsValid(raw: Text)
    requires Raw(raw) && Valid(raw) && raw != [] && raw[0] != BACKSLASH
    ensures
      var n := Iterate(raw).value.length;
      Raw(raw[n..]) && Unescape(raw) == Prepend(raw[..n], Unescape(raw[n..]))
  {
    var c := Iterate(raw).value;
    var n := c.length;
    IteratedIsEncoded(raw);
    if raw[0] < 0x80 {
      assert raw[..1] == [raw[0]];
    } else {
      assert raw == raw[..n] + raw[n..];
      CharIsHigh(raw);
      HighBytesAreCopied(raw[..n], raw[n..]);
    }
  }

  lemma {:induction false} CharIsHigh(b: Text)
    requires b != [] && b[0] >= 0x80 && Iterate(b).Some?
    ensures AllHigh(b[..Iterate(b).value.length])
  {
    var c := Iterate(b).value;
    IteratedIsEncoded(b);
    assert Encoded(c.cp)[0] == b[..c.length][0] == b[0];
    EncodedIsHigh(c.cp);
  }

  lemma {:induction false} AsciiThen(c: byte, rest: Text)
    requires c < 0x80
    ensures Valid([c] + rest) <==> Valid(rest)
  {
    assert ([c] + rest)[1..] == rest;
  }

  lemma {:induction false} ValidAfterEscape(raw: Text)
    requires Raw(raw) && Valid(raw) && HexEscape(raw) && EscapedChar(raw).Some?
    ensures Valid(raw[EscapedChar(raw).value.length..])
  {
    hide Iterate;
    EscapesAreAscii(raw, 6);
    ValidAfterAscii(raw, 6);
    if EscapedChar(raw).value.length == 12 {
      EscapesAreAscii(raw[6..], 6);
      ValidAfterAscii(raw[6..], 6);
      assert raw[6..][6..] == raw[12..];
    }
  }

  // ----- printing

  predicate NeedsEscape(cp: int, f: Flags) {
    || cp == BACKSLASH || cp == QUOTE || cp < 0x20
    || (f.escapeSlash && cp == SLASH)
    || (f.ensureAscii && cp > 0x7F)
  }

  function SurrogatesText(cp: int): Text
    requires 0x10000 <= cp <= 0x10FFFF
  {
    HexText(0xD800 + (cp - 0x10000) / 1024) + HexText(0xDC00 + (cp - 0x10000) % 1024)
  }

  function EscapeText(cp: int): Text
    requires Scalar(cp)
  {
    if cp == BACKSLASH then [BACKSLASH, BACKSLASH]
    else if cp == QUOTE then [BACKSLASH, QUOTE]
    else if cp == 8 then [BACKSLASH, 98]
    else if cp == 12 then [BACKSLASH, 102]
    else if cp == 10 then [BACKSLASH, 110]
    else if cp == 13 then [BACKSLASH, 114]
    else if cp == 9 then [BACKSLASH, 116]
    else if cp == SLASH then [BACKSLASH, SLASH]
    else if cp < 0x10000 then HexText(cp)
    else SurrogatesText(cp)
  }

  function Print(cp: int, f: Flags): Text
    requires Scalar(cp)
  {
    if NeedsEscape(cp, f) then EscapeText(cp) else Encoded(cp)
  }

  function PrintAll(cps: seq<int>, f: Flags): Text
    requires AllScalar(cps)
  {
    if cps == [] then [] else Print(cps[0], f) + PrintAll(cps[1..], f)
  }

  datatype Dumped = Dumped(text: Text, ok: bool)

  /** The loop of dump_string: `pending` is read but not yet written text, which
      is lost when an invalid sequence ends the dump. */
  function DumpRest(b: Text, pending: Text, f: Flags): Dumped
    decreases |b|
  {
    if b == [] then Dumped(pending + [QUOTE], true)
    else match Iterate(b)
         case None => Dumped([], false)
         case Some(c) =>
           IteratedIsEncoded(b);
           if NeedsEscape(c.cp, f) then
             var r := DumpRest(b[c.length..], [], f);
             Dumped(pending + EscapeText(c.cp) + r.text, r.ok)
           else DumpRest(b[c.length..], pending + b[..c.length], f)
  }

  /** dump_string. */
  function DumpString(b: Text, f: Flags): Dumped {
    var r := DumpRest(b, [], f);
    Dumped([QUOTE] + r.text, r.ok)
  }

  lemma {:induction false} DumpRestPrints(b: Text, pending: Text, f: Flags)
    ensures DumpRest(b, pending, f).ok <==> Valid(b)
    ensures Valid(b) ==> AllScalar(Decoded(b))
    ensures Valid(b) ==> DumpRest(b, pending, f).text == pending + PrintAll(Decoded(b), f) + [QUOTE]
    decreases |b|
  {
    hide Encode, EscapeText, Iterate, NeedsEscape;
    if b != [] && Iterate(b).Some? {
      var c := Iterate(b).value;
      IteratedIsEncoded(b);
      var tail := b[c.length..];
      var next := if NeedsEscape(c.cp, f) then [] else pending + b[..c.length];
      DumpRestPrints(tail, next, f);
      if Valid(b) {
        EncodeAllDecode(b);
        var rest := PrintAll(Decoded(tail), f);
        assert Decoded(b)[1..] == Decoded(tail);
        assert PrintAll(Decoded(b), f) == Print(c.cp, f) + rest;
        if NeedsEscape(c.cp, f) {
          assert pending + EscapeText(c.cp) + ([] + rest + [QUOTE]) == pending + (EscapeText(c.cp) + rest) + [QUOTE];
        } else {
          assert (pending + b[..c.length]) + rest + [QUOTE] == pending + (b[..c.length] + rest) + [QUOTE];
        }
      }
    }
  }

  // ----- printing, then lexing

  lemma {:induction false} ShortEscapeUnescapes(c: byte, raw: Text)
    requires IsShortEscape(c) && Raw(raw)
    ensures Raw([BACKSLASH, c] + raw) && Unescape([BACKSLASH, c] + raw) == Prepend([Simple(c)], Unescape(raw))
  {
    var s := [BACKSLASH, c] + raw;
    assert s[2..] == raw;
    assert !HexEscape(s);
  }

  lemma {:induction false} HexTextUnescapes(cp: int, raw: Text)
    requires Scalar(cp) && cp < 0x10000 && Raw(raw)
    ensures Raw(HexText(cp) + raw) && Unescape(HexText(cp) + raw) == Prepend(Encoded(cp), Unescape(raw))
  {
    hide EscapeValue, Encode;
    var s := HexText(cp) + raw;
    HexRoundTrip(cp, raw);
    assert s[6..] == raw;
    assert UnitLength(s) == 6;
  }

  lemma {:induction false} SurrogatesUnescape(cp: int, raw: Text)
    requires 0x10000 <= cp <= 0x10FFFF && Raw(raw)
    ensures Raw(SurrogatesText(cp) + raw) && Unescape(SurrogatesText(cp) + raw) == Prepend(Encoded(cp), Unescape(raw))
  {
    hide EscapeValue, Encode, HexText;
    var high, low := 0xD800 + (cp - 0x10000) / 1024, 0xDC00 + (cp - 0x10000) % 1024;
    var t := HexText(low) + raw;
    var s := HexText(high) + t;
    HexTextLength(high);
    HexTextLength(low);
    HexRoundTrip(low, raw);
    HexRoundTrip(high, t);
    assert SurrogatesText(cp) + raw == s;
    assert s[6..] == t && t[6..] == raw && s[12..] == raw;
    assert UnitLength(t) == 6 && UnitLength(s) == 6;
    assert Raw(t);
    assert EscapedChar(s) == Some(Char(cp, 12));
  }

  lemma {:induction false} HexTextLength(v: int)
    requires 0 <= v <= 0xFFFF
    ensures |HexText(v)| == 6
  {
  }

  lemma {:induction false} PlainUnescapes(cp: int, f: Flags, raw: Text)
    requires Scalar(cp) && !NeedsEscape(cp, f) && Raw(raw)
    ensures Raw(Encoded(cp) + raw) && Unescape(Encoded(cp) + raw) == Prepend(Encoded(cp), Unescape(raw))
  {
    if cp < 0x80 {
      var s := Encoded(cp) + raw;
      assert s[1..] == raw;
      assert UnitLength(s) == 1;
    } else {
      EncodedIsHigh(cp);
      HighBytesAreCopied(Encoded(cp), raw);
    }
  }

  lemma {:induction false} PrintUnescapes(cp: int, f: Flags, raw: Text)
    requires Scalar(cp) && Raw(raw)
    ensures Raw(Print(cp, f) + raw) && Unescape(Print(cp, f) + raw) == Prepend(Encoded(cp), Unescape(raw))
  {
    hide Raw, Unescape, HexText;
    if !NeedsEscape(cp, f) {
      PlainUnescapes(cp, f, raw);
    } else if cp == BACKSLASH || cp == QUOTE || cp == SLASH {
      ShortEscapeUnescapes(cp, raw);
    } else if cp == 8 {
      ShortEscapeUnescapes(98, raw);
    } else if cp == 12 {
      ShortEscapeUnescapes(102, raw);
    } else if cp == 10 {
      ShortEscapeUnescapes(110, raw);
    } else if cp == 13 {
      ShortEscapeUnescapes(114, raw);
    } else if cp == 9 {
      ShortEscapeUnescapes(116, raw);
    } else if cp < 0x10000 {
      HexTextUnescapes(cp, raw);
    } else {
      SurrogatesUnescape(cp, raw);
    }
  }

  /** The lexer reads back exactly the characters that were printed. */
  lemma {:induction false} PrintAllUnescapes(cps: seq<int>, f: Flags)
    requires AllScalar(cps)
    ensures Raw(PrintAll(cps, f)) && Unescape(PrintAll(cps, f)) == Some(EncodeAll(cps))
  {
    hide Raw, Unescape, Print, Encode;
    if cps == [] {
      EmptyUnescapes();
    } else {
      PrintAllUnescapes(cps[1..], f);
      PrintUnescapes(cps[0], f, PrintAll(cps[1..], f));
    }
  }

  lemma EmptyUnescapes()
    ensures Raw([]) && Unescape([]) == Some([])
  {
  }

  // ----- the printed text itself

  /** Neither a control character nor, on request, anything but ASCII. */
  predicate Clean(s: Text, ascii: bool) {
    forall i :: 0 <= i < |s| ==> 0x20 <= s[i] && (ascii ==> s[i] < 0x80)
  }

  lemma {:induction false} HexTextIsClean(v: int)
    requires 0 <= v <= 0xFFFF
    ensures Clean(HexText(v), true)
  {
  }

  lemma {:induction false} EscapeTextIsClean(cp: int)
    requires Scalar(cp)
    ensures Clean(EscapeText(cp), true)
  {
    hide HexText;
    if cp < 0x10000 {
      HexTextIsClean(cp);
    } else {
      HexTextIsClean(0xD800 + (cp - 0x10000) / 1024);
      HexTextIsClean(0xDC00 + (cp - 0x10000) % 1024);
    }
  }

  /** Printed characters are well-formed, free of NUL, and plain ASCII on request. */
  lemma {:induction false} PrintIsClean(cp: int, f: Flags)
    requires Scalar(cp)
    ensures Valid(Print(cp, f)) && Clean(Print(cp, f), f.ensureAscii)
  {
    hide EscapeText;
    if NeedsEscape(cp, f) {
      EscapeTextIsClean(cp);
      AsciiIsValid(EscapeText(cp));
    } else {
      ValidEncodedThen(cp, []);
      assert Encoded(cp) + [] == Encoded(cp);
      if cp >= 0x80 {
        EncodedIsHigh(cp);
      }
    }
  }

  lemma {:induction false} AsciiIsValid(b: Text)
    requires AllAscii(b)
    ensures Valid(b)
    decreases |b|
  {
    if b != [] {
      AsciiIsValid(b[1..]);
      AsciiThen(b[0], b[1..]);
      assert b == [b[0]] + b[1..];
    }
  }

  lemma {:induction false} PrintAllIsClean(cps: seq<int>, f: Flags)
    requires AllScalar(cps)
    ensures Valid(PrintAll(cps, f)) && Clean(PrintAll(cps, f), f.ensureAscii)
  {
    hide Print, Iterate;
    if cps != [] {
      PrintIsClean(cps[0], f);
      PrintAllIsClean(cps[1..], f);
      ValidConcat(Print(cps[0], f), PrintAll(cps[1..], f));
    }
  }

  // ----- the loops

  /** decode_unicode_escape on the six bytes of an escape. */
  method DecodeEscape(s: Text) returns (value: int)
    requires HexEscape(s)
    ensures value == EscapeValue(s)
  {
    hide IsHex, HexValue;
    value := 0;
    var i := 2;
    while i < 6
      invariant 2 <= i <= 6
      invariant i == 2 ==> value == 0
      invariant i == 3 ==> value == HexAt(s, 2)
      invariant i == 4 ==> value == HexAt(s, 2) * 16 + HexAt(s, 3)
      invariant i == 5 ==> value == (HexAt(s, 2) * 16 + HexAt(s, 3)) * 16 + HexAt(s, 4)
      invariant i == 6 ==> value == EscapeValue(s)
    {
      value := value * 16 + HexAt(s, i);
      i := i + 1;
    }
  }

  function HexAt(s: Text, i: nat): int
    requires HexEscape(s) && 2 <= i < 6
  {
    HexValue(s[i])
  }

  /** Copies text into the buffer from position t on. */
  method Write(buffer: array<byte>, t: nat, text: Text)
    requires t + |text| <= buffer.Length
    modifies buffer
    ensures buffer[..t] == old(buffer[..t]) && buffer[t..t + |text|] == text
  {
    var i := 0;
    while i < |text|
      invariant 0 <= i <= |text|
      invariant buffer[..t] == old(buffer[..t]) && buffer[t..t + i] == text[..i]
    {
      buffer[t + i] := text[i];
      i := i + 1;
    }
  }

  lemma {:induction false} PlainStep(raw: Text)
    requires Raw(raw) && raw != [] && raw[0] != BACKSLASH
    ensures raw[0] != QUOTE && Raw(raw[1..]) && Unescape(raw) == Prepend([raw[0]], Unescape(raw[1..]))
  {
  }

  lemma {:induction false} ShortStep(raw: Text)
    requires Raw(raw) && raw != [] && raw[0] == BACKSLASH && !(|raw| > 1 && raw[1] == LOWER_U)
    ensures |raw| > 1 && IsShortEscape(raw[1])
    ensures Raw(raw[2..]) && Unescape(raw) == Prepend([Simple(raw[1])], Unescape(raw[2..]))
  {
  }

  lemma {:induction false} HexStep(raw: Text)
    requires Raw(raw) && |raw| > 1 && raw[0] == BACKSLASH && raw[1] == LOWER_U
    ensures HexEscape(raw) && Raw(raw[6..])
    ensures |raw| > 7 && raw[6] == BACKSLASH && raw[7] == LOWER_U <==> HexEscape(raw[6..])
    ensures EscapedChar(raw).None? ==> Unescape(raw).None?
    ensures EscapedChar(raw).Some? ==>
      var c := EscapedChar(raw).value;
      Raw(raw[c.length..]) && Unescape(raw) == Prepend(Encoded(c.cp), Unescape(raw[c.length..]))
  {
    hide EscapedChar;
    assert Raw(raw[6..]);
    if |raw| > 7 && raw[6] == BACKSLASH && raw[7] == LOWER_U {
      assert UnitLength(raw[6..]) > 0;
    }
    if EscapedChar(raw).Some? {
      RawAfterEscape(raw);
    }
  }

  /** The \uXXXX branch: one escape, or two that form a surrogate pair. */
  method ReadEscape(raw: Text) returns (c: Option<Char>)
    requires Raw(raw) && |raw| > 1 && raw[0] == BACKSLASH && raw[1] == LOWER_U
    ensures HexEscape(raw) && c == EscapedChar(raw)
  {
    hide EscapeValue, Unescape, Raw;
    HexStep(raw);
    var value := DecodeEscape(raw);
    if 0xD800 <= value <= 0xDBFF {
      if |raw| > 7 && raw[6] == BACKSLASH && raw[7] == LOWER_U {
        var value2 := DecodeEscape(raw[6..]);
        if 0xDC00 <= value2 <= 0xDFFF {
          return Some(Char((value - 0xD800) * 1024 + (value2 - 0xDC00) + 0x10000, 12));
        }
        return None;
      }
      return None;
    } else if 0xDC00 <= value <= 0xDFFF {
      return None;
    }
    return Some(Char(value, 6));
  }

  lemma {:induction false} WrittenText(before: Text, after: Text, t: nat, text: Text)
    requires t + |text| <= |after| && t <= |before| && after[..t] == before[..t] && after[t..t + |text|] == text
    ensures after[..t + |text|] == before[..t] + text
  {
    assert after[..t + |text|] == after[..t] + after[t..t + |text|];
  }

  /** The second pass of lex_scan_string over the saved literal, quotes
      included: it writes within the allocated buffer, and stops exactly at the
      closing quote the first pass found. */
  method DecodeLiteral(saved: Text) returns (value: Option<Text>)
    requires |saved| >= 2 && saved[0] == QUOTE && RawLength(saved[1..]) == Some(|saved| - 2)
    ensures Raw(saved[1..|saved| - 1]) && value == Unescape(saved[1..|saved| - 1])
  {
    hide Unescape, Raw, EscapeValue, Encode, HexEscape, EscapedChar, RawLength;
    var end := |saved| - 1;
    ghost var raw := saved[1..end];
    RawLengthIsRaw(saved[1..]);
    assert raw == saved[1..][..|saved| - 2];
    assert saved[end] == saved[1..][|saved| - 2] == QUOTE;
    var buffer := new byte[|saved| + 1];
    var p, t := 1, 0;
    PrependNothing(buffer[..0], Unescape(raw));
    while saved[p] != QUOTE
      invariant 1 <= p <= end && 0 <= t < p
      invariant Raw(saved[p..end])
      invariant Unescape(raw) == Prepend(buffer[..t], Unescape(saved[p..end]))
      decreases end - p
    {
      var rest := saved[p..end];
      ghost var done := buffer[..t];
      var text: Text;
      var length: nat;
      if saved[p] == BACKSLASH {
        if p + 1 < end && saved[p + 1] == LOWER_U {
          HexStep(rest);
          var c := ReadEscape(rest);
          if c.None? {
            return None;
          }
          text, length := Encode(c.value.cp).value, c.value.length;
          EscapeFits(c.value);
        } else {
          ShortStep(rest);
          text, length := [Simple(saved[p + 1])], 2;
        }
      } else {
        PlainStep(rest);
        text, length := [saved[p]], 1;
      }
      assert Unescape(rest) == Prepend(text, Unescape(rest[length..]));
      ghost var old_buffer := buffer[..];
      Write(buffer, t, text);
      WrittenText(old_buffer, buffer[..], t, text);
      PrependTwice(done, text, Unescape(rest[length..]));
      assert rest[length..] == saved[p + length..end];
      t := t + |text|;
      p := p + length;
    }
    StopsAtEnd(saved, p, end);
    assert buffer[..t] + [] == buffer[..t];
    value := Some(buffer[..t]);
    buffer[t] := 0;
  }

  lemma {:induction false} EscapeFits(c: Char)
    requires Scalar(c.cp) && ((c.length == 6 && c.cp <= 0xFFFF) || c.length == 12)
    ensures |Encoded(c.cp)| <= c.length
  {
  }

  lemma {:induction false} RawStart(saved: Text, p: nat, end: nat)
    requires p < end <= |saved| && Raw(saved[p..end])
    ensures saved[p] != QUOTE
  {
    assert saved[p..end][0] == saved[p];
  }

  /** Raw text does not start with a quote, so the pass is at its end. */
  lemma {:induction false} StopsAtEnd(saved: Text, p: nat, end: nat)
    requires p <= end < |saved| && saved[p] == QUOTE && Raw(saved[p..end])
    ensures p == end && Unescape(saved[p..end]) == Some([])
  {
    hide Raw;
    if p < end {
      RawStart(saved, p, end);
    }
  }

  /** dump_string: unescaped text is written in runs, from `str` to `pos`. */
  method DumpStringTo(b: Text, f: Flags) returns (out: Text, ok: bool)
    ensures Dumped(out, ok) == DumpString(b, f)
  {
    hide Iterate, Encode, EscapeText;
    out := [QUOTE];
    var str, pos := 0, 0;
    ghost var goal := DumpRest(b, [], f);
    assert b[0..] == b;
    while true
      invariant 0 <= str == pos <= |b|
      invariant
        var r := DumpRest(b[pos..], [], f);
        goal.ok == r.ok && [QUOTE] + goal.text == out + r.text
      decreases |b| - pos
    {
      var end := pos;
      var cp := 0;
      ghost var start := DumpRest(b[pos..], [], f);
      assert b[str..pos] == [];
      while end < |b|
        invariant str <= pos == end <= |b|
        invariant DumpRest(b[pos..], b[str..pos], f) == start
      {
        assert b[pos..] != [];
        var c := Iterate(b[pos..]);
        if c.None? {
          assert start == Dumped([], false);
          assert out + [] == out;
          return out, false;
        }
        IteratedIsEncoded(b[pos..]);
        end := pos + c.value.length;
        cp := c.value.cp;
        assert b[pos..][c.value.length..] == b[end..];
        assert b[pos..][..c.value.length] == b[pos..end];
        assert b[str..end] == b[str..pos] + b[pos..end];
        if NeedsEscape(cp, f) {
          break;
        }
        pos := end;
      }
      ghost var before := out;
      out := out + b[str..pos];
      if end == pos {
        assert b[pos..] == [];
        assert before + (b[str..pos] + [QUOTE]) == out + [QUOTE];
        break;
      }
      ghost var r := DumpRest(b[end..], [], f);
      assert start == Dumped(b[str..pos] + EscapeText(cp) + r.text, r.ok);
      assert before + (b[str..pos] + EscapeText(cp) + r.text) == out + EscapeText(cp) + r.text;
      out := out + EscapeText(cp);
      str, pos := end, end;
    }
    out := out + [QUOTE];
    ok := true;
  }
}
