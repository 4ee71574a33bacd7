/** The stream, the lexer and the parser as they run: a five-byte buffer that
    holds one character, one byte of pushback, text saved as it is read, and a
    recursion that keeps its depth in a field. */
module JsonLexer {
  import opened Options
  import opened OrderedMap
  import opened Bytes
  import opened Utf8
  import opened JsonStrings
  import opened JsonValues
  import opened JsonTokens
  import opened JsonDump
  import opened JsonParse

  const STATE_OK := 0
  const STATE_EOF := -1
  const STATE_ERROR := -2

  class Lexer {
    const data: Text
    const flags: LoadFlags
    /** The bytes taken from `data` by the buffer. */
    var taken: nat
    const buffer: array<byte>
    var bufferPos: nat
    var state: int
    /** The bytes of the character in the buffer. */
    ghost var held: nat
    /** The bytes handed out. */
    ghost var cur: nat
    var saved: Text
    var token: Token
    var depth: nat

    ghost predicate Valid()
      reads this`taken, this`bufferPos, this`state, this`held, this`cur, buffer
    {
      && NulFree(data)
      && buffer.Length == 5
      && cur <= Decodable(data)
      && (state == STATE_OK ==>
            && held < 5 && bufferPos <= held <= taken <= |data|
            && buffer[held] == 0
            && buffer[..held] == data[taken - held..taken]
            && cur + held == taken + bufferPos
            && taken + Decodable(data[taken..]) == Decodable(data))
      && (state == STATE_EOF ==> cur == Decodable(data) == |data|)
      && (state == STATE_ERROR ==> cur == Decodable(data) < |data|)
      && (state == STATE_OK || state == STATE_EOF || state == STATE_ERROR)
    }

    constructor (text: Text, lf: LoadFlags)
      requires NulFree(text)
      ensures Valid() && data == text && flags == lf && cur == 0 && fresh(buffer)
    {
      data, flags := text, lf;
      saved, token, depth := [], Invalid, 0;
      buffer := new byte[5](_ => 0);
      taken, bufferPos, held, cur := 0, 0, 0, 0;
      state := STATE_OK;
      new;
      assert data[0..] == data;
    }

    /** The decodable text not yet handed out. */
    ghost function Rest(): Text
      requires Valid()
      reads this`taken, this`bufferPos, this`state, this`held, this`cur, buffer
    {
      data[cur..Decodable(data)]
    }

    ghost predicate Bad() {
      Decodable(data) < |data|
    }

    /** string_get; EOF is repeated at the end of the text. */
    method Next() returns (c: int)
      requires taken <= |data| && NulFree(data)
      modifies this`taken
      ensures old(taken) < |data| ==> c == data[old(taken)] && taken == old(taken) + 1
      ensures old(taken) == |data| ==> c == -1 && taken == old(taken)
    {
      if taken == |data| {
        return -1;
      }
      c := data[taken];
      taken := taken + 1;
    }

    /** Reads the other bytes of a character of `count` bytes. */
    method TakeRest(count: nat)
      requires buffer.Length == 5 && NulFree(data) && 1 <= count < 5
      requires 0 < taken <= |data| && buffer[0] == data[taken - 1]
      modifies this`taken, buffer
      ensures Filled(buffer[..], data[old(taken) - 1..], count)
      ensures taken == if old(taken) - 1 + count <= |data| then old(taken) - 1 + count else |data|
    {
      ghost var here := data[taken - 1..];
      var i := 1;
      while i < count
        invariant 1 <= i <= count
        invariant taken == if old(taken) - 1 + i <= |data| then old(taken) - 1 + i else |data|
        invariant Filled(buffer[..], here, i)
      {
        var c := Next();
        buffer[i] := if c == -1 then 255 else c;
        i := i + 1;
      }
    }

    /** The buffer is refilled with the next character, or the stream ends. */
    method Refill()
      requires Valid() && state == STATE_OK && bufferPos == held
      modifies this`taken, this`bufferPos, this`state, this`held, buffer
      ensures Valid() && cur == old(cur)
      ensures state == STATE_OK ==> bufferPos == 0 < held
      ensures state == STATE_OK <==> cur < Decodable(data)
    {
      hide Decodable, Iterate, FullValue, NulFree, FirstLength;
      ghost var start := taken;
      ghost var here := data[start..];
      DecodableStep(data, start);
      var c := Next();
      if c == -1 {
        state := STATE_EOF;
        return;
      }
      buffer[0] := c;
      bufferPos := 0;
      var count := FirstLength(c);
      SingleByte(here);
      if c >= 0x80 {
        if count == 0 {
          state := STATE_ERROR;
          return;
        }
        TakeRest(count);
        var v := CheckFull(buffer[..], count);
        RefillAgrees(here, buffer[..], count);
        if v.None? {
          state := STATE_ERROR;
          return;
        }
      }
      FilledIsPrefix(buffer[..], here, count);
      assert data[taken - count..taken] == here[..count];
      held := count;
      buffer[count] := 0;
      assert buffer[..held] == here[..count];
    }

    /** The last byte handed out was c and can be pushed back. */
    ghost predicate CanUnget(c: int)
      reads this`bufferPos, this`state, this`cur
    {
      state == STATE_OK && bufferPos > 0 && 0 < cur <= |data| && c == data[cur - 1]
    }

    /** stream_get: the next byte of the longest decodable prefix, and after it
        EOF or an error for ever. */
    method Get() returns (c: int)
      requires Valid()
      modifies this`taken, this`bufferPos, this`state, this`held, this`cur, buffer
      ensures Valid()
      ensures old(Rest()) != [] ==> c == old(Rest())[0] && Rest() == old(Rest())[1..] && CanUnget(c)
      ensures old(Rest()) == [] ==> Rest() == [] && c == if Bad() then STATE_ERROR else STATE_EOF
    {
      hide Decodable, NulFree;
      if state != STATE_OK {
        return state;
      }
      BufferedIsNotNul(data, buffer[..], taken, held, bufferPos);
      if buffer[bufferPos] == 0 {
        Refill();
        if state != STATE_OK {
          return state;
        }
      }
      WithinPrefix(data, taken);
      c := buffer[bufferPos];
      assert c == buffer[..held][bufferPos] == data[cur];
      bufferPos := bufferPos + 1;
      cur := cur + 1;
    }

    /** stream_unget. */
    method Unget(c: int)
      requires Valid() && CanUnget(c)
      modifies this`bufferPos, this`cur
      ensures Valid() && Rest() == [c] + old(Rest())
    {
      hide Decodable, NulFree;
      bufferPos := bufferPos - 1;
      cur := cur - 1;
    }

    // ----- one byte of lookahead, saved as it is read

    /** c is the byte read last, or the mark at the end of the text. */
    ghost predicate Looking(c: int)
      reads this`taken, this`bufferPos, this`state, this`held, this`cur, this`saved, buffer
    {
      && Valid()
      && (c >= 0 ==> c < 256 && CanUnget(c) && saved != [] && saved[|saved| - 1] == c)
      && (c < 0 ==> Rest() == [])
    }

    /** The text from c on. */
    ghost function Ahead(c: int): (t: Text)
      requires Looking(c)
      reads this`taken, this`bufferPos, this`state, this`held, this`cur, this`saved, buffer
      ensures c >= 0 ==> c < 256 && t != [] && t[0] == c
      ensures c < 0 ==> t == []
    {
      if c >= 0 then [c] + Rest() else []
    }

    /** What was saved before c. */
    ghost function Kept(c: int): Text
      requires Looking(c)
      reads this`taken, this`bufferPos, this`state, this`held, this`cur, this`saved, buffer
    {
      if c >= 0 then saved[..|saved| - 1] else saved
    }

    /** lex_get_save. */
    method GetSave() returns (c: int)
      requires Valid()
      modifies this`taken, this`bufferPos, this`state, this`held, this`cur, this`saved, buffer
      ensures Looking(c) && Ahead(c) == old(Rest()) && Kept(c) == old(saved)
    {
      hide Decodable, NulFree;
      c := Get();
      if c >= 0 {
        saved := saved + [c];
        assert saved[..|saved| - 1] == old(saved);
      }
      assert old(Rest()) != [] ==> old(Rest()) == [c] + Rest();
    }

    /** Moves the lookahead on by one byte. */
    method Step(c: int) returns (d: int)
      requires Looking(c) && c >= 0
      modifies this`taken, this`bufferPos, this`state, this`held, this`cur, this`saved, buffer
      ensures Looking(d) && Ahead(d) == old(Ahead(c))[1..] && Kept(d) == old(Kept(c)) + [c]
    {
      hide Valid, CanUnget, Rest;
      assert Ahead(c)[1..] == Rest();
      assert saved == Kept(c) + [c];
      d := GetSave();
    }

    /** lex_unget_unsave. */
    method UngetUnsave(c: int)
      requires Looking(c)
      modifies this`bufferPos, this`cur, this`saved
      ensures Valid() && Rest() == old(Ahead(c)) && saved == old(Kept(c))
    {
      hide Decodable, NulFree;
      if c >= 0 {
        Unget(c);
        saved := saved[..|saved| - 1];
      }
    }

    // ----- strings

    /** After a backslash: one whole escape is read, or it is malformed. */
    method ScanEscape(c: int) returns (d: int, ok: bool)
      requires Looking(c) && c == BACKSLASH
      modifies this`taken, this`bufferPos, this`state, this`held, this`cur, this`saved, buffer
      ensures Looking(d)
      ensures
        var n := UnitLength(old(Ahead(c)));
        && ok == (n > 0)
        && (ok ==> Ahead(d) == old(Ahead(c))[n..] && Kept(d) == old(Kept(c)) + old(Ahead(c))[..n])
    {
      hide Valid, CanUnget, Rest, Looking, Ahead, Kept;
      ghost var u := Ahead(c);
      ghost var k := Kept(c);
      d := Step(c);
      if d == LOWER_U {
        d := Step(d);
        assert Kept(d) == k + u[..2];
        var i := 0;
        while i < 4
          invariant 0 <= i <= 4 && Looking(d)
          invariant |u| >= i + 2 && Ahead(d) == u[i + 2..] && Kept(d) == k + u[..i + 2]
          invariant forall j :: 2 <= j < i + 2 ==> IsHex(u[j])
        {
          if d < 0 || !IsHex(d) {
            assert u[i + 2..] == Ahead(d);
            assert !HexEscape(u);
            return d, false;
          }
          assert u[i + 2] == d;
          assert u[..i + 3] == u[..i + 2] + [d];
          d := Step(d);
          i := i + 1;
        }
        assert HexEscape(u);
        return d, true;
      } else if d >= 0 && IsShortEscape(d) {
        assert u[1] == d;
        assert k + u[..2] == k + [u[0]] + [u[1]];
        d := Step(d);
        return d, true;
      } else {
        assert |u| > 1 ==> u[1] == d;
        return d, false;
      }
    }

    /** The first pass of lex_scan_string: everything up to the closing quote is
        read and saved. */
    method FirstPass() returns (ok: bool)
      requires Valid() && saved == [QUOTE]
      modifies this`taken, this`bufferPos, this`state, this`held, this`cur, this`saved, buffer
      ensures Valid() && ok == RawLength(old(Rest())).Some?
      ensures ok ==>
        var n := RawLength(old(Rest())).value;
        saved == [QUOTE] + old(Rest())[..n] + [QUOTE] && Rest() == old(Rest())[n + 1..]
    {
      hide Valid, CanUnget, Rest, Looking, Ahead, Kept, RawLength, UnitLength;
      ghost var s := Rest();
      var c := GetSave();
      ghost var k := 0;
      StartOfLiteral(s);
      while c != QUOTE
        invariant Looking(c)
        invariant 0 <= k <= |s| && Ahead(c) == s[k..] && Kept(c) == [QUOTE] + s[..k]
        invariant RawLength(s) == Shifted(k, RawLength(s[k..]))
        decreases |s| - k
      {
        RawLengthStep(s, k);
        LookingIsValid(c);
        if c < 0 {
          return false;
        }
        assert s[k] == s[k..][0] == c;
        if c <= 0x1F {
          UngetUnsave(c);
          return false;
        } else if c == BACKSLASH {
          ghost var n := UnitLength(s[k..]);
          c, ok := ScanEscape(c);
          LookingIsValid(c);
          if !ok {
            return false;
          }
          NextPiece(s, k, n);
          k := k + n;
        } else {
          PlainUnit(s[k..]);
          NextPiece(s, k, 1);
          c := Step(c);
          k := k + 1;
        }
      }
      assert s[k] == s[k..][0] == QUOTE;
      RawLengthStep(s, k);
      LookingIsValid(c);
      LookingMeans(c);
      assert Rest() == Ahead(c)[1..] == s[k + 1..];
      ok := true;
    }

    /** lex_scan_string: the first pass finds the closing quote, the second
        decodes the saved text. */
    method ScanString()
      requires Valid() && saved == [QUOTE]
      modifies this`taken, this`bufferPos, this`state, this`held, this`cur, this`saved, this`token, buffer
      ensures Valid() && token == LexString(old(Rest())).token
      ensures token.Invalid? || Rest() == LexString(old(Rest())).rest
    {
      hide Valid, Rest, RawLength, Unescape, Raw;
      ghost var s := Rest();
      token := Invalid;
      var ok := FirstPass();
      if ok {
        ghost var n := RawLength(s).value;
        RawLengthIsRaw(s);
        RawThenQuote(s[..n], []);
        assert s[..n] + [QUOTE] + [] == saved[1..];
        assert saved[1..|saved| - 1] == s[..n];
        var value := DecodeLiteral(saved);
        if value.Some? {
          token := Str(value.value);
        }
      }
    }

    // ----- numbers and words

    /** Reads on while the lookahead is a digit. */
    method ScanDigits(c: int) returns (d: int)
      requires Looking(c)
      modifies this`taken, this`bufferPos, this`state, this`held, this`cur, this`saved, buffer
      ensures Looking(d)
      ensures
        var n := DigitCount(old(Ahead(c)));
        Ahead(d) == old(Ahead(c))[n..] && Kept(d) == old(Kept(c)) + old(Ahead(c))[..n]
    {
      hide Valid, CanUnget, Rest, Looking, Ahead, Kept;
      ghost var u := Ahead(c);
      ghost var k := Kept(c);
      ghost var n := 0;
      d := c;
      assert u[0..] == u && k + u[..0] == k;
      while d >= 0 && IsDigit(d)
        invariant Looking(d) && 0 <= n <= |u| && Ahead(d) == u[n..] && Kept(d) == k + u[..n]
        invariant DigitCount(u) == n + DigitCount(u[n..])
        decreases |u| - n
      {
        assert u[n..][0] == d;
        assert u[n..][1..] == u[n + 1..];
        assert k + u[..n] + [d] == k + u[..n + 1];
        d := Step(d);
        n := n + 1;
      }
      assert DigitCount(u[n..]) == 0 by {
        if u[n..] != [] {
          assert u[n..][0] == d;
        }
      }
    }

    method ScanLetters(c: int) returns (d: int)
      requires Looking(c)
      modifies this`taken, this`bufferPos, this`state, this`held, this`cur, this`saved, buffer
      ensures Looking(d)
      ensures
        var n := AlphaCount(old(Ahead(c)));
        Ahead(d) == old(Ahead(c))[n..] && Kept(d) == old(Kept(c)) + old(Ahead(c))[..n]
    {
      hide Valid, CanUnget, Rest, Looking, Ahead, Kept;
      ghost var u := Ahead(c);
      ghost var k := Kept(c);
      ghost var n := 0;
      d := c;
      assert u[0..] == u && k + u[..0] == k;
      while d >= 0 && IsAlpha(d)
        invariant Looking(d) && 0 <= n <= |u| && Ahead(d) == u[n..] && Kept(d) == k + u[..n]
        invariant AlphaCount(u) == n + AlphaCount(u[n..])
        decreases |u| - n
      {
        assert u[n..][0] == d;
        assert u[n..][1..] == u[n + 1..];
        assert k + u[..n] + [d] == k + u[..n + 1];
        d := Step(d);
        n := n + 1;
      }
      assert AlphaCount(u[n..]) == 0 by {
        if u[n..] != [] {
          assert u[n..][0] == d;
        }
      }
    }

    /** The sign and digits of a number. */
    method ScanInteger(c: int) returns (e: int, ok: bool)
      requires Looking(c) && c >= 0 && (IsDigit(c) || c == MINUS) && Kept(c) == []
      modifies this`taken, this`bufferPos, this`state, this`held, this`cur, this`saved, buffer
      ensures Looking(e) && ok == (IntegerLength(old(Ahead(c))) > 0)
      ensures ok ==>
        var n := IntegerLength(old(Ahead(c)));
        Ahead(e) == old(Ahead(c))[n..] && Kept(e) == old(Ahead(c))[..n]
    {
      hide Valid, CanUnget, Rest, DigitCount, Looking, Ahead, Kept;
      ghost var u := Ahead(c);
      ghost var i := if u[0] == MINUS then 1 else 0;
      ghost var d := DigitCount(u[i..]);
      e := c;
      if e == MINUS {
        e := Step(e);
      }
      assert Ahead(e) == u[i..] && Kept(e) == u[..i];
      DigitCountStart(u[i..]);
      if e == ZERO {
        e := Step(e);
        assert u[i..][1..] == u[i + 1..] && u[..i] + [ZERO] == u[..i + 1];
        if e >= 0 && IsDigit(e) {
          assert u[i + 1] == u[i + 1..][0] == e;
          return e, false;
        }
        assert u[i + 1..] != [] ==> u[i + 1] == u[i + 1..][0] == e;
        assert d == 1;
        return e, true;
      } else if e >= 0 && IsDigit(e) {
        e := ScanDigits(e);
        assert u[i..][d..] == u[i + d..] && u[..i] + u[i..][..d] == u[..i + d];
        return e, true;
      } else {
        return e, false;
      }
    }

    /** lex_scan_number; what turns out to be a real is not modelled further. */
    method ScanNumber(c: int)
      requires Looking(c) && c >= 0 && (IsDigit(c) || c == MINUS) && Kept(c) == []
      modifies this`taken, this`bufferPos, this`state, this`held, this`cur, this`saved, this`token, buffer
      ensures Valid() && token == LexNumber(old(Ahead(c))).token
      ensures token.Invalid? || Rest() == LexNumber(old(Ahead(c))).rest
    {
      hide Valid, CanUnget, Rest, Looking, Ahead, Kept, IntegerLength, IntValue, IsIntText;
      ghost var u := Ahead(c);
      token := Invalid;
      var e, ok := ScanInteger(c);
      ghost var n := IntegerLength(u);
      LookingIsValid(e);
      if !ok {
        UngetUnsave(e);
        return;
      }
      assert e >= 0 ==> u[n] == u[n..][0] == e;
      if e != DOT && e != 69 && e != 101 {
        UngetUnsave(e);
        NumberIsDigits(u);
        var v := IntValue(saved);
        if INT_MIN <= v <= INT_MAX {
          token := Int(v);
        }
      }
    }

    /** The letters of lex_scan, which make a keyword or nothing. */
    method ScanWord(c: int)
      requires Looking(c) && Kept(c) == []
      modifies this`taken, this`bufferPos, this`state, this`held, this`cur, this`saved, this`token, buffer
      ensures Valid() && token == LexWord(old(Ahead(c))).token
      ensures Rest() == LexWord(old(Ahead(c))).rest
    {
      hide Valid, CanUnget, Rest, Looking, Ahead, Kept, AlphaCount;
      var d := ScanLetters(c);
      UngetUnsave(d);
      token := if saved == TRUE_TEXT then TrueToken
               else if saved == FALSE_TEXT then FalseToken
               else if saved == NULL_TEXT then NullToken
               else Invalid;
    }

    // ----- tokens

    /** lex_scan. */
    method Scan()
      requires Valid()
      modifies this`taken, this`bufferPos, this`state, this`held, this`cur, this`saved, this`token, buffer
      ensures Valid() && token == Lex(old(Rest()), Bad()).token
      ensures token.Invalid? || Rest() == Lex(old(Rest()), Bad()).rest
    {
      hide Valid, CanUnget, Rest, LexString, LexNumber, LexWord;
      ghost var s := Rest();
      saved := [];
      var c := SkipBlanks();
      ghost var t := SkipSpace(s);
      if c == STATE_EOF {
        token := Eof;
        return;
      }
      if c == STATE_ERROR {
        token := Invalid;
        return;
      }
      Save(c);
      assert Ahead(c) == t;
      LookingIsValid(c);
      if IsPunct(c) {
        token := Punct(c);
        assert Rest() == t[1..];
      } else if c == QUOTE {
        assert Rest() == t[1..];
        assert saved == [QUOTE];
        ScanString();
      } else if IsDigit(c) || c == MINUS {
        ScanNumber(c);
      } else if IsAlpha(c) {
        ScanWord(c);
      } else {
        token := Invalid;
      }
    }

    /** The loop of lex_scan over white space. */
    method SkipBlanks() returns (c: int)
      requires Valid() && saved == []
      modifies this`taken, this`bufferPos, this`state, this`held, this`cur, buffer
      ensures Valid()
      ensures
        var t := SkipSpace(old(Rest()));
        if t == [] then Rest() == [] && c == (if Bad() then STATE_ERROR else STATE_EOF)
        else c == t[0] && Rest() == t[1..] && CanUnget(c)
    {
      hide Valid, CanUnget, Rest;
      ghost var s := Rest();
      c := Get();
      while c >= 0 && IsSpace(c)
        invariant Valid()
        invariant c >= 0 ==> c < 256 && CanUnget(c) && SkipSpace([c] + Rest()) == SkipSpace(s)
        invariant c < 0 ==> Rest() == [] && SkipSpace(s) == [] && c == (if Bad() then STATE_ERROR else STATE_EOF)
        decreases if c >= 0 then 1 + |Rest()| else 0
      {
        ghost var r := Rest();
        assert ([c] + r)[1..] == r;
        c := Get();
        assert r != [] ==> r == [c] + Rest();
      }
      if c >= 0 {
        assert ([c] + Rest())[1..] == Rest();
      }
    }

    /** lex_save of the byte read last. */
    method Save(c: int)
      requires Valid() && 0 <= c < 256 && CanUnget(c) && saved == []
      modifies this`saved
      ensures Looking(c) && Ahead(c) == [c] + Rest() && Kept(c) == []
    {
      saved := [c];
    }

    // ----- the parser

    /** The tokens after the current one. */
    ghost function Tokens(): (ts: seq<Token>)
      requires Valid()
      reads this`taken, this`bufferPos, this`state, this`held, this`cur, buffer
      ensures ts != []
    {
      LexAll(Rest(), Bad())
    }

    /** The tokens from the current one on. */
    ghost function Queue(): (ts: seq<Token>)
      requires Valid()
      reads this`taken, this`bufferPos, this`state, this`held, this`cur, this`token, buffer
      ensures ts != [] && ts[0] == token
    {
      if token.Eof? || token.Invalid? then [token] else [token] + Tokens()
    }

    /** lex_scan, seen from the parser. */
    method Advance()
      requires Valid()
      modifies this`taken, this`bufferPos, this`state, this`held, this`cur, this`saved, this`token, buffer
      ensures Valid() && Queue() == old(Tokens())
    {
      hide Valid, Rest, Lex;
      Scan();
    }

    method ParseValueHere() returns (r: Option<Value>)
      requires Valid()
      modifies this`taken, this`bufferPos, this`state, this`held, this`cur, this`saved, this`token, this`depth, buffer
      ensures Valid()
      ensures Agrees(r, ParseValue(old(Queue()), old(depth), flags), Tokens(), depth, old(depth))
      decreases |Queue()|, 1
    {
      hide Valid, Rest, LexAll, Tokens, ParseMembers, ParseElems, NulFree;
      ghost var q := Queue();
      assert !token.Eof? && !token.Invalid? ==> q[1..] == Tokens();
      depth := depth + 1;
      if depth > MAX_DEPTH {
        return None;
      }
      match token {
        case Str(b) =>
          if !flags.allowNul && !NulFree(b) {
            return None;
          }
          r := Some(String(b));
        case Int(i) => r := Some(Integer(i));
        case TrueToken => r := Some(True);
        case FalseToken => r := Some(False);
        case NullToken => r := Some(Null);
        case Punct(c) =>
          if c == OPEN_BRACE {
            r := ParseObjectHere();
          } else if c == OPEN_BRACKET {
            r := ParseArrayHere();
          } else {
            return None;
          }
        case Invalid => return None;
        case Eof => return None;
      }
      if r.None? {
        return None;
      }
      depth := depth - 1;
    }

    method ParseArrayHere() returns (r: Option<Value>)
      requires Valid() && token == Punct(OPEN_BRACKET)
      modifies this`taken, this`bufferPos, this`state, this`held, this`cur, this`saved, this`token, this`depth, buffer
      ensures Valid()
      ensures Agrees(r, ParseArrayFrom(old(Tokens()), old(depth), flags), Tokens(), depth, old(depth))
      decreases |Queue()|, 0
    {
      hide Valid, Rest, LexAll, Tokens, ParseValue;
      ghost var ts := Tokens();
      ghost var d := depth;
      assert |Queue()| == 1 + |ts|;
      Advance();
      QueueMeans();
      if token == Punct(CLOSE_BRACKET) {
        assert ts[1..] == Tokens();
        return Some(Array([]));
      }
      var elems: seq<Value> := [];
      while !token.Eof?
        invariant Valid() && depth == d && |Queue()| <= |ts|
        invariant ParseElems(elems, Queue(), d, flags) == ParseElems([], ts, d, flags)
        decreases |Queue()|
      {
        ghost var q := Queue();
        ghost var p := ParseValue(q, d, flags);
        var elem := ParseValueHere();
        if elem.None? {
          return None;
        }
        elems := elems + [elem.value];
        Advance();
        QueueMeans();
        assert Queue() == p.rest;
        if token != Punct(COMMA) {
          if token != Punct(CLOSE_BRACKET) {
            return None;
          }
          assert p.rest[1..] == Tokens();
          return Some(Array(elems));
        }
        assert p.rest[1..] == Tokens();
        Advance();
      }
      EofFails(Queue(), d, flags);
      r := None;
    }

    method ParseObjectHere() returns (r: Option<Value>)
      requires Valid() && token == Punct(OPEN_BRACE)
      modifies this`taken, this`bufferPos, this`state, this`held, this`cur, this`saved, this`token, this`depth, buffer
      ensures Valid()
      ensures Agrees(r, ParseObjectFrom(old(Tokens()), old(depth), flags), Tokens(), depth, old(depth))
      decreases |Queue()|, 0
    {
      hide Valid, Rest, LexAll, Tokens, ParseValue, NulFree, OrderedMap.Get, OrderedMap.Set;
      ghost var ts := Tokens();
      ghost var d := depth;
      assert |Queue()| == 1 + |ts|;
      Advance();
      QueueMeans();
      if token == Punct(CLOSE_BRACE) {
        assert ts[1..] == Tokens();
        return Some(Object([]));
      }
      var members: Members := [];
      while true
        invariant Valid() && depth == d && |Queue()| <= |ts|
        invariant ParseMembers(members, Queue(), d, flags) == ParseMembers([], ts, d, flags)
        decreases |Queue()|
      {
        ghost var q := Queue();
        QueueMeans();
        if !token.Str? {
          return None;
        }
        var key := token.text;
        if !NulFree(key) {
          return None;
        }
        if flags.rejectDuplicates && OrderedMap.Get(members, key).Some? {
          return None;
        }
        Advance();
        QueueMeans();
        assert q[1..] == Queue() && q[1] == token;
        if token != Punct(COLON) {
          return None;
        }
        Advance();
        assert q[2..] == Queue();
        ghost var p := ParseValue(q[2..], d, flags);
        var value := ParseValueHere();
        if value.None? {
          return None;
        }
        members := OrderedMap.Set(members, key, value.value);
        Advance();
        QueueMeans();
        assert Queue() == p.rest;
        if token != Punct(COMMA) {
          if token != Punct(CLOSE_BRACE) {
            return None;
          }
          assert p.rest[1..] == Tokens();
          return Some(Object(members));
        }
        assert p.rest[1..] == Tokens();
        Advance();
      }
    }

    lemma QueueMeans()
      requires Valid()
      ensures !token.Eof? && !token.Invalid? ==> |Queue()| >= 2 && Queue()[1..] == Tokens()
    {
    }

    /** json_loads: what the running parser returns is what the text means. */
    method Load() returns (r: Option<Value>)
      requires Valid() && cur == 0
      modifies this`taken, this`bufferPos, this`state, this`held, this`cur, this`saved, this`token, this`depth, buffer
      ensures Valid() && r == Loads(data, flags)
    {
      hide Valid, LexAll, ParseValue, Decodable;
      depth := 0;
      assert Rest() == data[..Decodable(data)] by {
        StartsAtZero();
      }
      hide Rest;
      ghost var ts := Tokens();
      Advance();
      if !flags.decodeAny {
        if token != Punct(OPEN_BRACKET) && token != Punct(OPEN_BRACE) {
          return None;
        }
      }
      r := ParseValueHere();
      if r.None? {
        return None;
      }
      if !flags.disableEofCheck {
        Advance();
        if !token.Eof? {
          return None;
        }
      }
    }

    lemma StartsAtZero()
      requires Valid() && cur == 0
      ensures Rest() == data[..Decodable(data)]
    {
    }

    lemma LookingMeans(c: int)
      requires Looking(c) && c >= 0
      ensures saved == Kept(c) + [c] && Valid() && Ahead(c) == [c] + Rest()
    {
    }

    lemma LookingIsValid(c: int)
      requires Looking(c)
      ensures Valid()
    {
    }
  }

  /** A zero byte in the buffer can only be the one after the character. */
  lemma {:induction false} BufferedIsNotNul(data: Text, b: Text, taken: nat, held: nat, pos: nat)
    requires NulFree(data) && held <= taken <= |data| && pos <= held < |b| && b[held] == 0
    requires b[..held] == data[taken - held..taken]
    ensures b[pos] == 0 <==> pos == held
  {
    if pos < held {
      assert b[pos] == b[..held][pos] == data[taken - held + pos];
    }
  }

  lemma {:induction false} WithinPrefix(data: Text, taken: nat)
    requires taken <= |data| && taken + Decodable(data[taken..]) == Decodable(data)
    ensures taken <= Decodable(data) <= |data|
  {
  }

  /** b starts with the next n bytes of the text, 0xFF standing for its end. */
  ghost predicate Filled(b: Text, here: Text, n: nat) {
    n <= |b| && forall j :: 0 <= j < n ==> b[j] == if j < |here| then here[j] else 255
  }

  lemma {:induction false} FilledIsPrefix(b: Text, here: Text, n: nat)
    requires Filled(b, here, n) && n <= |here|
    ensures b[..n] == here[..n]
  {
  }

  lemma {:induction false} SingleByte(here: Text)
    requires here != []
    ensures FirstLength(here[0]) <= 4
    ensures here[0] < 0x80 ==> Iterate(here).Some? && Iterate(here).value.length == FirstLength(here[0]) == 1
    ensures here[0] >= 0x80 ==> FirstLength(here[0]) != 1
    ensures FirstLength(here[0]) == 0 ==> Iterate(here).None?
  {
  }

  lemma {:induction false} DecodableStep(data: Text, start: nat)
    requires start <= |data|
    ensures start == |data| ==> Decodable(data[start..]) == 0
    ensures start < |data| && Iterate(data[start..]).None? ==> Decodable(data[start..]) == 0
    ensures start < |data| && Iterate(data[start..]).Some? ==>
      var n := Iterate(data[start..]).value.length;
      0 < n <= |data| - start && Decodable(data[start..]) == n + Decodable(data[start + n..])
  {
    hide Iterate;
    if start < |data| && Iterate(data[start..]).Some? {
      var n := Iterate(data[start..]).value.length;
      assert data[start..][n..] == data[start + n..];
    }
  }

  /** Reading past the end yields 0xFF, which no character continues with. */
  lemma {:induction false} RefillAgrees(here: Text, b: Text, count: nat)
    requires here != [] && 2 <= count && FirstLength(here[0]) == count && Filled(b, here, count)
    ensures FullValue(b, count).Some? <==> Iterate(here).Some?
    ensures Iterate(here).Some? ==> count <= |here| && Iterate(here).value.length == count
  {
    if count <= |here| {
      FilledIsPrefix(b, here, count);
      SameAccumulated(here, b, count, count);
    } else if Accumulated(b, count, count).Some? {
      ContinuationBytes(b, count, count, |here|);
    }
  }

  lemma {:induction false} SameAccumulated(a: Text, b: Text, n: nat, i: nat)
    requires 1 <= i <= |a| && i <= |b| && a[..i] == b[..i]
    ensures Accumulated(a, n, i) == Accumulated(b, n, i)
    decreases i
  {
    assert a[i - 1] == a[..i][i - 1] == b[..i][i - 1] == b[i - 1];
    if i > 1 {
      assert a[..i - 1] == a[..i][..i - 1] == b[..i][..i - 1] == b[..i - 1];
      SameAccumulated(a, b, n, i - 1);
    }
  }

  function Shifted(k: nat, r: Option<nat>): Option<nat> {
    if r.None? then None else Some(k + r.value)
  }

  /** How far the first pass gets from position k. */
  lemma {:induction false} RawLengthStep(s: Text, k: nat)
    requires k <= |s| && RawLength(s) == Shifted(k, RawLength(s[k..]))
    ensures k == |s| ==> RawLength(s).None?
    ensures k < |s| && s[k] == QUOTE ==> RawLength(s) == Some(k)
    ensures k < |s| && s[k] != QUOTE ==> UnitStep(s, k, UnitLength(s[k..]))
  {
    hide RawLength, UnitLength;
    var u := s[k..];
    FirstUnit(u);
    if u != [] && u[0] != QUOTE {
      var n := UnitLength(u);
      assert u[n..] == s[k + n..];
    }
  }

  ghost predicate UnitStep(s: Text, k: nat, n: nat)
    requires k < |s|
  {
    && (n == 0 ==> RawLength(s).None?)
    && (s[k] < 0x20 ==> n == 0)
    && (n > 0 ==> k + n <= |s| && RawLength(s) == Shifted(k + n, RawLength(s[k + n..])))
  }

  lemma {:induction false} FirstUnit(u: Text)
    ensures u == [] ==> RawLength(u).None?
    ensures u != [] && u[0] == QUOTE ==> RawLength(u) == Some(0)
    ensures u != [] && u[0] != QUOTE ==>
      RawLength(u) == (if UnitLength(u) == 0 then None else Shifted(UnitLength(u), RawLength(u[UnitLength(u)..])))
    ensures u != [] && u[0] < 0x20 ==> UnitLength(u) == 0
  {
  }

  lemma {:induction false} DigitCountStart(u: Text)
    ensures u == [] || !IsDigit(u[0]) ==> DigitCount(u) == 0
    ensures u != [] && IsDigit(u[0]) ==> DigitCount(u) > 0
    ensures |u| > 1 && IsDigit(u[0]) && IsDigit(u[1]) ==> DigitCount(u) > 1
    ensures u != [] && IsDigit(u[0]) && (|u| == 1 || !IsDigit(u[1])) ==> DigitCount(u) == 1
  {
  }

  lemma {:induction false} StartOfLiteral(s: Text)
    ensures s[0..] == s && s[..0] == []
    ensures RawLength(s) == Shifted(0, RawLength(s[0..]))
    ensures [QUOTE] + s[..0] == [QUOTE]
  {
  }

  lemma {:induction false} NextPiece(s: Text, k: nat, n: nat)
    requires k + n <= |s|
    ensures s[k..][n..] == s[k + n..]
    ensures [QUOTE] + s[..k] + s[k..][..n] == [QUOTE] + s[..k + n]
    ensures n == 1 ==> s[k..][..n] == [s[k]]
  {
  }

  lemma {:induction false} PlainUnit(u: Text)
    requires u != [] && u[0] >= 0x20 && u[0] != QUOTE && u[0] != BACKSLASH
    ensures UnitLength(u) == 1
  {
  }

  /** A parser method returned what the parser function says. */
  ghost predicate Agrees(r: Option<Value>, p: Parsed, tokens: seq<Token>, depth: nat, oldDepth: nat) {
    if p.Fail? then r.None? else r == Some(p.value) && tokens == p.rest && depth == oldDepth
  }

  function ParseArrayFrom(ts: seq<Token>, depth: nat, lf: LoadFlags): Parsed {
    if Peek(ts) == Punct(CLOSE_BRACKET) then Ok(Array([]), ts[1..]) else ParseElems([], ts, depth, lf)
  }

  function ParseObjectFrom(ts: seq<Token>, depth: nat, lf: LoadFlags): Parsed {
    if Peek(ts) == Punct(CLOSE_BRACE) then Ok(Object([]), ts[1..]) else ParseMembers([], ts, depth, lf)
  }

  lemma {:induction false} EofFails(ts: seq<Token>, depth: nat, lf: LoadFlags)
    requires ts != [] && ts[0].Eof?
    ensures ParseValue(ts, depth, lf).Fail?
  {
  }
}
