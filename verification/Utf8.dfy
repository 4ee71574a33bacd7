/** UTF-8 encoding, decoding and checking (sections 3 and 4 of RFC 3629). */
module Utf8 {
  import opened Options
  import opened Bytes

  type Text = seq<byte>

  /** A Unicode scalar value: a code point that is not a surrogate half. */
  predicate Scalar(cp: int) {
    0 <= cp <= 0x10FFFF && !(0xD800 <= cp <= 0xDFFF)
  }

  // ----- encoding

  /** utf8_encode: what is written to the buffer, or None for its error return. */
  function Encode(cp: int): (r: Option<Text>)
    ensures r.Some? <==> 0 <= cp <= 0x10FFFF
    ensures r.Some? ==> 1 <= |r.value| <= 4
  {
    if cp < 0 then None
    else if cp < 0x80 then Some([cp])
    else if cp < 0x800 then Some([0xC0 + cp / 64 % 32, 0x80 + cp % 64])
    else if cp < 0x10000 then Some([0xE0 + cp / 4096 % 16, 0x80 + cp / 64 % 64, 0x80 + cp % 64])
    else if cp <= 0x10FFFF then
      Some([0xF0 + cp / 262144 % 8, 0x80 + cp / 4096 % 64, 0x80 + cp / 64 % 64, 0x80 + cp % 64])
    else None
  }

  function Encoded(cp: int): Text
    requires Scalar(cp)
  {
    Encode(cp).value
  }

  // ----- decoding one character

  /** utf8_check_first: the length a first byte announces, 0 if it cannot be one. */
  function FirstLength(u: byte): nat {
    if u < 0x80 then 1
    else if u <= 0xC1 then 0
    else if u <= 0xDF then 2
    else if u <= 0xEF then 3
    else if u <= 0xF4 then 4
    else 0
  }

  predicate Continuation(u: byte) {
    0x80 <= u <= 0xBF
  }

  /** The bits a lead byte of an n-byte sequence contributes. */
  function LeadBits(u: byte, n: nat): int {
    if n == 2 then u % 32 else if n == 3 then u % 16 else u % 8
  }

  /** The value accumulated over the continuation bytes b[1..i], if all are such. */
  function Accumulated(b: Text, n: nat, i: nat): Option<int>
    requires 1 <= i <= |b|
  {
    if i == 1 then Some(LeadBits(b[0], n))
    else
      var v := Accumulated(b, n, i - 1);
      if v.None? || !Continuation(b[i - 1]) then None else Some(v.value * 64 + b[i - 1] % 64)
  }

  /** The range and overlong tests that end utf8_check_full. */
  predicate Acceptable(v: int, n: nat) {
    && v <= 0x10FFFF
    && !(0xD800 <= v <= 0xDFFF)
    && !((n == 2 && v < 0x80) || (n == 3 && v < 0x800) || (n == 4 && v < 0x10000))
  }

  function FullValue(b: Text, n: nat): Option<int>
    requires 2 <= n <= 4 && n <= |b|
  {
    var v := Accumulated(b, n, n);
    if v.Some? && Acceptable(v.value, n) then v else None
  }

  datatype Char = Char(cp: int, length: nat)

  /** utf8_iterate on a non-empty buffer. */
  function Iterate(b: Text): (r: Option<Char>)
    requires b != []
    ensures r.Some? ==> 1 <= r.value.length <= |b|
  {
    var n := FirstLength(b[0]);
    if n == 0 then None
    else if n == 1 then Some(Char(b[0], 1))
    else if n > |b| then None
    else match FullValue(b, n)
         case None => None
         case Some(v) => Some(Char(v, n))
  }

  // ----- encoding and decoding are inverse

  function Join2(x: int, y: int): int { x % 32 * 64 + y % 64 }
  function Join3(x: int, y: int, z: int): int { (x % 16 * 64 + y % 64) * 64 + z % 64 }
  function Join4(x: int, y: int, z: int, w: int): int { ((x % 8 * 64 + y % 64) * 64 + z % 64) * 64 + w % 64 }

  lemma {:induction false} Accumulated2(b: Text)
    requires |b| >= 2
    ensures Accumulated(b, 2, 2) == if Continuation(b[1]) then Some(Join2(b[0], b[1])) else None
  {
    assert Accumulated(b, 2, 1) == Some(LeadBits(b[0], 2));
  }

  lemma {:induction false} Accumulated3(b: Text)
    requires |b| >= 3
    ensures Accumulated(b, 3, 3) ==
      if Continuation(b[1]) && Continuation(b[2]) then Some(Join3(b[0], b[1], b[2])) else None
  {
    assert Accumulated(b, 3, 1) == Some(LeadBits(b[0], 3));
    assert Accumulated(b, 3, 2).Some? <==> Continuation(b[1]);
  }

  lemma {:induction false} Accumulated4(b: Text)
    requires |b| >= 4
    ensures Accumulated(b, 4, 4) ==
      if Continuation(b[1]) && Continuation(b[2]) && Continuation(b[3])
      then Some(Join4(b[0], b[1], b[2], b[3]))
      else None
  {
    assert Accumulated(b, 4, 1) == Some(LeadBits(b[0], 4));
    assert Accumulated(b, 4, 2).Some? <==> Continuation(b[1]);
    assert Accumulated(b, 4, 3).Some? <==> Continuation(b[1]) && Continuation(b[2]);
  }

  lemma {:induction false} Encode3Joins(cp: int)
    requires 0x800 <= cp < 0x10000
    ensures Join3(0xE0 + cp / 4096 % 16, 0x80 + cp / 64 % 64, 0x80 + cp % 64) == cp
  {
    var q := cp / 64;
    assert cp / 4096 == q / 64;
  }

  lemma {:induction false} Encode4Joins(cp: int)
    requires 0x10000 <= cp <= 0x10FFFF
    ensures Join4(0xF0 + cp / 262144 % 8, 0x80 + cp / 4096 % 64, 0x80 + cp / 64 % 64, 0x80 + cp % 64) == cp
  {
    hide *;
    var q := cp / 64;
    var r := q / 64;
    assert cp / 4096 == r;
    assert cp / 262144 == r / 64;
    Join4Of(r / 64, r % 64, q % 64, cp % 64);
  }

  lemma {:induction false} Join4Of(x: int, y: int, z: int, w: int)
    requires 0 <= x < 8 && 0 <= y < 64 && 0 <= z < 64 && 0 <= w < 64
    ensures Join4(0xF0 + x % 8, 0x80 + y % 64, 0x80 + z % 64, 0x80 + w % 64) == ((x * 64 + y) * 64 + z) * 64 + w
  {
    assert (0xF0 + x % 8) % 8 == x && (0x80 + y % 64) % 64 == y && (0x80 + z % 64) % 64 == z
      && (0x80 + w % 64) % 64 == w;
  }

  lemma {:induction false} IterateEncoded(cp: int, rest: Text)
    requires Scalar(cp)
    ensures Iterate(Encoded(cp) + rest) == Some(Char(cp, |Encoded(cp)|))
  {
    hide Accumulated, Join2, Join3, Join4;
    var b := Encoded(cp) + rest;
    if cp < 0x80 {
    } else if cp < 0x800 {
      Accumulated2(b);
      Encode2Joins(cp);
    } else if cp < 0x10000 {
      Accumulated3(b);
      Encode3Joins(cp);
    } else {
      Accumulated4(b);
      Encode4Joins(cp);
    }
  }

  lemma {:induction false} Encode2Joins(cp: int)
    requires 0x80 <= cp < 0x800
    ensures Join2(0xC0 + cp / 64 % 32, 0x80 + cp % 64) == cp
  {
  }

  /** Only scalar values in their one encoding are accepted: nothing overlong,
      no surrogate half, nothing above U+10FFFF. */
  lemma {:induction false} IteratedIsEncoded(b: Text)
    requires b != [] && Iterate(b).Some?
    ensures Scalar(Iterate(b).value.cp)
    ensures b[..Iterate(b).value.length] == Encoded(Iterate(b).value.cp)
  {
    hide Accumulated, Encode, Join2, Join3, Join4;
    var c := Iterate(b).value;
    if c.length == 1 {
      EncodeOne(b[0]);
    } else if c.length == 2 {
      Accumulated2(b);
      TwoBytes(b[0], b[1]);
    } else if c.length == 3 {
      Accumulated3(b);
      ThreeBytes(b[0], b[1], b[2]);
    } else {
      Accumulated4(b);
      FourBytes(b[0], b[1], b[2], b[3]);
    }
  }

  lemma EncodeOne(x: byte)
    requires x < 0x80
    ensures Encode(x) == Some([x])
  {
  }

  lemma {:induction false} TwoBytes(x: byte, y: byte)
    requires FirstLength(x) == 2 && Continuation(y) && Acceptable(Join2(x, y), 2)
    ensures Scalar(Join2(x, y)) && Encode(Join2(x, y)) == Some([x, y])
  {
    var p, q := x - 0xC0, y - 0x80;
    LeadRemainder(x, 32);
    TailRemainder(y);
    Split2(p, q);
    assert Join2(x, y) == p * 64 + q;
    hide Join2;
  }

  lemma {:induction false} ThreeBytes(x: byte, y: byte, z: byte)
    requires FirstLength(x) == 3 && Continuation(y) && Continuation(z) && Acceptable(Join3(x, y, z), 3)
    ensures Scalar(Join3(x, y, z)) && Encode(Join3(x, y, z)) == Some([x, y, z])
  {
    var p, q, r := x - 0xE0, y - 0x80, z - 0x80;
    LeadRemainder(x, 16);
    TailRemainder(y);
    TailRemainder(z);
    Join4Splits(0, p, q, r);
    assert Join3(x, y, z) == (p * 64 + q) * 64 + r;
    hide Join3;
  }

  lemma {:induction false} FourBytes(x: byte, y: byte, z: byte, w: byte)
    requires FirstLength(x) == 4 && Continuation(y) && Continuation(z) && Continuation(w)
      && Acceptable(Join4(x, y, z, w), 4)
    ensures Scalar(Join4(x, y, z, w)) && Encode(Join4(x, y, z, w)) == Some([x, y, z, w])
  {
    var o, p, q, r := x - 0xF0, y - 0x80, z - 0x80, w - 0x80;
    LeadRemainder(x, 8);
    TailRemainder(y);
    TailRemainder(z);
    TailRemainder(w);
    Join4Splits(o, p, q, r);
    assert Join4(x, y, z, w) == ((o * 64 + p) * 64 + q) * 64 + r;
    hide Join4;
  }

  /** The payload of a lead byte is what exceeds its marker bits. */
  lemma {:induction false} LeadRemainder(x: byte, m: int)
    requires (m == 32 && 0xC0 <= x < 0xE0) || (m == 16 && 0xE0 <= x < 0xF0) || (m == 8 && 0xF0 <= x < 0xF8)
    ensures x % m == x - (256 - 2 * m)
  {
    if m == 32 {
      assert x % 32 == x - 0xC0;
    } else if m == 16 {
      assert x % 16 == x - 0xE0;
    } else {
      assert x % 8 == x - 0xF0;
    }
  }

  lemma {:induction false} TailRemainder(y: byte)
    requires Continuation(y)
    ensures y % 64 == y - 0x80
  {
  }

  lemma {:induction false} Split2(p: int, q: int)
    requires 0 <= p < 32 && 0 <= q < 64
    ensures (p * 64 + q) / 64 % 32 == p && (p * 64 + q) % 64 == q
  {
    assert (p * 64 + q) / 64 == p;
  }

  lemma {:induction false} Join4Splits(x: int, y: int, z: int, w: int)
    requires 0 <= x < 8 && 0 <= y < 64 && 0 <= z < 64 && 0 <= w < 64
    ensures
      var v := ((x * 64 + y) * 64 + z) * 64 + w;
      v % 64 == w && v / 64 % 64 == z && v / 4096 % 64 == y && v / 262144 % 8 == x
  {
    var r := x * 64 + y;
    var q := r * 64 + z;
    var v := q * 64 + w;
    assert v / 64 == q;
    assert q / 64 == r;
    assert v / 4096 == q / 64;
    assert v / 262144 == r / 64;
  }

  // ----- whole strings

  /** Repeated utf8_iterate reaches the end of the string. */
  predicate Valid(b: Text)
    decreases |b|
  {
    b == [] ||
    (Iterate(b).Some? && Valid(b[Iterate(b).value.length..]))
  }

  function Decoded(b: Text): (cps: seq<int>)
    requires Valid(b)
    decreases |b|
  {
    if b == [] then []
    else [Iterate(b).value.cp] + Decoded(b[Iterate(b).value.length..])
  }

  predicate AllScalar(cps: seq<int>) {
    forall i :: 0 <= i < |cps| ==> Scalar(cps[i])
  }

  function EncodeAll(cps: seq<int>): Text
    requires AllScalar(cps)
  {
    if cps == [] then [] else Encoded(cps[0]) + EncodeAll(cps[1..])
  }

  lemma {:induction false} DecodeEncodeAll(cps: seq<int>)
    requires AllScalar(cps)
    ensures Valid(EncodeAll(cps)) && Decoded(EncodeAll(cps)) == cps
  {
    if cps != [] {
      var rest := EncodeAll(cps[1..]);
      IterateEncoded(cps[0], rest);
      DecodeEncodeAll(cps[1..]);
      assert (Encoded(cps[0]) + rest)[|Encoded(cps[0])|..] == rest;
    }
  }

  lemma {:induction false} EncodeAllCons(cp: int, tail: seq<int>)
    requires Scalar(cp) && AllScalar(tail)
    ensures AllScalar([cp] + tail) && EncodeAll([cp] + tail) == Encoded(cp) + EncodeAll(tail)
  {
    hide Encode, Scalar;
    assert ([cp] + tail)[1..] == tail;
  }

  lemma {:induction false} EncodeAllDecode(b: Text)
    requires Valid(b)
    ensures AllScalar(Decoded(b)) && EncodeAll(Decoded(b)) == b
    decreases |b|
  {
    hide Iterate, Encode, Scalar;
    if b != [] {
      var n := Iterate(b).value.length;
      var cp, tail := Iterate(b).value.cp, Decoded(b[n..]);
      IteratedIsEncoded(b);
      EncodeAllDecode(b[n..]);
      assert Decoded(b) == [cp] + tail;
      EncodeAllCons(cp, tail);
      assert b == b[..n] + b[n..];
    }
  }

  /** The accepted strings are exactly the concatenations of encoded scalars. */
  lemma {:induction false} ValidIffConcatenation(b: Text)
    ensures Valid(b) <==> exists cps :: AllScalar(cps) && EncodeAll(cps) == b
  {
    if Valid(b) {
      EncodeAllDecode(b);
    }
    if cps :| AllScalar(cps) && EncodeAll(cps) == b {
      DecodeEncodeAll(cps);
    }
  }

  // ----- the loops

  /** utf8_check_full, for any size. */
  method CheckFull(b: Text, size: nat) returns (value: Option<int>)
    requires 1 <= size <= |b|
    ensures value == if 2 <= size <= 4 then FullValue(b, size) else None
  {
    var v: int;
    if size == 2 {
      v := b[0] % 32;
    } else if size == 3 {
      v := b[0] % 16;
    } else if size == 4 {
      v := b[0] % 8;
    } else {
      return None;
    }
    var i := 1;
    while i < size
      invariant 1 <= i <= size
      invariant Accumulated(b, size, i) == Some(v)
    {
      var u := b[i];
      if u < 0x80 || u > 0xBF {
        AccumulatedStops(b, size, i + 1, size);
        return None;
      }
      v := v * 64 + u % 64;
      i := i + 1;
    }
    if v > 0x10FFFF {
      return None;
    } else if 0xD800 <= v <= 0xDFFF {
      return None;
    } else if (size == 2 && v < 0x80) || (size == 3 && v < 0x800) || (size == 4 && v < 0x10000) {
      return None;
    }
    return Some(v);
  }

  lemma {:induction false} AccumulatedStops(b: Text, n: nat, i: nat, j: nat)
    requires 1 <= i <= j <= |b| && Accumulated(b, n, i).None?
    ensures Accumulated(b, n, j).None?
    decreases j
  {
    if i < j {
      AccumulatedStops(b, n, i, j - 1);
    }
  }

  /** utf8_check_string accepts exactly the valid strings. */
  method CheckString(b: Text) returns (ok: bool)
    ensures ok <==> Valid(b)
  {
    var i := 0;
    while i < |b|
      invariant 0 <= i <= |b|
      invariant Valid(b[i..]) == Valid(b)
    {
      var count := FirstLength(b[i]);
      if count == 0 {
        return false;
      } else if count > 1 {
        if count > |b| - i {
          return false;
        }
        var v := CheckFull(b[i..], count);
        if v.None? {
          return false;
        }
      }
      assert b[i..][count..] == b[i + count..];
      i := i + count;
    }
    return true;
  }

  // ----- cutting and joining

  lemma {:induction false} IterateIgnoresTail(a: Text, b: Text)
    requires a != [] && Iterate(a).Some?
    ensures Iterate(a + b) == Iterate(a)
  {
    var c := Iterate(a).value;
    IteratedIsEncoded(a);
    IterateEncoded(c.cp, a[c.length..] + b);
    assert Encoded(c.cp) + (a[c.length..] + b) == a + b;
  }

  lemma {:induction false} ValidConcat(a: Text, b: Text)
    requires Valid(a)
    ensures Valid(a + b) <==> Valid(b)
    decreases |a|
  {
    if a == [] {
      assert a + b == b;
    } else {
      var n := Iterate(a).value.length;
      IterateIgnoresTail(a, b);
      ValidConcat(a[n..], b);
      assert (a + b)[n..] == a[n..] + b;
    }
  }

  /** Valid text never holds the bytes whose signed values mean EOF and error. */
  lemma {:induction false} NoMarkerBytes(b: Text, i: nat)
    requires Valid(b) && i < |b|
    ensures b[i] <= 0xF4
    decreases |b|
  {
    var n := Iterate(b).value.length;
    if i >= n {
      NoMarkerBytes(b[n..], i - n);
    } else if i > 0 {
      ContinuationBytes(b, n, n, i);
    }
  }

  lemma {:induction false} ContinuationBytes(b: Text, n: nat, j: nat, i: nat)
    requires 1 <= j <= |b| && Accumulated(b, n, j).Some? && 0 < i < j
    ensures Continuation(b[i])
    decreases j
  {
    if i < j - 1 {
      ContinuationBytes(b, n, j - 1, i);
    }
  }

  /** The encodings that section 7 of RFC 3629 gives as examples. */
  lemma RfcExamples()
    ensures Encode(0x41) == Some([0x41]) && Encode(0x391) == Some([0xCE, 0x91])
    ensures Encode(0x2262) == Some([0xE2, 0x89, 0xA2]) && Encode(0xD55C) == Some([0xED, 0x95, 0x9C])
    ensures Encode(0x233B4) == Some([0xF0, 0xA3, 0x8E, 0xB4])
  {
  }
}
