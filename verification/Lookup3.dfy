/** The string hash of the hash table: four ways of reading the key that give
    the same value, so that it depends on the bytes alone. */
module Lookup3 {
  import opened Bytes
  import opened Powers

  type u32 = x: int | 0 <= x < 0x1_0000_0000
  type Key = seq<byte>

  datatype Mixed = Mixed(a: u32, b: u32, c: u32)

  // ----- 32-bit arithmetic

  function Add(x: u32, y: u32): u32 {
    (x + y) % 0x1_0000_0000
  }

  function Sub(x: u32, y: u32): u32 {
    (x - y) % 0x1_0000_0000
  }

  /** Exclusive or of the n low bits. */
  function XorBits(x: nat, y: nat, n: nat): (r: nat)
    ensures r < Pow2(n)
  {
    if n == 0 then 0
    else (if x % 2 == y % 2 then 0 else 1) + 2 * XorBits(x / 2, y / 2, n - 1)
  }

  function Xor(x: u32, y: u32): u32 {
    Pow2Of32();
    XorBits(x, y, 32)
  }

  lemma Pow2Of32()
    ensures Pow2(32) == 0x1_0000_0000
  {
    assert Pow2(8) == 256;
    Pow2Sum(8, 8);
    Pow2Sum(16, 16);
  }

  lemma {:induction false} Pow2Sum(a: nat, b: nat)
    ensures Pow2(a + b) == Pow2(a) * Pow2(b)
  {
    if a > 0 {
      Pow2Sum(a - 1, b);
    }
  }

  /** Rotation: the two shifted parts have no bit in common. */
  function Rot(x: u32, k: nat): u32
    requires 0 < k < 32
  {
    ((x * Pow2(k)) % 0x1_0000_0000 + x / Pow2(32 - k)) % 0x1_0000_0000
  }

  lemma {:induction false} XorTwice(x: nat, r: nat, n: nat)
    requires x < Pow2(n)
    ensures XorBits(XorBits(x, r, n), r, n) == x
  {
    if n > 0 {
      var h := XorBits(x / 2, r / 2, n - 1);
      var d := if x % 2 == r % 2 then 0 else 1;
      assert (d + 2 * h) % 2 == d && (d + 2 * h) / 2 == h;
      XorTwice(x / 2, r / 2, n - 1);
    }
  }

  // ----- mixing

  /** One third of a round: x -= z; x ^= rot(z, k); z += y. */
  function Stir(x: u32, y: u32, z: u32, k: nat): (u32, u32)
    requires 0 < k < 32
  {
    (Xor(Sub(x, z), Rot(z, k)), Add(z, y))
  }

  /** What undoes it, given x and z after it and the unchanged y. */
  function Unstir(x: u32, y: u32, z: u32, k: nat): (u32, u32)
    requires 0 < k < 32
  {
    (Add(Xor(x, Rot(Sub(z, y), k)), Sub(z, y)), Sub(z, y))
  }

  lemma {:induction false} AddThenSub(z: u32, y: u32)
    ensures Sub(Add(z, y), y) == z && Add(Sub(z, y), y) == z
  {
  }

  lemma {:induction false} StirIsReversible(x: u32, y: u32, z: u32, k: nat)
    requires 0 < k < 32
    ensures Unstir(Stir(x, y, z, k).0, y, Stir(x, y, z, k).1, k) == (x, z)
  {
    hide Rot, Add, Sub, XorBits, Pow2;
    Pow2Of32();
    AddThenSub(z, y);
    AddThenSub(x, z);
    XorTwice(Sub(x, z), Rot(z, k), 32);
  }

  /** mix(). */
  function Mix(s: Mixed): Mixed {
    var (a1, c1) := Stir(s.a, s.b, s.c, 4);
    var (b2, a2) := Stir(s.b, c1, a1, 6);
    var (c3, b3) := Stir(c1, a2, b2, 8);
    var (a4, c4) := Stir(a2, b3, c3, 16);
    var (b5, a5) := Stir(b3, c4, a4, 19);
    var (c6, b6) := Stir(c4, a5, b5, 4);
    Mixed(a5, b6, c6)
  }

  function Unmix(s: Mixed): Mixed {
    var (c4, b5) := Unstir(s.c, s.a, s.b, 4);
    var (b3, a4) := Unstir(b5, c4, s.a, 19);
    var (a2, c3) := Unstir(a4, b3, c4, 16);
    var (c1, b2) := Unstir(c3, a2, b3, 8);
    var (b, a1) := Unstir(b2, c1, a2, 6);
    var (a, c) := Unstir(a1, b, c1, 4);
    Mixed(a, b, c)
  }

  /** mix loses nothing, as its description promises. */
  lemma {:induction false} MixIsReversible(s: Mixed)
    ensures Unmix(Mix(s)) == s
  {
    hide Stir, Unstir;
    var (a1, c1) := Stir(s.a, s.b, s.c, 4);
    StirIsReversible(s.a, s.b, s.c, 4);
    var (b2, a2) := Stir(s.b, c1, a1, 6);
    StirIsReversible(s.b, c1, a1, 6);
    var (c3, b3) := Stir(c1, a2, b2, 8);
    StirIsReversible(c1, a2, b2, 8);
    var (a4, c4) := Stir(a2, b3, c3, 16);
    StirIsReversible(a2, b3, c3, 16);
    var (b5, a5) := Stir(b3, c4, a4, 19);
    StirIsReversible(b3, c4, a4, 19);
    StirIsReversible(c4, a5, b5, 4);
  }

  /** One step of final(): x ^= y; x -= rot(y, k). */
  function Blend(x: u32, y: u32, k: nat): u32
    requires 0 < k < 32
  {
    Sub(Xor(x, y), Rot(y, k))
  }

  /** The c that final() leaves. */
  function Final(s: Mixed): u32 {
    var c1 := Blend(s.c, s.b, 14);
    var a2 := Blend(s.a, c1, 11);
    var b3 := Blend(s.b, a2, 25);
    var c4 := Blend(c1, b3, 16);
    var a5 := Blend(a2, c4, 4);
    var b6 := Blend(b3, a5, 14);
    Blend(c4, b6, 24)
  }

  // ----- the hash as a function of the bytes

  /** A byte of the key, zero behind its end. */
  function ByteAt(key: Key, i: nat): byte {
    if i < |key| then key[i] else 0
  }

  /** Four bytes, the first the least significant. */
  function Join(x: byte, y: byte, z: byte, w: byte): u32 {
    var p: int, q: int, r: int, s: int := x, y, z, w;
    p + 256 * q + 65536 * r + 16777216 * s
  }

  function WordAt(key: Key, i: nat): u32 {
    Join(ByteAt(key, i), ByteAt(key, i + 1), ByteAt(key, i + 2), ByteAt(key, i + 3))
  }

  /** The next twelve bytes added to the state. */
  function Absorb(s: Mixed, key: Key): Mixed {
    Mixed(Add(s.a, WordAt(key, 0)), Add(s.b, WordAt(key, 4)), Add(s.c, WordAt(key, 8)))
  }

  function HashFrom(s: Mixed, key: Key): u32
    decreases |key|
  {
    if |key| > 12 then HashFrom(Mix(Absorb(s, key)), key[12..])
    else if |key| == 0 then s.c
    else Final(Absorb(s, key))
  }

  /** The length is cut to 32 bits. */
  function Start(length: nat, initval: u32): Mixed {
    var x := Add(Add(0xdeadbeef, length % 0x1_0000_0000), initval);
    Mixed(x, x, x)
  }

  function Hash(key: Key, initval: u32): u32 {
    HashFrom(Start(|key|, initval), key)
  }

  // ----- reading memory

  /** Whether the memory m at the key shows the key, whatever follows it. */
  predicate Shows(m: Key, key: Key) {
    |key| <= |m| && m[..|key|] == key
  }

  /** A little-endian 32-bit load. */
  function Load32(m: Key, i: nat): u32
    requires i + 4 <= |m|
  {
    Join(m[i], m[i + 1], m[i + 2], m[i + 3])
  }

  /** A little-endian 16-bit load. */
  function Load16(m: Key, i: nat): u32
    requires i + 2 <= |m|
  {
    Join(m[i], m[i + 1], 0, 0)
  }

  /** The low one, two or three bytes. */
  function Low1(x: u32): u32 { x % 256 }
  function Low2(x: u32): u32 { x % 65536 }
  function Low3(x: u32): u32 { x % 16777216 }

  lemma {:induction false} ShownByte(m: Key, key: Key, i: nat)
    requires Shows(m, key) && i < |key|
    ensures ByteAt(key, i) == m[i]
  {
    assert m[..|key|][i] == m[i];
  }

  lemma {:induction false} ShownWord(m: Key, key: Key, i: nat)
    requires Shows(m, key) && i + 4 <= |key|
    ensures WordAt(key, i) == Load32(m, i)
  {
    hide Join;
    ShownByte(m, key, i);
    ShownByte(m, key, i + 1);
    ShownByte(m, key, i + 2);
    ShownByte(m, key, i + 3);
  }

  lemma {:induction false} MaskOne(x: byte, y: byte, z: byte, w: byte)
    ensures Low1(Join(x, y, z, w)) == Join(x, 0, 0, 0)
  {
    Remainder8(x, Join(y, z, w, 0));
    assert Join(x, y, z, w) == x + 256 * Join(y, z, w, 0);
  }

  lemma {:induction false} MaskTwo(x: byte, y: byte, z: byte, w: byte)
    ensures Low2(Join(x, y, z, w)) == Join(x, y, 0, 0)
  {
    Remainder16(Join(x, y, 0, 0), Join(z, w, 0, 0));
    assert Join(x, y, z, w) == Join(x, y, 0, 0) + 65536 * Join(z, w, 0, 0);
  }

  lemma {:induction false} MaskThree(x: byte, y: byte, z: byte, w: byte)
    ensures Low3(Join(x, y, z, w)) == Join(x, y, z, 0)
  {
    Remainder24(Join(x, y, z, 0), w);
    assert Join(x, y, z, w) == Join(x, y, z, 0) + 16777216 * w;
  }

  lemma Remainder8(r: nat, q: nat)
    requires r < 256
    ensures (r + 256 * q) % 256 == r
  {
  }

  lemma Remainder16(r: nat, q: nat)
    requires r < 65536
    ensures (r + 65536 * q) % 65536 == r
  {
  }

  lemma Remainder24(r: nat, q: nat)
    requires r < 16777216
    ensures (r + 16777216 * q) % 16777216 == r
  {
  }

  /** The last words of a key, by how many of their bytes belong to it. */
  lemma {:induction false} TailWord(m: Key, key: Key, i: nat)
    requires Shows(m, key)
    ensures |key| <= i ==> WordAt(key, i) == 0
    ensures i + 4 <= |key| ==> WordAt(key, i) == Load32(m, i)
    ensures i + 4 <= |m| && |key| == i + 1 ==> WordAt(key, i) == Low1(Load32(m, i))
    ensures i + 4 <= |m| && |key| == i + 2 ==> WordAt(key, i) == Low2(Load32(m, i))
    ensures i + 4 <= |m| && |key| == i + 3 ==> WordAt(key, i) == Low3(Load32(m, i))
  {
    hide Join, Low1, Low2, Low3;
    JoinZero();
    if i + 4 <= |key| {
      ShownWord(m, key, i);
    } else if i < |key| && i + 4 <= |m| {
      ShownByte(m, key, i);
      MaskOne(m[i], m[i + 1], m[i + 2], m[i + 3]);
      if |key| >= i + 2 {
        ShownByte(m, key, i + 1);
        MaskTwo(m[i], m[i + 1], m[i + 2], m[i + 3]);
      }
      if |key| == i + 3 {
        ShownByte(m, key, i + 2);
        MaskThree(m[i], m[i + 1], m[i + 2], m[i + 3]);
      }
    }
  }

  lemma JoinZero()
    ensures Join(0, 0, 0, 0) == 0
  {
  }

  /** The three words of the last block. */
  lemma {:induction false} LastBlock(key: Key, s: Mixed)
    requires |key| <= 12
    ensures HashFrom(s, key) == if |key| == 0 then s.c else Final(Absorb(s, key))
  {
    hide Absorb, Final, Mix;
  }

  lemma PlusZero(x: u32)
    ensures Add(x, 0) == x
  {
  }

  /** A whole block, as the loops absorb it. */
  lemma {:induction false} WholeBlock(m: Key, key: Key, s: Mixed)
    requires Shows(m, key) && |key| > 12
    ensures HashFrom(s, key) ==
      HashFrom(Mix(Mixed(Add(s.a, Load32(m, 0)), Add(s.b, Load32(m, 4)), Add(s.c, Load32(m, 8)))), key[12..])
  {
    hide WordAt, Mix, Load32, Add;
    ShownWord(m, key, 0);
    ShownWord(m, key, 4);
    ShownWord(m, key, 8);
  }

  function RoundUp4(n: nat): nat {
    (n + 3) / 4 * 4
  }

  // ----- 32-bit reads with masked tails

  method LastWords(m: Key, length: nat, s: Mixed) returns (r: u32)
    requires length <= 12 && RoundUp4(length) <= |m|
    ensures length <= |m| && r == HashFrom(s, m[..length])
  {
    hide WordAt, Final, Mix, HashFrom, Load32, Add, Low1, Low2, Low3;
    ghost var key := m[..length];
    LastBlock(key, s);
    TailWord(m, key, 0);
    TailWord(m, key, 4);
    TailWord(m, key, 8);
    PlusZero(s.b);
    PlusZero(s.c);
    var a, b, c := s.a, s.b, s.c;
    match length {
      case 12 => c := Add(c, Load32(m, 8)); b := Add(b, Load32(m, 4)); a := Add(a, Load32(m, 0));
      case 11 => c := Add(c, Low3(Load32(m, 8))); b := Add(b, Load32(m, 4)); a := Add(a, Load32(m, 0));
      case 10 => c := Add(c, Low2(Load32(m, 8))); b := Add(b, Load32(m, 4)); a := Add(a, Load32(m, 0));
      case 9 => c := Add(c, Low1(Load32(m, 8))); b := Add(b, Load32(m, 4)); a := Add(a, Load32(m, 0));
      case 8 => b := Add(b, Load32(m, 4)); a := Add(a, Load32(m, 0));
      case 7 => b := Add(b, Low3(Load32(m, 4))); a := Add(a, Load32(m, 0));
      case 6 => b := Add(b, Low2(Load32(m, 4))); a := Add(a, Load32(m, 0));
      case 5 => b := Add(b, Low1(Load32(m, 4))); a := Add(a, Load32(m, 0));
      case 4 => a := Add(a, Load32(m, 0));
      case 3 => a := Add(a, Low3(Load32(m, 0)));
      case 2 => a := Add(a, Low2(Load32(m, 0)));
      case 1 => a := Add(a, Low1(Load32(m, 0)));
      case _ => return c;
    }
    r := Final(Mixed(a, b, c));
  }

  /** The 32-bit path; without masking no byte behind the key is read. */
  method HashWords(memory: Key, size: nat, initval: u32, masking: bool) returns (r: u32)
    requires size <= |memory| && (masking ==> RoundUp4(size) <= |memory|)
    ensures r == Hash(memory[..size], initval)
  {
    hide Mix, HashFrom, Load32, Start, Add;
    var m, length := memory, size;
    var s := Start(size, initval);
    while length > 12
      invariant 0 <= length <= |m| && (masking ==> RoundUp4(length) <= |m|)
      invariant HashFrom(s, m[..length]) == Hash(memory[..size], initval)
    {
      WholeBlock(m, m[..length], s);
      s := Mix(Mixed(Add(s.a, Load32(m, 0)), Add(s.b, Load32(m, 4)), Add(s.c, Load32(m, 8))));
      assert m[..length][12..] == m[12..][..length - 12];
      m, length := m[12..], length - 12;
    }
    if masking {
      r := LastWords(m, length, s);
    } else {
      r := LastWordsUnmasked(m, length, s);
    }
  }

  // ----- reads of single bytes and half words

  /** A byte in one of the four places of a word. */
  function Up(x: byte, place: nat): u32
    requires place < 4
  {
    if place == 0 then Join(x, 0, 0, 0)
    else if place == 1 then Join(0, x, 0, 0)
    else if place == 2 then Join(0, 0, x, 0)
    else Join(0, 0, 0, x)
  }

  lemma {:induction false} UpZero(place: nat)
    requires place < 4
    ensures Up(0, place) == 0
  {
  }

  lemma {:induction false} AddAdd(c: u32, p: u32, q: u32)
    requires p + q < 0x1_0000_0000
    ensures Add(Add(c, p), q) == Add(c, p + q)
  {
  }

  /** Adding the bytes of a word one by one, from the top or from the bottom. */
  lemma {:induction false} AddDown(c: u32, x: byte, y: byte, z: byte, w: byte)
    ensures Add(Add(Add(Add(c, Up(w, 3)), Up(z, 2)), Up(y, 1)), Up(x, 0)) == Add(c, Join(x, y, z, w))
  {
    hide Add;
    AddAdd(c, Up(w, 3), Up(z, 2));
    AddAdd(c, Up(w, 3) + Up(z, 2), Up(y, 1));
    AddAdd(c, Up(w, 3) + Up(z, 2) + Up(y, 1), Up(x, 0));
  }

  lemma {:induction false} AddUp(c: u32, x: byte, y: byte, z: byte, w: byte)
    ensures Add(Add(Add(Add(c, Up(x, 0)), Up(y, 1)), Up(z, 2)), Up(w, 3)) == Add(c, Join(x, y, z, w))
  {
    hide Add;
    AddAdd(c, Up(x, 0), Up(y, 1));
    AddAdd(c, Up(x, 0) + Up(y, 1), Up(z, 2));
    AddAdd(c, Up(x, 0) + Up(y, 1) + Up(z, 2), Up(w, 3));
  }

  /** k[i] + (k[i + 1] << 16) on half words. */
  function Pair16(m: Key, i: nat): u32
    requires i + 4 <= |m|
  {
    PairIsWord(m, i);
    Load16(m, i) + 65536 * Load16(m, i + 2)
  }

  lemma {:induction false} PairIsWord(m: Key, i: nat)
    requires i + 4 <= |m|
    ensures Load16(m, i) + 65536 * Load16(m, i + 2) == Load32(m, i)
  {
  }

  /** The fall-through cases for one word: adds the bytes of the word at i that
      belong to the key, highest first. */
  method AddTail(m: Key, length: nat, i: nat, x: u32) returns (y: u32)
    requires length <= |m|
    ensures y == Add(x, WordAt(m[..length], i))
  {
    hide Add, Up, Join;
    ghost var key := m[..length];
    AddDown(x, ByteAt(key, i), ByteAt(key, i + 1), ByteAt(key, i + 2), ByteAt(key, i + 3));
    forall v: u32 {
      PlusZero(v);
    }
    UpZero(0);
    UpZero(1);
    UpZero(2);
    UpZero(3);
    y := x;
    if length >= i + 4 {
      ShownByte(m, key, i + 3);
      y := Add(y, Up(m[i + 3], 3));
    }
    assert y == Add(x, Up(ByteAt(key, i + 3), 3));
    if length >= i + 3 {
      ShownByte(m, key, i + 2);
      y := Add(y, Up(m[i + 2], 2));
    }
    assert y == Add(Add(x, Up(ByteAt(key, i + 3), 3)), Up(ByteAt(key, i + 2), 2));
    if length >= i + 2 {
      ShownByte(m, key, i + 1);
      y := Add(y, Up(m[i + 1], 1));
    }
    if length >= i + 1 {
      ShownByte(m, key, i);
      y := Add(y, Up(m[i], 0));
    }
  }

  // ----- 32-bit reads without the masking trick

  method LastWordsUnmasked(m: Key, length: nat, s: Mixed) returns (r: u32)
    requires length <= 12 && length <= |m|
    ensures r == HashFrom(s, m[..length])
  {
    hide WordAt, Final, Mix, HashFrom, Load32, Add;
    ghost var key := m[..length];
    LastBlock(key, s);
    TailWord(m, key, 0);
    TailWord(m, key, 4);
    TailWord(m, key, 8);
    PlusZero(s.b);
    PlusZero(s.c);
    var a, b, c := s.a, s.b, s.c;
    if length == 0 {
      return c;
    } else if length == 12 {
      c, b, a := Add(c, Load32(m, 8)), Add(b, Load32(m, 4)), Add(a, Load32(m, 0));
    } else if length >= 8 {
      c := AddTail(m, length, 8, c);
      b, a := Add(b, Load32(m, 4)), Add(a, Load32(m, 0));
    } else if length >= 4 {
      b := AddTail(m, length, 4, b);
      a := Add(a, Load32(m, 0));
    } else {
      a := AddTail(m, length, 0, a);
    }
    r := Final(Mixed(a, b, c));
  }

  // ----- 16-bit reads

  /** The last, incomplete word at i: a byte, a half word, or both. */
  method AddHalves(m: Key, length: nat, i: nat, x: u32) returns (y: u32)
    requires i <= length < i + 4 && length <= |m|
    ensures y == Add(x, WordAt(m[..length], i))
  {
    hide Add, Up, Join;
    ghost var key := m[..length];
    JoinZero();
    PlusZero(x);
    y := x;
    if length == i + 3 {
      ShownByte(m, key, i);
      ShownByte(m, key, i + 1);
      ShownByte(m, key, i + 2);
      HighThenHalf(x, m[i], m[i + 1], m[i + 2]);
      y := Add(y, Up(m[i + 2], 2));
      y := Add(y, Load16(m, i));
    } else if length == i + 2 {
      ShownByte(m, key, i);
      ShownByte(m, key, i + 1);
      y := Add(y, Load16(m, i));
    } else if length == i + 1 {
      ShownByte(m, key, i);
      LowPlace(m[i]);
      y := Add(y, Up(m[i], 0));
    }
  }

  lemma {:induction false} HighThenHalf(c: u32, x: byte, y: byte, z: byte)
    ensures Add(Add(c, Up(z, 2)), Join(x, y, 0, 0)) == Add(c, Join(x, y, z, 0))
  {
    hide Add;
    AddAdd(c, Up(z, 2), Join(x, y, 0, 0));
  }

  lemma {:induction false} LowPlace(x: byte)
    ensures Up(x, 0) == Join(x, 0, 0, 0)
  {
  }

  method LastHalves(m: Key, length: nat, s: Mixed) returns (r: u32)
    requires length <= 12 && length <= |m|
    ensures r == HashFrom(s, m[..length])
  {
    hide WordAt, Final, Mix, HashFrom, Load32, Add, Pair16;
    ghost var key := m[..length];
    LastBlock(key, s);
    TailWord(m, key, 0);
    TailWord(m, key, 4);
    TailWord(m, key, 8);
    PlusZero(s.b);
    PlusZero(s.c);
    var a, b, c := s.a, s.b, s.c;
    if length == 0 {
      return c;
    } else if length == 12 {
      Pairs(m, 12);
      c, b, a := Add(c, Pair16(m, 8)), Add(b, Pair16(m, 4)), Add(a, Pair16(m, 0));
    } else if length >= 8 {
      Pairs(m, 8);
      c := AddHalves(m, length, 8, c);
      b, a := Add(b, Pair16(m, 4)), Add(a, Pair16(m, 0));
    } else if length >= 4 {
      Pairs(m, 4);
      b := AddHalves(m, length, 4, b);
      a := Add(a, Pair16(m, 0));
    } else {
      a := AddHalves(m, length, 0, a);
    }
    r := Final(Mixed(a, b, c));
  }

  lemma {:induction false} Pairs(m: Key, n: nat)
    requires n <= |m|
    ensures forall i :: 0 <= i <= n - 4 ==> Pair16(m, i) == Load32(m, i)
  {
    forall i | 0 <= i <= n - 4 ensures Pair16(m, i) == Load32(m, i) {
      PairIsWord(m, i);
    }
  }

  method HashHalves(memory: Key, size: nat, initval: u32) returns (r: u32)
    requires size <= |memory|
    ensures r == Hash(memory[..size], initval)
  {
    hide Mix, HashFrom, Load32, Start, Add, Pair16;
    var m, length := memory, size;
    var s := Start(size, initval);
    while length > 12
      invariant 0 <= length <= |m|
      invariant HashFrom(s, m[..length]) == Hash(memory[..size], initval)
    {
      WholeBlock(m, m[..length], s);
      Pairs(m, 12);
      s := Mix(Mixed(Add(s.a, Pair16(m, 0)), Add(s.b, Pair16(m, 4)), Add(s.c, Pair16(m, 8))));
      assert m[..length][12..] == m[12..][..length - 12];
      m, length := m[12..], length - 12;
    }
    r := LastHalves(m, length, s);
  }

  // ----- byte reads

  /** Adds four bytes one by one, lowest first. */
  method AddBytes(m: Key, i: nat, x: u32) returns (y: u32)
    requires i + 4 <= |m|
    ensures y == Add(x, Load32(m, i))
  {
    hide Add, Up, Join;
    AddUp(x, m[i], m[i + 1], m[i + 2], m[i + 3]);
    y := Add(x, Up(m[i], 0));
    y := Add(y, Up(m[i + 1], 1));
    y := Add(y, Up(m[i + 2], 2));
    y := Add(y, Up(m[i + 3], 3));
  }

  method LastBytes(m: Key, length: nat, s: Mixed) returns (r: u32)
    requires length <= 12 && length <= |m|
    ensures r == HashFrom(s, m[..length])
  {
    hide WordAt, Final, Mix, HashFrom, Load32, Add;
    LastBlock(m[..length], s);
    if length == 0 {
      return s.c;
    }
    var c := AddTail(m, length, 8, s.c);
    var b := AddTail(m, length, 4, s.b);
    var a := AddTail(m, length, 0, s.a);
    r := Final(Mixed(a, b, c));
  }

  method HashBytes(memory: Key, size: nat, initval: u32) returns (r: u32)
    requires size <= |memory|
    ensures r == Hash(memory[..size], initval)
  {
    hide Mix, HashFrom, Load32, Start, Add;
    var m, length := memory, size;
    var s := Start(size, initval);
    while length > 12
      invariant 0 <= length <= |m|
      invariant HashFrom(s, m[..length]) == Hash(memory[..size], initval)
    {
      WholeBlock(m, m[..length], s);
      var a := AddBytes(m, 0, s.a);
      var b := AddBytes(m, 4, s.b);
      var c := AddBytes(m, 8, s.c);
      s := Mix(Mixed(a, b, c));
      assert m[..length][12..] == m[12..][..length - 12];
      m, length := m[12..], length - 12;
    }
    r := LastBytes(m, length, s);
  }

  // ----- the choice

  /** hashlittle: the address decides how the key is read, and nothing else.
      `memory` starts at the key; with the masking trick the whole word that holds
      its last byte must be readable. */
  method HashLittle(address: nat, memory: Key, size: nat, initval: u32, masking: bool) returns (r: u32)
    requires size <= |memory| && (masking && address % 4 == 0 ==> RoundUp4(size) <= |memory|)
    ensures r == Hash(memory[..size], initval)
  {
    hide Hash;
    if address % 4 == 0 {
      r := HashWords(memory, size, initval, masking);
    } else if address % 2 == 0 {
      r := HashHalves(memory, size, initval);
    } else {
      r := HashBytes(memory, size, initval);
    }
  }
}
