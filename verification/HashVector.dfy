/** The published check value of the string hash: with this, every constant of
    mix and final and the start value are fixed. */
module HashVector {
  import opened Bytes
  import opened Powers
  import opened Lookup3

  // ----- exclusive or, byte by byte

  function Word(x0: bv8, x1: bv8, x2: bv8, x3: bv8): u32 {
    Join(x0 as int, x1 as int, x2 as int, x3 as int)
  }

  lemma Halve(x: bv8)
    ensures (x as nat) / 2 == (x >> 1) as nat && (x as nat) % 2 == (x & 1) as nat
  {
  }

  lemma LowBit(x: bv8, y: bv8)
    ensures ((x ^ y) & 1) as nat == if (x as nat) % 2 == (y as nat) % 2 then 0 else 1
  {
    Halve(x);
    Halve(y);
    assert (x & 1) == (y & 1) ==> (x ^ y) & 1 == 0;
    assert (x & 1) != (y & 1) ==> (x ^ y) & 1 == 1;
  }

  lemma {:induction false} Halves(x: bv8, y: bv8)
    ensures ((x ^ y) as nat) / 2 == ((x >> 1) ^ (y >> 1)) as nat
    ensures ((x ^ y) as nat) % 2 == if (x as nat) % 2 == (y as nat) % 2 then 0 else 1
  {
    Halve(x ^ y);
    assert (x >> 1) ^ (y >> 1) == (x ^ y) >> 1;
    LowBit(x, y);
  }

  lemma {:induction false} XorStep(x: nat, y: nat, n: nat, z: nat)
    requires n > 0 && XorBits(x / 2, y / 2, n - 1) == z / 2 && z % 2 == if x % 2 == y % 2 then 0 else 1
    ensures XorBits(x, y, n) == z
  {
  }

  lemma ShiftIsBelow(x: bv8, n: nat)
    requires n > 0 && x as nat < Pow2(n)
    ensures (x >> 1) as nat < Pow2(n - 1)
  {
    Halve(x);
  }

  lemma {:induction false} ByteXor(x: bv8, y: bv8, n: nat)
    requires x as nat < Pow2(n) && y as nat < Pow2(n)
    ensures XorBits(x as nat, y as nat, n) == (x ^ y) as nat
    decreases n
  {
    hide Pow2, XorBits;
    if n == 0 {
      NothingLeft(x, y);
    } else {
      ShiftIsBelow(x, n);
      ShiftIsBelow(y, n);
      ByteXor(x >> 1, y >> 1, n - 1);
      ByteXorStep(x, y, n);
    }
  }

  lemma NothingLeft(x: bv8, y: bv8)
    requires x as nat < Pow2(0) && y as nat < Pow2(0)
    ensures XorBits(x as nat, y as nat, 0) == (x ^ y) as nat
  {
    assert x == 0 && y == 0;
  }

  lemma {:induction false} ByteXorStep(x: bv8, y: bv8, n: nat)
    requires n > 0 && XorBits((x >> 1) as nat, (y >> 1) as nat, n - 1) == ((x >> 1) ^ (y >> 1)) as nat
    ensures XorBits(x as nat, y as nat, n) == (x ^ y) as nat
  {
    hide XorBits;
    var a: nat, b: nat, z: nat := x as nat, y as nat, (x ^ y) as nat;
    var p: nat, q: nat := (x >> 1) as nat, (y >> 1) as nat;
    assert p == a / 2 && q == b / 2 by {
      Halve(x);
      Halve(y);
    }
    assert z / 2 == ((x >> 1) ^ (y >> 1)) as nat && z % 2 == (if a % 2 == b % 2 then 0 else 1) by {
      Halves(x, y);
    }
    XorHalved(a, b, p, q, n, z);
  }

  lemma {:induction false} XorHalved(x: nat, y: nat, p: nat, q: nat, n: nat, z: nat)
    requires n > 0 && p == x / 2 && q == y / 2 && XorBits(p, q, n - 1) == z / 2
    requires z % 2 == if x % 2 == y % 2 then 0 else 1
    ensures XorBits(x, y, n) == z
  {
    XorStep(x, y, n, z);
  }

  /** The low m bits and the rest are independent. */
  lemma {:induction false} XorSplits(h: nat, k: nat, d: nat, e: nat, n: nat, m: nat)
    requires d < Pow2(m) && e < Pow2(m)
    ensures XorBits(Pow2(m) * h + d, Pow2(m) * k + e, n + m) == XorBits(d, e, m) + Pow2(m) * XorBits(h, k, n)
    decreases m
  {
    hide XorBits;
    if m == 0 {
      NoBits(d, e);
    } else {
      LowOf(h, d, m);
      LowOf(k, e, m);
      XorSplits(h, k, d / 2, e / 2, n, m - 1);
      var low, b := XorBits(d, e, m), XorBits(h, k, n);
      LowHalf(d, e, m);
      LowOf(b, low, m);
      hide Pow2;
      XorStep(Pow2(m) * h + d, Pow2(m) * k + e, n + m, Pow2(m) * b + low);
    }
  }

  lemma NoBits(d: nat, e: nat)
    ensures XorBits(d, e, 0) == 0 && Pow2(0) == 1
  {
  }

  lemma LowHalf(d: nat, e: nat, m: nat)
    requires m > 0
    ensures XorBits(d, e, m) / 2 == XorBits(d / 2, e / 2, m - 1)
    ensures XorBits(d, e, m) % 2 == if d % 2 == e % 2 then 0 else 1
  {
  }

  lemma {:induction false} LowOf(h: nat, d: nat, m: nat)
    requires m > 0 && d < Pow2(m)
    ensures (Pow2(m) * h + d) / 2 == Pow2(m - 1) * h + d / 2 && (Pow2(m) * h + d) % 2 == d % 2
    ensures d / 2 < Pow2(m - 1)
  {
    var p := Pow2(m - 1) * h;
    assert Pow2(m) * h == 2 * p;
  }

  lemma {:induction false} LowByte(h: nat, k: nat, d: byte, e: byte, n: nat)
    ensures XorBits(256 * h + d, 256 * k + e, n + 8) == XorBits(d, e, 8) + 256 * XorBits(h, k, n)
  {
    Pow2Of8();
    hide XorBits, Pow2;
    XorSplits(h, k, d, e, n, 8);
  }

  lemma {:induction false} XorJoined(x0: byte, x1: byte, x2: byte, x3: byte,
                                    y0: byte, y1: byte, y2: byte, y3: byte)
    ensures XorBits(Join(x0, x1, x2, x3), Join(y0, y1, y2, y3), 32) ==
      XorBits(x0, y0, 8) + 256 * XorBits(x1, y1, 8) + 65536 * XorBits(x2, y2, 8) + 16777216 * XorBits(x3, y3, 8)
  {
    hide XorBits;
    LowByte(x1 + 256 * (x2 + 256 * x3), y1 + 256 * (y2 + 256 * y3), x0, y0, 24);
    LowByte(x2 + 256 * x3, y2 + 256 * y3, x1, y1, 16);
    LowByte(x3, y3, x2, y2, 8);
  }

  lemma {:induction false} XorBytes(x0: bv8, x1: bv8, x2: bv8, x3: bv8, y0: bv8, y1: bv8, y2: bv8, y3: bv8)
    ensures Xor(Word(x0, x1, x2, x3), Word(y0, y1, y2, y3)) == Word(x0 ^ y0, x1 ^ y1, x2 ^ y2, x3 ^ y3)
  {
    Pow2Of8();
    hide XorBits, Pow2;
    XorJoined(x0 as int, x1 as int, x2 as int, x3 as int, y0 as int, y1 as int, y2 as int, y3 as int);
    ByteXor(x0, y0, 8);
    ByteXor(x1, y1, 8);
    ByteXor(x2, y2, 8);
    ByteXor(x3, y3, 8);
  }

  lemma Pow2Of8()
    ensures Pow2(8) == 256
  {
  }

  lemma {:induction false} StirIs(x: u32, y: u32, z: u32, k: nat,
                                 d0: bv8, d1: bv8, d2: bv8, d3: bv8, r0: bv8, r1: bv8, r2: bv8, r3: bv8)
    requires 0 < k < 32 && Sub(x, z) == Word(d0, d1, d2, d3) && Rot(z, k) == Word(r0, r1, r2, r3)
    ensures Stir(x, y, z, k) == (Word(d0 ^ r0, d1 ^ r1, d2 ^ r2, d3 ^ r3), Add(z, y))
  {
    hide Xor, Sub, Rot, Word, Add;
    XorBytes(d0, d1, d2, d3, r0, r1, r2, r3);
  }

  lemma {:induction false} BlendIs(x: u32, y: u32, k: nat,
                                  x0: bv8, x1: bv8, x2: bv8, x3: bv8, y0: bv8, y1: bv8, y2: bv8, y3: bv8,
                                  z: u32, r: u32)
    requires 0 < k < 32 && x == Word(x0, x1, x2, x3) && y == Word(y0, y1, y2, y3)
    requires z == Word(x0 ^ y0, x1 ^ y1, x2 ^ y2, x3 ^ y3) && r == Rot(y, k)
    ensures Blend(x, y, k) == Sub(z, r)
  {
    hide Xor, Sub, Rot, Word;
    XorBytes(x0, x1, x2, x3, y0, y1, y2, y3);
  }

  // ----- "Four score and seven years ago"

  const SPEECH: Key :=
    [70, 111, 117, 114, 32, 115, 99, 111, 114, 101, 32, 97,
     110, 100, 32, 115, 101, 118, 101, 110, 32, 121, 101, 97,
     114, 115, 32, 97, 103, 111]

  lemma {:induction false} PowersUsed()
    ensures Pow2(4) == 16 && Pow2(6) == 64 && Pow2(7) == 128 && Pow2(8) == 256 && Pow2(11) == 2048
    ensures Pow2(13) == 8192 && Pow2(14) == 16384 && Pow2(16) == 0x10000 && Pow2(18) == 0x40000 && Pow2(19) == 0x80000
    ensures Pow2(21) == 0x200000 && Pow2(24) == 0x1000000 && Pow2(25) == 0x2000000
    ensures Pow2(26) == 0x4000000 && Pow2(28) == 0x10000000
  {
    Pow2Of8();
    Pow2Sum(8, 8);
    Pow2Sum(16, 8);
    Pow2Sum(8, 3);
    Pow2Sum(8, 5);
    Pow2Sum(8, 6);
    Pow2Sum(16, 2);
    Pow2Sum(16, 3);
    Pow2Sum(16, 5);
    Pow2Sum(24, 1);
    Pow2Sum(24, 2);
    Pow2Sum(24, 4);
  }

  lemma {:induction false} FirstMix()
    ensures Mix(Mixed(0x51232E53, 0x4E11322D, 0x3FCE247F)) == Mixed(0xF859AD7A, 0x04BC57AE, 0x40DDDD7E)
  {
    hide Pow2, Stir, Blend;
    PowersUsed();
    StirIs(0x51232E53, 0x4E11322D, 0x3FCE247F, 4, 0xD4, 0x09, 0x55, 0x11, 0xF3, 0x47, 0xE2, 0xFC);
    assert Stir(0x51232E53, 0x4E11322D, 0x3FCE247F, 4) == (0xEDB74E27, 0x8DDF56AC);
    StirIs(0x4E11322D, 0x8DDF56AC, 0xEDB74E27, 6, 0x06, 0xE4, 0x59, 0x60, 0xFB, 0x89, 0xD3, 0x6D);
    assert Stir(0x4E11322D, 0x8DDF56AC, 0xEDB74E27, 6) == (0x0D8A6DFD, 0x7B96A4D3);
    StirIs(0x8DDF56AC, 0x7B96A4D3, 0x0D8A6DFD, 8, 0xAF, 0xE8, 0x54, 0x80, 0x0D, 0xFD, 0x6D, 0x8A);
    assert Stir(0x8DDF56AC, 0x7B96A4D3, 0x0D8A6DFD, 8) == (0x0A3915A2, 0x892112D0);
    StirIs(0x7B96A4D3, 0x892112D0, 0x0A3915A2, 16, 0x31, 0x8F, 0x5D, 0x71, 0x39, 0x0A, 0xA2, 0x15);
    assert Stir(0x7B96A4D3, 0x892112D0, 0x0A3915A2, 16) == (0x64FF8508, 0x935A2872);
    StirIs(0x892112D0, 0x935A2872, 0x64FF8508, 19, 0xC8, 0x8D, 0x21, 0x24, 0xFC, 0x27, 0x43, 0x28);
    assert Stir(0x892112D0, 0x935A2872, 0x64FF8508, 19) == (0x0C62AA34, 0xF859AD7A);
    StirIs(0x935A2872, 0xF859AD7A, 0x0C62AA34, 4, 0x3E, 0x7E, 0xF7, 0x86, 0x40, 0xA3, 0x2A, 0xC6);
    assert Stir(0x935A2872, 0xF859AD7A, 0x0C62AA34, 4) == (0x40DDDD7E, 0x04BC57AE);
  }

  lemma {:induction false} SecondMix()
    ensures Mix(Mixed(0x6B7A11E8, 0x7321CE13, 0xA243569E)) == Mixed(0x336ADED2, 0x059F2642, 0xBD02EBD5)
  {
    hide Pow2, Stir, Blend;
    PowersUsed();
    StirIs(0x6B7A11E8, 0x7321CE13, 0xA243569E, 4, 0x4A, 0xBB, 0x36, 0xC9, 0xEA, 0x69, 0x35, 0x24);
    assert Stir(0x6B7A11E8, 0x7321CE13, 0xA243569E, 4) == (0xED03D2A0, 0x156524B1);
    StirIs(0x7321CE13, 0x156524B1, 0xED03D2A0, 6, 0x73, 0xFB, 0x1D, 0x86, 0x3B, 0xA8, 0xF4, 0x40);
    assert Stir(0x7321CE13, 0x156524B1, 0xED03D2A0, 6) == (0xC6E95348, 0x0268F751);
    StirIs(0x156524B1, 0x0268F751, 0xC6E95348, 8, 0x69, 0xD1, 0x7B, 0x4E, 0xC6, 0x48, 0x53, 0xE9);
    assert Stir(0x156524B1, 0x0268F751, 0xC6E95348, 8) == (0xA72899AF, 0xC9524A99);
    StirIs(0x0268F751, 0xC9524A99, 0xA72899AF, 16, 0xA2, 0x5D, 0x40, 0x5B, 0x28, 0xA7, 0xAF, 0x99);
    assert Stir(0x0268F751, 0xC9524A99, 0xA72899AF, 16) == (0xC2EFFA8A, 0x707AE448);
    StirIs(0xC9524A99, 0x707AE448, 0xC2EFFA8A, 19, 0x0F, 0x50, 0x62, 0x06, 0x7F, 0x17, 0x56, 0xD4);
    assert Stir(0xC9524A99, 0x707AE448, 0xC2EFFA8A, 19) == (0xD2344770, 0x336ADED2);
    StirIs(0x707AE448, 0x336ADED2, 0xD2344770, 4, 0xD8, 0x9C, 0x46, 0x9E, 0x0D, 0x77, 0x44, 0x23);
    assert Stir(0x707AE448, 0x336ADED2, 0xD2344770, 4) == (0xBD02EBD5, 0x059F2642);
  }

  lemma {:induction false} FirstBlends()
    ensures Blend(0xBD02EBD5, 0x059F95A9, 14) == 0xD3333D15
    ensures Blend(0x948B5244, 0xD3333D15, 11) == 0xADCFC0B8
    ensures Blend(0x059F95A9, 0xADCFC0B8, 25) == 0x36F4B590
    ensures Blend(0xD3333D15, 0x36F4B590, 16) == 0x30375191
  {
    hide Pow2, Blend;
    PowersUsed();
    BlendIs(0xBD02EBD5, 0x059F95A9, 14, 0xD5, 0xEB, 0x02, 0xBD, 0xA9, 0x95, 0x9F, 0x05, 0xB89D7E7C, 0xE56A4167);
    BlendIs(0x948B5244, 0xD3333D15, 11, 0x44, 0x52, 0x8B, 0x94, 0x15, 0x3D, 0x33, 0xD3, 0x47B86F51, 0x99E8AE99);
    BlendIs(0x059F95A9, 0xADCFC0B8, 25, 0xA9, 0x95, 0x9F, 0x05, 0xB8, 0xC0, 0xCF, 0xAD, 0xA8505511, 0x715B9F81);
    BlendIs(0xD3333D15, 0x36F4B590, 16, 0x15, 0x3D, 0x33, 0xD3, 0x90, 0xB5, 0xF4, 0x36, 0xE5C78885, 0xB59036F4);
  }

  lemma {:induction false} LastBlend()
    ensures Final(Mixed(0x948B5244, 0x059F95A9, 0xBD02EBD5)) == 0x17770551
  {
    hide Pow2, Stir, Blend;
    PowersUsed();
    FirstBlends();
    BlendIs(0xADCFC0B8, 0x30375191, 4, 0xB8, 0xC0, 0xCF, 0xAD, 0x91, 0x51, 0x37, 0x30, 0x9DF89129, 0x03751913);
    assert Blend(0xADCFC0B8, 0x30375191, 4) == 0x9A837816;
    BlendIs(0x36F4B590, 0x9A837816, 14, 0x90, 0xB5, 0xF4, 0x36, 0x16, 0x78, 0x83, 0x9A, 0xAC77CD86, 0xDE05A6A0);
    assert Blend(0x36F4B590, 0x9A837816, 14) == 0xCE7226E6;
    BlendIs(0x30375191, 0xCE7226E6, 24, 0x91, 0x51, 0x37, 0x30, 0xE6, 0x26, 0x72, 0xCE, 0xFE457777, 0xE6CE7226);
    assert Blend(0x30375191, 0xCE7226E6, 24) == 0x17770551;
  }

  lemma {:induction false} FirstWords()
    ensures Start(30, 0) == Mixed(0xDEADBF0D, 0xDEADBF0D, 0xDEADBF0D)
    ensures Absorb(Mixed(0xDEADBF0D, 0xDEADBF0D, 0xDEADBF0D), SPEECH) == Mixed(0x51232E53, 0x4E11322D, 0x3FCE247F)
  {
  }

  lemma {:induction false} SecondWords()
    ensures Absorb(Mixed(0xF859AD7A, 0x04BC57AE, 0x40DDDD7E), SPEECH[12..]) ==
      Mixed(0x6B7A11E8, 0x7321CE13, 0xA243569E)
  {
  }

  lemma {:induction false} LastWords()
    ensures Absorb(Mixed(0x336ADED2, 0x059F2642, 0xBD02EBD5), SPEECH[24..]) ==
      Mixed(0x948B5244, 0x059F95A9, 0xBD02EBD5)
  {
  }

  /** The value that lookup3's own self-test prints for this key. */
  lemma {:induction false} SpeechHash()
    ensures Hash(SPEECH, 0) == 0x17770551
  {
    hide Mix, Final, Absorb, Start;
    FirstMix();
    SecondMix();
    LastBlend();
    FirstWords();
    SecondWords();
    LastWords();
    assert SPEECH[12..][12..] == SPEECH[24..];
  }

  lemma EmptyHash()
    ensures Hash([], 0) == 0xDEADBEEF
  {
  }
}
