/** The three checksum algorithms for a little-endian host and the checksums of
    buffer chains built on them. */
module Checksum {
  import opened Bytes
  import opened InternetSum

  type u16 = x: int | 0 <= x < 0x1_0000
  type u32 = x: int | 0 <= x < 0x1_0000_0000

  const MAX_LENGTH: nat := 0x20000

  // ----- words in memory

  lemma {:induction false} WeighTwo(b: Octets, pos: nat, high: bool)
    requires pos + 2 <= |b|
    ensures Weigh(b[pos..], high) ==
      (if high then Word(b[pos], b[pos + 1]) else Word(b[pos + 1], b[pos])) + Weigh(b[pos + 2..], high)
  {
    assert b[pos..][1..] == b[pos + 1..];
    assert b[pos + 1..][1..] == b[pos + 2..];
  }

  lemma {:induction false} WeighOne(b: Octets, pos: nat, high: bool)
    requires pos < |b|
    ensures Weigh(b[pos..], high) == (if high then Word(b[pos], 0) else Word(0, b[pos])) + Weigh(b[pos + 1..], !high)
  {
    assert b[pos..][1..] == b[pos + 1..];
  }

  lemma {:induction false} WeighWhole(b: Octets, high: bool)
    ensures Weigh(b[0..], high) == Weigh(b, high) && Weigh(b[|b|..], high) == 0
  {
    assert b[0..] == b;
  }

  predicate Aligned(address: nat, size: nat)
    requires size == 2 || size == 4
  {
    if size == 2 then address % 2 == 0 else address % 4 == 0
  }

  /** How alignment changes as a pointer moves. */
  lemma {:induction false} Alignment2(address: nat)
    ensures Aligned(address, 2) != Aligned(address + 1, 2) && Aligned(address, 2) == Aligned(address + 2, 2)
  {
    assert (address + 1) % 2 == 1 - address % 2;
    assert (address + 2) % 2 == address % 2;
  }

  lemma Alignment8(address: nat)
    requires Aligned(address, 4)
    ensures Aligned(address + 4, 4) && Aligned(address + 8, 4) && Aligned(address + 8, 2)
  {
  }

  lemma Alignment4(address: nat)
    requires Aligned(address, 2) && !Aligned(address, 4)
    ensures Aligned(address + 2, 4)
  {
    var h := address / 2;
    assert address == 4 * (h / 2) + 2 * (h % 2);
    assert address + 2 == 4 * (h / 2 + 1);
  }

  /** A 16-bit load, only from an even address. */
  function Load16(address: nat, b: Octets, pos: nat): u16
    requires pos + 2 <= |b| && Aligned(address + pos, 2)
  {
    Word(b[pos + 1], b[pos])
  }

  // ----- version 1: octet pairs in network order

  method StandardChksum1(b: Octets) returns (r: u16)
    requires |b| <= MAX_LENGTH
    ensures r == HostSum(b)
  {
    hide Weigh, Word, Rep, Swap, RfcSum;
    WeighWhole(b, true);
    WeighBound(b, true);
    var acc: u32 := 0;
    var pos, len := 0, |b|;
    while len > 1
      invariant 0 <= pos && 0 <= len && pos + len == |b|
      invariant acc + Weigh(b[pos..], true) == Weigh(b, true)
    {
      WeighTwo(b, pos, true);
      acc := acc + Word(b[pos], b[pos + 1]);
      pos, len := pos + 2, len - 2;
    }
    if len > 0 {
      WeighOne(b, pos, true);
      WeighWhole(b, false);
      acc := acc + Word(b[pos], 0);
    }
    assert acc == Weigh(b, true);
    RfcSumIsRep(b);
    r := Reorder(acc);
  }

  /** Folds the deferred carries and puts the sum into host order. */
  method Reorder(sum: u32) returns (r: u16)
    ensures r == Swap(Rep(sum))
  {
    FoldTwice(sum);
    FoldOnceOrTwice(sum);
    var acc := Fold(sum);
    if acc >= 0x10000 {
      acc := Fold(acc);
    }
    SwapTwice(acc);
    r := Swap(acc);
  }

  /** The second fold does nothing to a 16-bit number. */
  lemma {:induction false} FoldOnceOrTwice(n: nat)
    requires n < 0x1_0000_0000
    ensures Fold(n) < 0x10000 ==> Fold(Fold(n)) == Fold(n)
  {
  }

  // ----- version 2: aligned 16-bit words

  method StandardChksum2(addr: nat, b: Octets) returns (r: u16)
    requires |b| <= MAX_LENGTH
    ensures r == HostSum(b)
  {
    hide Weigh, Aligned, Word, Rep, Swap, RfcSum, HostSum;
    var odd := !Aligned(addr, 2);
    Alignment2(addr);
    var len, pos := |b|, 0;
    var low: byte, high: byte := 0, 0;
    WeighWhole(b, odd);
    WeighWhole(b, !odd);
    WeighBound(b, odd);
    if odd && len > 0 {
      WeighOne(b, 0, true);
      high := b[0];
      pos, len := 1, len - 1;
    }
    WordZero();
    var sum: u32 := 0;
    assert odd && len == 0 ==> pos == |b|;
    while len > 1
      invariant 0 <= pos && 0 <= len && pos + len == |b|
      invariant len > 0 ==> Aligned(addr + pos, 2)
      invariant sum + Word(high, 0) + Weigh(b[pos..], false) == Weigh(b, odd)
    {
      WeighTwo(b, pos, false);
      Alignment2(addr + pos);
      sum := sum + Load16(addr, b, pos);
      pos, len := pos + 2, len - 2;
    }
    if len > 0 {
      WeighOne(b, pos, false);
      low := b[pos];
    }
    WordSplits(high, low);
    WeighWhole(b, true);
    sum := sum + Word(high, low);
    assert sum == Weigh(b, odd);
    EitherParity(b, odd);
    r := FoldAndSwap(sum, odd);
  }

  method FoldAndSwap(total: u32, odd: bool) returns (r: u16)
    ensures r == if odd then Swap(Rep(total)) else Rep(total)
  {
    FoldTwice(total);
    var sum := Fold(total);
    sum := Fold(sum);
    SwapTwice(sum);
    if odd {
      sum := Swap(sum);
    }
    r := sum;
  }

  lemma WordSplits(high: byte, low: byte)
    ensures Word(high, 0) + Word(0, low) == Word(high, low)
  {
  }

  lemma WordZero()
    ensures Word(0, 0) == 0
  {
  }

  /** Starting one byte off and swapping at the end makes no difference. */
  lemma {:induction false} EitherParity(b: Octets, odd: bool)
    ensures HostSum(b) == if odd then Swap(Rep(Weigh(b, true))) else Rep(Weigh(b, false))
  {
    HostSumIsRep(b);
    RfcSumIsRep(b);
  }

  // ----- version 3: aligned 32-bit words, two at a time

  function Word32(b: Octets, pos: nat): u32
    requires pos + 4 <= |b|
  {
    Word(b[pos + 1], b[pos]) + 65536 * Word(b[pos + 3], b[pos + 2])
  }

  /** A 32-bit load, only from an address divisible by four. */
  function Load32(address: nat, b: Octets, pos: nat): u32
    requires pos + 4 <= |b| && Aligned(address + pos, 4)
  {
    Word32(b, pos)
  }

  lemma {:induction false} Word32Same(b: Octets, pos: nat)
    requires pos + 4 <= |b|
    ensures Same(Word32(b, pos), Word(b[pos + 1], b[pos]) + Word(b[pos + 3], b[pos + 2]))
  {
    var x, y := Word(b[pos + 1], b[pos]), Word(b[pos + 3], b[pos + 2]);
    assert Word32(b, pos) == 65535 * y + (x + y);
    AddMultiple(y, x + y);
  }

  /** Addition modulo 2^32 with the carry added back. */
  function AddCarry(sum: u32, w: u32): u32 {
    var tmp := (sum + w) % 0x1_0000_0000;
    if tmp < sum then tmp + 1 else tmp
  }

  lemma {:induction false} AddCarrySame(sum: u32, w: u32)
    ensures Same(AddCarry(sum, w), sum + w)
  {
    if sum + w >= 0x1_0000_0000 {
      assert AddCarry(sum, w) == sum + w - 0xFFFF_FFFF;
      assert sum + w == 65535 * 65537 + AddCarry(sum, w);
      AddMultiple(65537, AddCarry(sum, w));
    }
  }

  /** What is summed and what is left stand together for the whole. */
  ghost predicate Progress(b: Octets, odd: bool, pos: nat, sum: nat, end: nat) {
    pos <= |b| && Same(sum + end + Weigh(b[pos..], false), Weigh(b, odd))
  }

  lemma {:induction false} AddWord32(b: Octets, odd: bool, pos: nat, sum: u32, end: nat)
    requires Progress(b, odd, pos, sum, end) && pos + 4 <= |b|
    ensures Progress(b, odd, pos + 4, AddCarry(sum, Word32(b, pos)), end)
  {
    hide Weigh, AddCarry, Word32, Same;
    var w := Word32(b, pos);
    var x, y := Word(b[pos + 1], b[pos]), Word(b[pos + 3], b[pos + 2]);
    var rest := end + Weigh(b[pos + 4..], false);
    AddCarrySame(sum, w);
    Word32Same(b, pos);
    Reflexive(sum);
    Reflexive(rest);
    SameAdd(sum, sum, w, x + y);
    SameTransitive(AddCarry(sum, w), sum + w, sum + (x + y));
    SameAdd(AddCarry(sum, w), sum + (x + y), rest, rest);
    WeighTwo(b, pos, false);
    WeighTwo(b, pos + 2, false);
    assert sum + (x + y) + rest == sum + end + Weigh(b[pos..], false);
    SameTransitive(AddCarry(sum, w) + rest, sum + (x + y) + rest, Weigh(b, odd));
    assert AddCarry(sum, w) + end + Weigh(b[pos + 4..], false) == AddCarry(sum, w) + rest;
  }

  lemma Reflexive(n: nat)
    ensures Same(n, n)
  {
  }

  lemma {:induction false} FoldProgress(b: Octets, odd: bool, pos: nat, sum: u32, end: nat)
    requires Progress(b, odd, pos, sum, end)
    ensures Progress(b, odd, pos, Fold(sum), end)
  {
    hide Weigh, Fold, Same;
    var rest := end + Weigh(b[pos..], false);
    FoldSame(sum);
    Reflexive(rest);
    SameAdd(Fold(sum), sum, rest, rest);
    SameTransitive(Fold(sum) + rest, sum + rest, Weigh(b, odd));
    assert Fold(sum) + end + Weigh(b[pos..], false) == Fold(sum) + rest;
    assert sum + end + Weigh(b[pos..], false) == sum + rest;
  }

  lemma {:induction false} AddWord16(b: Octets, odd: bool, pos: nat, sum: nat, end: nat)
    requires Progress(b, odd, pos, sum, end) && pos + 2 <= |b|
    ensures Progress(b, odd, pos + 2, sum + Word(b[pos + 1], b[pos]), end)
  {
    hide Weigh, Same;
    WeighTwo(b, pos, false);
  }

  lemma {:induction false} Finish(b: Octets, odd: bool, sum: nat, end: nat)
    requires Progress(b, odd, |b|, sum, end)
    ensures Rep(sum + end) == Rep(Weigh(b, odd))
  {
    hide Weigh;
    WeighWhole(b, false);
    SameRep(sum + end, Weigh(b, odd));
  }

  lemma {:induction false} FinishOne(b: Octets, odd: bool, sum: u32, high: byte)
    requires b != [] && Progress(b, odd, |b| - 1, sum, Word(high, 0))
    ensures Progress(b, odd, |b|, sum, Word(high, b[|b| - 1]))
  {
    hide Weigh, Same;
    WeighOne(b, |b| - 1, false);
    WeighWhole(b, false);
    WeighWhole(b, true);
  }

  lemma {:induction false} Begin(b: Octets, odd: bool)
    ensures !odd || b == [] ==> Progress(b, odd, 0, 0, 0)
    ensures odd && b != [] ==> Progress(b, odd, 1, 0, Word(b[0], 0))
  {
    WeighWhole(b, odd);
    if odd && b != [] {
      WeighOne(b, 0, true);
    }
  }

  method StandardChksum3(addr: nat, b: Octets) returns (r: u16)
    ensures r == HostSum(b)
  {
    hide Weigh, Progress, Fold, AddCarry, Aligned, Word, Word32, Rep, Swap, RfcSum, HostSum;
    var odd := !Aligned(addr, 2);
    Alignment2(addr);
    var len, pos := |b|, 0;
    var low: byte, high: byte := 0, 0;
    var sum: u32, tmp: u32 := 0, 0;
    Begin(b, odd);
    WordZero();
    if odd && len > 0 {
      high := b[0];
      pos, len := 1, len - 1;
    }
    if !Aligned(addr + pos, 4) && len > 1 {
      Alignment4(addr + pos);
      Alignment2(addr + pos);
      AddWord16(b, odd, pos, sum, Word(high, 0));
      sum := sum + Load16(addr, b, pos);
      pos, len := pos + 2, len - 2;
    }
    while len > 7
      invariant 0 <= pos && 0 <= len && pos + len == |b|
      invariant len > 7 ==> Aligned(addr + pos, 4)
      invariant len > 0 ==> Aligned(addr + pos, 2)
      invariant Progress(b, odd, pos, sum, Word(high, 0))
    {
      Alignment8(addr + pos);
      AddWord32(b, odd, pos, sum, Word(high, 0));
      tmp := AddCarry(sum, Load32(addr, b, pos));
      AddWord32(b, odd, pos + 4, tmp, Word(high, 0));
      sum := AddCarry(tmp, Load32(addr, b, pos + 4));
      pos, len := pos + 8, len - 8;
    }
    FoldProgress(b, odd, pos, sum, Word(high, 0));
    FoldTwice(sum);
    sum := Fold(sum);
    ghost var added := 0;
    while len > 1
      invariant 0 <= pos && 0 <= len && pos + len == |b|
      invariant len > 0 ==> Aligned(addr + pos, 2)
      invariant 0 <= added && len + 2 * added <= 7 && sum <= 0x1FFFE + 65535 * added
      invariant Progress(b, odd, pos, sum, Word(high, 0))
    {
      AddWord16(b, odd, pos, sum, Word(high, 0));
      Alignment2(addr + pos);
      sum := sum + Load16(addr, b, pos);
      pos, len := pos + 2, len - 2;
      added := added + 1;
    }
    if len > 0 {
      FinishOne(b, odd, sum, high);
      low := b[pos];
    }
    Finish(b, odd, sum, Word(high, low));
    sum := sum + Word(high, low);
    EitherParity(b, odd);
    r := FoldAndSwap(sum, odd);
  }
}
