/** Checksums over chains of buffers: a packet cut into segments in any way has
    the checksum of the uncut packet. */
module ChecksumChain {
  import opened Bytes
  import opened InternetSum
  import opened Checksum

  /** One buffer of a chain: where its payload lies and what it holds. */
  datatype Pbuf = Pbuf(addr: nat, payload: Octets)

  predicate Fits(chain: seq<Pbuf>) {
    forall i :: 0 <= i < |chain| ==> |chain[i].payload| <= 65535
  }

  function Concat(chain: seq<Pbuf>): Octets {
    if chain == [] then [] else Concat(chain[..|chain| - 1]) + chain[|chain| - 1].payload
  }

  // ----- sums that may stand one byte off

  /** A sum as it appears after an odd number of bytes. */
  function Turned(n: nat, swapped: bool): nat {
    if swapped then 256 * n else n
  }

  lemma {:induction false} TurnTwice(n: nat)
    ensures Same(256 * (256 * n), n)
  {
    assert 256 * (256 * n) == 65535 * n + n;
    AddMultiple(n, n);
  }

  /** Swapping the representative turns it. */
  lemma {:induction false} SwapTurns(n: nat, swapped: bool)
    ensures Swap(Rep(Turned(n, swapped))) == Rep(Turned(n, !swapped))
  {
    SwapRep(Turned(n, swapped));
    if swapped {
      TurnTwice(n);
      SameRep(256 * (256 * n), n);
    }
  }

  /** Adding the sum of a segment that starts at the turn. */
  lemma {:induction false} AddSegment(n: nat, swapped: bool, segment: Octets)
    ensures Fold(Rep(Turned(n, swapped)) + HostSum(segment)) == Rep(Turned(n + Weigh(segment, swapped), swapped))
  {
    hide Weigh, Rep, Fold, HostSum;
    var m := Turned(n, swapped);
    var w, v := Weigh(segment, false), Weigh(segment, swapped);
    HostSumIsRep(segment);
    RepResidue(m);
    RepResidue(w);
    SameAdd(Rep(m), m, Rep(w), w);
    FoldOnce(Rep(m) + Rep(w));
    SameRep(Rep(m) + Rep(w), m + w);
    TurnedSum(n, swapped, w, v, segment);
  }

  lemma {:induction false} TurnedSum(n: nat, swapped: bool, w: nat, v: nat, segment: Octets)
    requires w == Weigh(segment, false) && v == Weigh(segment, swapped)
    ensures Rep(Turned(n, swapped) + w) == Rep(Turned(n + v, swapped))
  {
    hide Weigh, Rep;
    if swapped {
      WeighShift(segment, true);
      SameAdd(256 * n, 256 * n, 256 * v, w);
      SameRep(256 * n + 256 * v, 256 * n + w);
    }
  }

  // ----- the chain loop

  lemma {:induction false} ConcatNext(chain: seq<Pbuf>, i: nat)
    requires i < |chain|
    ensures Concat(chain[..i + 1]) == Concat(chain[..i]) + chain[i].payload
  {
    assert chain[..i + 1][..i] == chain[..i];
  }

  lemma {:induction false} OddSum(a: nat, b: nat)
    ensures Odd(a + b) == (Odd(a) != Odd(b))
  {
    var p, q := a / 2, b / 2;
    assert a + b == 2 * (p + q) + (a % 2 + b % 2);
  }

  lemma {:induction false} SegmentStep(n: nat, done: Octets, segment: Octets, swapped: bool)
    requires swapped == Odd(|done|)
    ensures
      Fold(Rep(Turned(n + Weigh(done, false), swapped)) + HostSum(segment))
      == Rep(Turned(n + Weigh(done + segment, false), swapped))
  {
    hide Weigh, Rep, Fold, HostSum, Turned;
    AddSegment(n + Weigh(done, false), swapped, segment);
    WeighConcat(done, segment, false);
    assert n + Weigh(done, false) + Weigh(segment, swapped) == n + Weigh(done + segment, false);
  }

  /** The loop of inet_chksum_pbuf and inet_cksum_pseudo_base: one fold per
      segment keeps the accumulator within 16 bits. */
  method SumChain(chain: seq<Pbuf>, start: u16) returns (r: u16)
    requires Fits(chain)
    ensures r == Rep(start + Weigh(Concat(chain), false))
  {
    hide Weigh, Rep, Fold, HostSum, Turned, Swap, Concat, Odd;
    var acc: u32 := start;
    var swapped := false;
    ghost var done: Octets := [];
    StartOfChain(chain, start);
    var i := 0;
    while i < |chain|
      invariant 0 <= i <= |chain|
      invariant done == Concat(chain[..i]) && swapped == Odd(|done|)
      invariant acc == Rep(Turned(start + Weigh(done, false), swapped))
    {
      var q := chain[i];
      ConcatNext(chain, i);
      SegmentStep(start, done, q.payload, swapped);
      OddSum(|done|, |q.payload|);
      done := done + q.payload;
      var s := StandardChksum2(q.addr, q.payload);
      acc := acc + s;
      acc := Fold(acc);
      if Odd(|q.payload|) {
        SwapTurns(start + Weigh(done, false), swapped);
        SwapTwice(acc);
        swapped := !swapped;
        acc := Swap(acc);
      }
      i := i + 1;
    }
    assert chain[..i] == chain;
    if swapped {
      SwapTurns(start + Weigh(done, false), swapped);
      SwapTwice(acc);
      acc := Swap(acc);
    }
    NotTurned(start + Weigh(done, false));
    r := acc;
  }

  lemma {:induction false} NotTurned(n: nat)
    ensures Turned(n, false) == n
  {
  }

  lemma {:induction false} StartOfChain(chain: seq<Pbuf>, start: u16)
    ensures Concat(chain[..0]) == [] && !Odd(0)
    ensures start == Rep(Turned(start + Weigh([], false), false))
  {
    RepResidue(start);
  }

  // ----- without a pseudo header

  /** inet_chksum. */
  method InetChksum(addr: nat, b: Octets) returns (r: u16)
    requires |b| <= 65535
    ensures r == 65535 - HostSum(b)
  {
    var s := StandardChksum2(addr, b);
    r := 65535 - s;
  }

  /** inet_chksum_pbuf: exactly inet_chksum of the concatenation. */
  method InetChksumPbuf(chain: seq<Pbuf>) returns (r: u16)
    requires Fits(chain)
    ensures r == 65535 - HostSum(Concat(chain))
  {
    var acc := SumChain(chain, 0);
    HostSumIsRep(Concat(chain));
    r := 65535 - acc;
  }

  // ----- with a pseudo header

  /** Addresses, a zero byte, the protocol and the length, in network order. */
  function PseudoHeader(src: Octets, dst: Octets, proto: byte, length: u16): Octets {
    src + dst + [0, proto, length / 256, length % 256]
  }

  /** The address words of inet_chksum_pseudo, folded to 16 bits. */
  method AddressSum(src: Octets, dst: Octets) returns (acc: u16)
    requires |src| == 4 && |dst| == 4
    ensures acc == Rep(Weigh(src + dst, false))
  {
    var a: u32 := Word(src[1], src[0]) + Word(src[3], src[2]);
    a := a + Word(dst[1], dst[0]) + Word(dst[3], dst[2]);
    AddressWords(src, dst);
    FoldTwice(a);
    a := Fold(a);
    a := Fold(a);
    acc := a;
  }

  lemma {:induction false} AddressWords(src: Octets, dst: Octets)
    requires |src| == 4 && |dst| == 4
    ensures Weigh(src + dst, false) == Word(src[1], src[0]) + Word(src[3], src[2]) + Word(dst[1], dst[0]) +
      Word(dst[3], dst[2])
  {
    hide Weigh, Word;
    var b := src + dst;
    WeighWhole(b, false);
    WeighTwo(b, 0, false);
    WeighTwo(b, 2, false);
    WeighTwo(b, 4, false);
    WeighTwo(b, 6, false);
  }

  lemma {:induction false} HeaderTail(proto: byte, length: u16)
    ensures Weigh([0, proto, length / 256, length % 256], false) == Swap(proto) + Swap(length)
  {
    var t: Octets := [0, proto, length / 256, length % 256];
    hide Weigh;
    WeighWhole(t, false);
    WeighTwo(t, 0, false);
    WeighTwo(t, 2, false);
    assert Word(proto, 0) == Swap(proto);
    assert Word(length % 256, length / 256) == Swap(length);
  }

  /** The checksum over header and data is what the parts add up to. */
  lemma {:induction false} HeaderAndData(src: Octets, dst: Octets, proto: byte, length: u16, acc: u16, data: Octets)
    requires |src| == 4 && |dst| == 4 && acc == Rep(Weigh(src + dst, false))
    ensures Rep(Rep(acc + Weigh(data, false)) + Swap(proto) + Swap(length)) ==
      HostSum(PseudoHeader(src, dst, proto, length) + data)
  {
    hide Weigh, Rep, Swap, HostSum, Same;
    var tail: Octets := [0, proto, length / 256, length % 256];
    var h, d, t := Weigh(src + dst, false), Weigh(data, false), Weigh(tail, false);
    HeaderTail(proto, length);
    Reflexive(d);
    Reflexive(t);
    RepResidue(h);
    SameAdd(acc, h, d, d);
    RepResidue(acc + d);
    SameTransitive(Rep(acc + d), acc + d, h + d);
    SameAdd(Rep(acc + d), h + d, t, t);
    SameRep(Rep(acc + d) + t, h + d + t);
    var header := PseudoHeader(src, dst, proto, length);
    EvenHeader(src + dst, tail, data);
    HostSumIsRep(header + data);
    assert Rep(acc + d) + t == Rep(acc + d) + Swap(proto) + Swap(length);
    assert h + d + t == Weigh(header + data, false);
  }

  lemma {:induction false} EvenHeader(addresses: Octets, tail: Octets, data: Octets)
    requires |addresses| == 8 && |tail| == 4
    ensures Weigh(addresses + tail + data, false) == Weigh(addresses, false) + Weigh(tail, false) + Weigh(data, false)
  {
    hide Weigh;
    WeighConcat(addresses + tail, data, false);
    WeighConcat(addresses, tail, false);
  }

  /** The protocol and length are added last and folded in twice. */
  method AddProtocol(sum: u16, proto: byte, length: u16) returns (r: u16)
    ensures r == 65535 - Rep(sum + Swap(proto) + Swap(length))
  {
    SwapTwice(proto);
    SwapTwice(length);
    var acc: u32 := sum + Swap(proto);
    acc := acc + Swap(length);
    FoldTwice(acc);
    acc := Fold(acc);
    acc := Fold(acc);
    r := 65535 - acc;
  }

  /** inet_chksum_pseudo. */
  method InetChksumPseudo(chain: seq<Pbuf>, proto: byte, length: u16, src: Octets, dst: Octets) returns (r: u16)
    requires Fits(chain) && |src| == 4 && |dst| == 4
    ensures r == 65535 - HostSum(PseudoHeader(src, dst, proto, length) + Concat(chain))
  {
    var start := AddressSum(src, dst);
    var acc := SumChain(chain, start);
    HeaderAndData(src, dst, proto, length, start, Concat(chain));
    r := AddProtocol(acc, proto, length);
  }

  // ----- a prefix of the chain

  function Min(a: nat, b: nat): nat { if a < b then a else b }

  function Take(b: Octets, n: nat): Octets {
    b[..Min(|b|, n)]
  }

  /** The chain starts with the concatenation of its first buffers. */
  lemma {:induction false} ConcatPrefix(chain: seq<Pbuf>, i: nat)
    requires i <= |chain|
    ensures |Concat(chain[..i])| <= |Concat(chain)| && Concat(chain)[..|Concat(chain[..i])|] == Concat(chain[..i])
    decreases |chain| - i
  {
    if i < |chain| {
      ConcatPrefix(chain, i + 1);
      ConcatNext(chain, i);
      var a, b := Concat(chain[..i]), Concat(chain[..i + 1]);
      assert Concat(chain)[..|a|] == Concat(chain)[..|b|][..|a|] == b[..|a|] == a;
    } else {
      assert chain[..i] == chain;
    }
  }

  lemma {:induction false} TakeNext(done: Octets, before: Octets, payload: Octets, length: nat)
    requires done == Take(before, length) && |before| <= length
    ensures done + Take(payload, length - |done|) == Take(before + payload, length)
    ensures |Take(payload, length - |done|)| == |payload| || |done + Take(payload, length - |done|)| == length
  {
  }

  lemma {:induction false} TakeStops(chain: seq<Pbuf>, i: nat, length: nat)
    requires i <= |chain| && (i == |chain| || |Concat(chain[..i])| >= length)
    ensures Take(Concat(chain[..i]), length) == Take(Concat(chain), length)
  {
    ConcatPrefix(chain, i);
    if i == |chain| {
      assert chain[..i] == chain;
    } else {
      var a := Concat(chain[..i]);
      assert Concat(chain)[..length] == Concat(chain)[..|a|][..length];
    }
  }

  /** What is left of the length after the first buffer: the quantity that the
      assertion in inet_cksum_pseudo_partial_base bounds. */
  function LeftAfterFirst(chain: seq<Pbuf>, length: nat): nat {
    if chain == [] then 0 else length - Min(|chain[0].payload|, length)
  }

  /** The loop of inet_cksum_pseudo_partial_base. It turns by the whole length
      of a buffer even where it sums only part of it, which is harmless because
      that buffer is the last. `asserted` says that no assertion failed. */
  method SumPrefix(chain: seq<Pbuf>, start: u16, length: u16) returns (r: u16, asserted: bool)
    requires Fits(chain)
    ensures r == Rep(start + Weigh(Take(Concat(chain), length), false))
    ensures asserted <==> LeftAfterFirst(chain, length) < 0x7fff
  {
    hide Weigh, Rep, Fold, HostSum, Turned, Swap, Concat, Odd, Take;
    var acc: u32 := start;
    var swapped := false;
    var left: nat := length;
    asserted := true;
    ghost var done: Octets := [];
    StartOfChain(chain, start);
    StartOfPrefix(length);
    var i := 0;
    while i < |chain| && left > 0
      invariant 0 <= i <= |chain| && |done| + left == length
      invariant done == Take(Concat(chain[..i]), length)
      invariant left > 0 ==> swapped == Odd(|done|) && |Concat(chain[..i])| <= length
      invariant left == 0 ==> |Concat(chain[..i])| >= length
      invariant acc == Rep(Turned(start + Weigh(done, false), swapped))
      invariant i == 0 ==> asserted && left == length
      invariant i > 0 ==> left <= LeftAfterFirst(chain, length)
      invariant i > 0 ==> (asserted <==> LeftAfterFirst(chain, length) < 0x7fff)
    {
      var q := chain[i];
      var chklen := Min(|q.payload|, left);
      var segment := q.payload[..chklen];
      TakeIs(q.payload, left);
      ConcatNext(chain, i);
      TakeNext(done, Concat(chain[..i]), q.payload, length);
      TakeLength(Concat(chain[..i + 1]), length);
      SegmentStep(start, done, segment, swapped);
      OddSum(|done|, |segment|);
      done := done + segment;
      var s := StandardChksum2(q.addr, segment);
      acc := acc + s;
      left := left - chklen;
      if left >= 0x7fff {
        asserted := false;
      }
      acc := Fold(acc);
      if Odd(|q.payload|) {
        SwapTurns(start + Weigh(done, false), swapped);
        SwapTwice(acc);
        swapped := !swapped;
        acc := Swap(acc);
      }
      i := i + 1;
    }
    TakeStops(chain, i, length);
    if swapped {
      SwapTurns(start + Weigh(done, false), swapped);
      SwapTwice(acc);
      acc := Swap(acc);
    }
    NotTurned(start + Weigh(done, false));
    r := acc;
  }

  lemma {:induction false} StartOfPrefix(n: nat)
    ensures Take([], n) == []
  {
  }

  lemma {:induction false} TakeIs(b: Octets, n: nat)
    ensures Take(b, n) == b[..Min(|b|, n)]
  {
  }

  lemma {:induction false} TakeLength(b: Octets, n: nat)
    ensures |Take(b, n)| == Min(|b|, n)
  {
  }

  /** inet_chksum_pseudo_partial: the checksum of the header and the prefix. */
  method InetChksumPseudoPartial(chain: seq<Pbuf>, proto: byte, length: u16, partial: u16, src: Octets, dst: Octets)
    returns (r: u16, asserted: bool)
    requires Fits(chain) && |src| == 4 && |dst| == 4
    ensures r == 65535 - HostSum(PseudoHeader(src, dst, proto, length) + Take(Concat(chain), partial))
    ensures asserted <==> LeftAfterFirst(chain, partial) < 0x7fff
  {
    hide HostSum, Weigh, Rep, Swap, Concat, Take, PseudoHeader, LeftAfterFirst;
    var start := AddressSum(src, dst);
    var acc;
    acc, asserted := SumPrefix(chain, start, partial);
    HeaderAndData(src, dst, proto, length, start, Take(Concat(chain), partial));
    r := AddProtocol(acc, proto, length);
  }

  // ----- what the checksum is for

  /** The twelve bytes of section 3.1 of RFC 793. */
  lemma PseudoHeaderLayout(src: Octets, dst: Octets, proto: byte, length: u16)
    requires |src| == 4 && |dst| == 4
    ensures
      var h := PseudoHeader(src, dst, proto, length);
      && |h| == 12 && h[..4] == src && h[4..8] == dst && h[8] == 0 && h[9] == proto
      && 256 * h[10] as int + h[11] == length
  {
  }

  lemma {:induction false} RestOfSum(w: nat)
    ensures Rep(w + (65535 - Rep(w))) == 65535
  {
    RepResidue(w);
    var n := w + (65535 - Rep(w));
    RepResidue(n);
    if w > 0 {
      var q := (w - 1) / 65535;
      assert w == 65535 * q + Rep(w);
      assert n == 65535 * (q + 1);
      Residue(q + 1, 0);
    }
  }

  lemma {:induction false} FieldWeighs(a: Octets, c: u16, b: Octets)
    requires |a| % 2 == 0
    ensures Weigh(a + [c % 256, c / 256] + b, false) == Weigh(a + [0, 0] + b, false) + c
  {
    hide Weigh;
    var x: Octets, z: Octets := [c % 256, c / 256], [0, 0];
    WeighConcat(a + x, b, false);
    WeighConcat(a, x, false);
    WeighConcat(a + z, b, false);
    WeighConcat(a, z, false);
    WeighField(x);
    WeighField(z);
  }

  lemma WeighField(x: Octets)
    requires |x| == 2
    ensures Weigh(x, false) == x[0] as int + 256 * x[1] as int
  {
    var y := x[1..];
    assert y[0] == x[1] && y[1..] == [];
    assert Weigh(y, true) == Word(x[1], 0);
  }

  /** Once the checksum is stored in its field, which was zero before and lies at
      an even place, the checksum of the whole is zero: what a receiver tests. */
  lemma {:induction false} StoredChecksumVerifies(a: Octets, b: Octets, c: u16)
    requires |a| % 2 == 0 && c == 65535 - HostSum(a + [0, 0] + b)
    ensures 65535 - HostSum(a + [c % 256, c / 256] + b) == 0
  {
    hide HostSum, Weigh;
    HostSumIsRep(a + [0, 0] + b);
    HostSumIsRep(a + [c % 256, c / 256] + b);
    FieldWeighs(a, c, b);
    RestOfSum(Weigh(a + [0, 0] + b, false));
  }
}
