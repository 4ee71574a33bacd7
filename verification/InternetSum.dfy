/** Ones'-complement sums of bytes (sections 1 and 2 of RFC 1071) and the
    arithmetic modulo 65535 behind the ways of computing them. */
module InternetSum {
  import opened Bytes

  type Octets = seq<byte>

  // ----- the reference

  function Word(high: byte, low: byte): (w: nat)
    ensures w <= 65535
  {
    var h: int := high;
    256 * h + low
  }

  /** Sixteen-bit addition with end-around carry. */
  function OnesAdd(a: nat, b: nat): nat
    requires a <= 65535 && b <= 65535
  {
    if a + b > 65535 then a + b - 65535 else a + b
  }

  /** The sum of the 16-bit words in network order, a last odd byte padded with zero. */
  function RfcSum(b: Octets): (s: nat)
    ensures s <= 65535
  {
    if b == [] then 0
    else if |b| == 1 then Word(b[0], 0)
    else OnesAdd(Word(b[0], b[1]), RfcSum(b[2..]))
  }

  // ----- representatives

  /** The 16-bit representative of n: zero only for zero. */
  function Rep(n: nat): (r: nat)
    ensures r <= 65535
    ensures r == 0 <==> n == 0
  {
    if n == 0 then 0 else 1 + (n - 1) % 65535
  }

  /** x and n stand for the same sum. */
  predicate Same(x: nat, n: nat) {
    x % 65535 == n % 65535 && (x == 0 <==> n == 0)
  }

  lemma {:induction false} SameRep(x: nat, n: nat)
    requires Same(x, n)
    ensures Rep(x) == Rep(n)
  {
    RepResidue(x);
    RepResidue(n);
  }

  /** The representative is determined by the residue and by being zero. */
  lemma {:induction false} RepResidue(n: nat)
    ensures Rep(n) == if n == 0 then 0 else if n % 65535 == 0 then 65535 else n % 65535
    ensures Same(Rep(n), n)
  {
    if n > 0 {
      var q, r := (n - 1) / 65535, (n - 1) % 65535;
      assert n == 65535 * q + (r + 1);
      if r + 1 == 65535 {
        Residue(q + 1, 0);
      } else {
        Residue(q, r + 1);
      }
    }
  }

  lemma {:induction false} Residue(q: nat, r: nat)
    requires r < 65535
    ensures (65535 * q + r) % 65535 == r
  {
  }

  lemma {:induction false} SameAdd(a: nat, x: nat, b: nat, y: nat)
    requires Same(a, x) && Same(b, y)
    ensures Same(a + b, x + y)
  {
    SplitSum(a, b);
    SplitSum(x, y);
  }

  lemma {:induction false} SplitSum(a: nat, b: nat)
    ensures (a + b) % 65535 == (a % 65535 + b % 65535) % 65535
  {
    var q := a / 65535 + b / 65535;
    assert a + b == 65535 * q + (a % 65535 + b % 65535);
    AddMultiple(q, a % 65535 + b % 65535);
  }

  lemma {:induction false} AddMultiple(q: nat, r: nat)
    ensures (65535 * q + r) % 65535 == r % 65535
  {
    assert 65535 * q + r == 65535 * (q + r / 65535) + r % 65535;
    Residue(q + r / 65535, r % 65535);
  }

  lemma SameTransitive(a: nat, b: nat, c: nat)
    requires Same(a, b) && Same(b, c)
    ensures Same(a, c)
  {
  }

  // ----- folding and swapping

  /** FOLD_U32T. */
  function Fold(n: nat): nat {
    n / 65536 + n % 65536
  }

  lemma {:induction false} FoldSame(n: nat)
    ensures Same(Fold(n), n)
  {
    assert n == 65535 * (n / 65536) + Fold(n);
    AddMultiple(n / 65536, Fold(n));
  }

  lemma {:induction false} SmallIsRep(x: nat, n: nat)
    requires Same(x, n) && x <= 65535
    ensures x == Rep(n)
  {
    SameRep(x, n);
    RepResidue(x);
  }

  /** One fold is enough for the sum of two 16-bit numbers. */
  lemma {:induction false} FoldOnce(n: nat)
    requires n <= 0x1FFFE
    ensures Fold(n) == Rep(n)
  {
    FoldSame(n);
    SmallIsRep(Fold(n), n);
  }

  /** Two folds are enough for any 32-bit number. */
  lemma {:induction false} FoldTwice(n: nat)
    requires n < 0x1_0000_0000
    ensures Fold(n) <= 0x1FFFE && Fold(Fold(n)) == Rep(n)
  {
    FoldSame(n);
    FoldOnce(Fold(n));
    SameRep(Fold(n), n);
  }

  /** SWAP_BYTES_IN_WORD, also lwip_htons on a little-endian host. */
  function Swap(w: nat): nat
    requires w <= 65535
  {
    w % 256 * 256 + w / 256
  }

  lemma {:induction false} SwapTwice(w: nat)
    requires w <= 65535
    ensures Swap(w) <= 65535 && Swap(Swap(w)) == w
  {
    var h, l := w / 256, w % 256;
    assert Swap(w) == l * 256 + h;
    assert (l * 256 + h) / 256 == l && (l * 256 + h) % 256 == h;
  }

  /** Swapping multiplies by 256. */
  lemma {:induction false} SwapSame(w: nat)
    requires w <= 65535
    ensures Same(Swap(w), 256 * w)
  {
    assert 256 * w == 65535 * (w / 256) + Swap(w);
    AddMultiple(w / 256, Swap(w));
  }

  lemma {:induction false} SameTimes256(a: nat, x: nat)
    requires Same(a, x)
    ensures Same(256 * a, 256 * x)
  {
    Times256(a);
    Times256(x);
  }

  lemma {:induction false} Times256(a: nat)
    ensures (256 * a) % 65535 == (256 * (a % 65535)) % 65535
  {
    assert 256 * a == 65535 * (256 * (a / 65535)) + 256 * (a % 65535);
    AddMultiple(256 * (a / 65535), 256 * (a % 65535));
  }

  lemma {:induction false} SwapRep(n: nat)
    ensures Swap(Rep(n)) == Rep(256 * n)
  {
    var w := Rep(n);
    RepResidue(n);
    SwapSame(w);
    SameTimes256(w, n);
    SwapTwice(w);
    SmallIsRep(Swap(w), 256 * n);
  }

  // ----- weighted sums of bytes

  /** Bytes at even distance weigh 1 and the others 256, or the reverse. */
  function Weigh(b: Octets, high: bool): nat {
    if b == [] then 0 else (if high then Word(b[0], 0) else Word(0, b[0])) + Weigh(b[1..], !high)
  }

  predicate Odd(n: nat) { n % 2 == 1 }

  lemma {:induction false} WeighConcat(a: Octets, b: Octets, high: bool)
    ensures Weigh(a + b, high) == Weigh(a, high) + Weigh(b, high != Odd(|a|))
  {
    if a == [] {
      assert a + b == b;
    } else {
      WeighConcat(a[1..], b, !high);
      assert (a + b)[1..] == a[1..] + b;
    }
  }

  /** Shifting by one byte multiplies by 256, because 65536 counts as 1. */
  lemma {:induction false} WeighShift(b: Octets, high: bool)
    ensures Same(256 * Weigh(b, high), Weigh(b, !high))
  {
    if b != [] {
      var x := if high then Word(b[0], 0) else Word(0, b[0]);
      var y := if high then Word(0, b[0]) else Word(b[0], 0);
      var w, v := Weigh(b[1..], !high), Weigh(b[1..], high);
      WeighShift(b[1..], !high);
      ByteShift(b[0], high);
      SameAdd(256 * x, y, 256 * w, v);
    }
  }

  lemma {:induction false} ByteShift(x: byte, high: bool)
    ensures high ==> Same(256 * Word(x, 0), Word(0, x))
    ensures !high ==> Same(256 * Word(0, x), Word(x, 0))
  {
    assert 256 * Word(x, 0) == 65535 * x + x;
    AddMultiple(x, x);
  }

  /** No 32-bit overflow up to 0x20000 bytes. */
  lemma {:induction false} WeighBound(b: Octets, high: bool)
    ensures 2 * Weigh(b, high) <= 65535 * |b| + (if Odd(|b|) then (if high then 65025 else 0) else 0)
    ensures |b| <= 0x20000 ==> Weigh(b, high) <= 0xFFFF_0000
  {
    if |b| == 1 {
      assert b[1..] == [];
    } else if |b| >= 2 {
      WeighBound(b[2..], high);
      assert b[1..][1..] == b[2..];
      assert Weigh(b, high) == (if high then Word(b[0], b[1]) else Word(b[1], b[0])) + Weigh(b[2..], high);
    }
  }

  // ----- against the reference

  lemma {:induction false} OnesAddIsRep(a: nat, n: nat)
    requires a <= 65535
    ensures OnesAdd(a, Rep(n)) == Rep(a + n)
  {
    var s := OnesAdd(a, Rep(n));
    RepResidue(n);
    SameAdd(a, a, Rep(n), n);
    if a + Rep(n) > 65535 {
      AddMultiple(1, s);
    }
    SmallIsRep(s, a + n);
  }

  lemma {:induction false} RfcSumIsRep(b: Octets)
    ensures RfcSum(b) == Rep(Weigh(b, true))
  {
    if |b| == 1 {
      assert b[1..] == [];
      RepResidue(Word(b[0], 0));
    } else if |b| >= 2 {
      RfcSumIsRep(b[2..]);
      assert b[1..][1..] == b[2..];
      OnesAddIsRep(Word(b[0], b[1]), Weigh(b[2..], true));
    }
  }

  /** The sum the algorithms return: the reference in host byte order. */
  function HostSum(b: Octets): nat {
    Swap(RfcSum(b))
  }

  lemma {:induction false} HostSumIsRep(b: Octets)
    ensures HostSum(b) == Rep(Weigh(b, false))
  {
    RfcSumIsRep(b);
    SwapRep(Weigh(b, true));
    WeighShift(b, true);
    SameRep(256 * Weigh(b, true), Weigh(b, false));
  }
}
