/** Who owns what: the memory each request is given and gives back, over every
    run of malloc and free. */
module HeapLedger {
  import opened HeapBlocks

  /** The pointer p names an allocated block of n bytes, header included. */
  ghost predicate Owns(bs: seq<Block>, p: nat, n: nat) {
    exists k :: 0 <= k < |bs| && !bs[k].free && bs[k].addr + HEADER == p && bs[k].size == n
  }

  /** The free block the taking leaves behind, if any. */
  function Rest(b: Block, taken: nat): seq<Block>
    requires taken <= b.size
  {
    if taken < b.size then [Block(b.addr + taken, b.size - taken, true)] else []
  }

  /** malloc takes the rounded request, and up to sixteen bytes more only where
      the rest would be too small to stand alone. Nothing else changes. */
  lemma {:induction false} MallocTakes(bs: seq<Block>, base: nat, end: nat, wanted: nat) returns (k: nat, taken: nat)
    requires WellFormed(bs, base, end) && MallocResult(bs, wanted) != NULL
    ensures k < |bs| && bs[k].free && bs[k].addr + 8 == MallocResult(bs, wanted)
    ensures Rounded(wanted) <= taken <= Rounded(wanted) + 16 && taken <= bs[k].size
    ensures bs[k].size > Rounded(wanted) + 16 ==> taken == Rounded(wanted)
    ensures bs[k].size <= Rounded(wanted) + 16 ==> taken == bs[k].size
    ensures AfterMalloc(bs, wanted) ==
      bs[..k] + [Block(bs[k].addr, taken, false)] + Rest(bs[k], taken) + bs[k + 1..]
    ensures FreeBytes(AfterMalloc(bs, wanted)) + taken == FreeBytes(bs)
  {
    hide WellFormed, FirstFit, Rounded, FreeBytes, CarvedPart;
    k := FirstFit(bs, Rounded(wanted));
    taken := PartTaken(bs[k], Rounded(wanted));
    var mid := [Block(bs[k].addr, taken, false)] + Rest(bs[k], taken);
    assert bs[k..k + 1] == [bs[k]];
    FreeBytesOfSplice(bs, k, k + 1, mid);
    PartsOf(bs[k], taken);
  }

  lemma PartTaken(b: Block, need: nat) returns (taken: nat)
    requires b.free && need <= b.size
    ensures need <= taken <= need + 16 && taken <= b.size
    ensures b.size > need + 16 ==> taken == need
    ensures b.size <= need + 16 ==> taken == b.size
    ensures CarvedPart(b, need) == [Block(b.addr, taken, false)] + Rest(b, taken)
  {
    taken := if b.size > need + 16 then need else b.size;
  }

  lemma PartsOf(b: Block, taken: nat)
    requires b.free && taken <= b.size
    ensures FreeBytes([b]) == FreeBytes([Block(b.addr, taken, false)] + Rest(b, taken)) + taken
  {
    var mid := [Block(b.addr, taken, false)] + Rest(b, taken);
    assert [b][1..] == [];
    assert mid[1..] == Rest(b, taken);
    if taken < b.size {
      assert Rest(b, taken)[1..] == [];
    }
  }

  /** Sizes of the 32-bit port: a header of two words and an alignment of four. */
  lemma RequestIsRounded(wanted: nat)
    ensures Rounded(wanted) % 4 == 0 && wanted + 8 <= Rounded(wanted) < wanted + 12
  {
  }

  // ----- the owners before and after

  lemma {:induction false} SpliceOwns(bs: seq<Block>, lo: nat, hi: nat, mid: seq<Block>, p: nat, n: nat)
    requires lo <= hi <= |bs|
    ensures Owns(Splice(bs, lo, hi, mid), p, n) <==> Owns(bs[..lo], p, n) || Owns(mid, p, n) || Owns(bs[hi..], p, n)
  {
    OwnsConcat(bs[..lo] + mid, bs[hi..], p, n);
    OwnsConcat(bs[..lo], mid, p, n);
  }

  lemma {:induction false} OwnsConcat(a: seq<Block>, b: seq<Block>, p: nat, n: nat)
    ensures Owns(a + b, p, n) <==> Owns(a, p, n) || Owns(b, p, n)
  {
    if k :| 0 <= k < |a| && !a[k].free && a[k].addr + HEADER == p && a[k].size == n {
      assert (a + b)[k] == a[k];
    }
    if k :| 0 <= k < |b| && !b[k].free && b[k].addr + HEADER == p && b[k].size == n {
      assert (a + b)[|a| + k] == b[k];
    }
  }

  lemma {:induction false} OwnsByParts(bs: seq<Block>, lo: nat, hi: nat, p: nat, n: nat)
    requires lo <= hi <= |bs|
    ensures Owns(bs, p, n) <==> Owns(bs[..lo], p, n) || Owns(bs[lo..hi], p, n) || Owns(bs[hi..], p, n)
  {
    assert bs == Splice(bs, lo, hi, bs[lo..hi]);
    SpliceOwns(bs, lo, hi, bs[lo..hi], p, n);
  }

  /** One more owner, of the block just taken, and no other change. */
  lemma {:induction false} MallocAddsOwner(bs: seq<Block>, base: nat, end: nat, wanted: nat) returns (taken: nat)
    requires WellFormed(bs, base, end) && MallocResult(bs, wanted) != NULL
    ensures Rounded(wanted) <= taken <= Rounded(wanted) + 16
    ensures FreeBytes(AfterMalloc(bs, wanted)) + taken == FreeBytes(bs)
    ensures forall q: nat, n: nat :: Owns(AfterMalloc(bs, wanted), q, n) <==>
      Owns(bs, q, n) || (q == MallocResult(bs, wanted) && n == taken)
  {
    var k;
    k, taken := MallocTakes(bs, base, end, wanted);
    hide WellFormed, AfterMalloc, MallocResult, Owns;
    var mid := [Block(bs[k].addr, taken, false)] + Rest(bs[k], taken);
    assert AfterMalloc(bs, wanted) == Splice(bs, k, k + 1, mid);
    forall q: nat, n: nat
      ensures Owns(AfterMalloc(bs, wanted), q, n) <==>
        Owns(bs, q, n) || (q == MallocResult(bs, wanted) && n == taken)
    {
      SpliceOwns(bs, k, k + 1, mid, q, n);
      OwnsByParts(bs, k, k + 1, q, n);
      assert bs[k..k + 1] == [bs[k]];
      OwnersOfParts(bs[k], taken, q, n);
    }
  }

  lemma OwnersOfParts(b: Block, taken: nat, q: nat, n: nat)
    requires b.free && taken <= b.size
    ensures !Owns([b], q, n)
    ensures Owns([Block(b.addr, taken, false)] + Rest(b, taken), q, n) <==> q == b.addr + HEADER && n == taken
  {
    var mid := [Block(b.addr, taken, false)] + Rest(b, taken);
    assert mid[0] == Block(b.addr, taken, false);
  }

  /** One owner less, whose bytes are free again, and no other change. */
  lemma {:induction false} FreeRemovesOwner(bs: seq<Block>, base: nat, end: nat, p: nat, size: nat)
    requires WellFormed(bs, base, end) && Owns(bs, p, size)
    ensures FreeBytes(AfterFree(bs, p)) == FreeBytes(bs) + size
    ensures forall q: nat, n: nat :: Owns(AfterFree(bs, p), q, n) <==> Owns(bs, q, n) && q != p
  {
    hide Tiles, Coalesce, AfterFree;
    var k :| 0 <= k < |bs| && !bs[k].free && bs[k].addr + HEADER == p && bs[k].size == size;
    FreeByIndex(bs, base, end, k);
    CoalesceOwners(bs, base, end, k);
  }

  lemma {:induction false} CoalesceOwners(bs: seq<Block>, base: nat, end: nat, k: nat)
    requires Tiles(bs, base, end) && k < |bs| && !bs[k].free
    ensures FreeBytes(Coalesce(bs, k)) == FreeBytes(bs) + bs[k].size
    ensures forall q: nat, n: nat :: Owns(Coalesce(bs, k), q, n) <==> Owns(bs, q, n) && q != bs[k].addr + HEADER
  {
    var lo, hi, mid := MergeFrom(bs, k), MergeTo(bs, k), [MergedBlock(bs, k)];
    FreeBytesOfSplice(bs, lo, hi, mid);
    MergedBytes(bs, k);
    hide MergedBlock, MergeFrom, MergeTo;
    forall q: nat, n: nat ensures Owns(Coalesce(bs, k), q, n) <==> Owns(bs, q, n) && q != bs[k].addr + HEADER {
      SpliceOwns(bs, lo, hi, mid, q, n);
      OwnsByParts(bs, lo, hi, q, n);
      MergedOwners(bs, k, q, n);
      if q == bs[k].addr + HEADER {
        OthersAreElsewhere(bs, base, end, k, n);
      }
    }
  }

  lemma {:induction false} MergedBytes(bs: seq<Block>, k: nat)
    requires k < |bs| && !bs[k].free
    ensures FreeBytes([MergedBlock(bs, k)]) == FreeBytes(bs[MergeFrom(bs, k)..MergeTo(bs, k)]) + bs[k].size
  {
    var lo, hi := MergeFrom(bs, k), MergeTo(bs, k);
    var a, c := bs[lo..k], bs[k + 1..hi];
    assert bs[lo..hi] == a + [bs[k]] + c;
    FreeBytesConcat(a + [bs[k]], c);
    FreeBytesConcat(a, [bs[k]]);
    OneOrNone(a);
    OneOrNone(c);
    OneOrNone([bs[k]]);
    OneOrNone([MergedBlock(bs, k)]);
  }

  lemma OneOrNone(s: seq<Block>)
    ensures |s| == 1 ==> FreeBytes(s) == if s[0].free then s[0].size else 0
    ensures |s| == 0 ==> FreeBytes(s) == 0
  {
    if |s| == 1 {
      assert s[1..] == [];
    }
  }

  lemma {:induction false} MergedOwners(bs: seq<Block>, k: nat, q: nat, n: nat)
    requires k < |bs| && !bs[k].free
    ensures !Owns([MergedBlock(bs, k)], q, n)
    ensures Owns(bs[MergeFrom(bs, k)..MergeTo(bs, k)], q, n) <==> q == bs[k].addr + HEADER && n == bs[k].size
  {
    var lo, hi := MergeFrom(bs, k), MergeTo(bs, k);
    var m := bs[lo..hi];
    assert m[k - lo] == bs[k];
    assert forall j :: 0 <= j < |m| && j != k - lo ==> m[j].free;
  }

  lemma {:induction false} OthersAreElsewhere(bs: seq<Block>, base: nat, end: nat, k: nat, n: nat)
    requires Tiles(bs, base, end) && k < |bs|
    ensures !Owns(bs[..MergeFrom(bs, k)], bs[k].addr + HEADER, n)
    ensures !Owns(bs[MergeTo(bs, k)..], bs[k].addr + HEADER, n)
  {
    hide MergeFrom, MergeTo;
    AllOrdered(bs, base, end);
    hide Tiles;
    var lo, hi := MergeFrom(bs, k), MergeTo(bs, k);
    forall j | 0 <= j < lo ensures bs[..lo][j].addr < bs[k].addr {
      assert bs[j].addr < bs[j].End() <= bs[k].addr;
    }
    forall j | 0 <= j < |bs| - hi ensures bs[hi..][j].addr > bs[k].addr {
      assert bs[hi..][j] == bs[hi + j];
    }
  }

  // ----- whole runs

  /** What the application holds after a run: each pointer it was given and has
      not given back, with the size it asked for. */
  function Held(bs: seq<Block>, ops: seq<Op>, held: map<nat, nat>): map<nat, nat>
    decreases |ops|
  {
    if ops == [] then held
    else
      var after := match ops[0]
        case Malloc(w) => if MallocResult(bs, w) == NULL then held else held[MallocResult(bs, w) := w]
        case Free(p) => held - {p};
      Held(Step(bs, ops[0]), ops[1..], after)
  }

  /** The allocated blocks are those of the held pointers, each large enough for
      its request and at most sixteen bytes larger. */
  ghost predicate Serves(bs: seq<Block>, held: map<nat, nat>) {
    && (forall p: nat, n: nat :: Owns(bs, p, n) ==>
          p in held && Rounded(held[p]) <= n <= Rounded(held[p]) + 16)
    && (forall p: nat :: p in held ==> Allocated(bs, p))
  }

  lemma {:induction false} AllocatedIsOwned(bs: seq<Block>, p: nat)
    ensures Allocated(bs, p) <==> exists n: nat :: Owns(bs, p, n)
  {
    if k :| 0 <= k < |bs| && !bs[k].free && bs[k].addr + HEADER == p {
      assert Owns(bs, p, bs[k].size);
    }
  }

  lemma {:induction false} MallocServes(bs: seq<Block>, base: nat, end: nat, w: nat, held: map<nat, nat>)
    requires WellFormed(bs, base, end) && Serves(bs, held) && MallocResult(bs, w) != NULL
    ensures Serves(AfterMalloc(bs, w), held[MallocResult(bs, w) := w])
  {
    hide WellFormed, Allocated, MallocResult, AfterMalloc;
    var p, cs := MallocResult(bs, w), AfterMalloc(bs, w);
    var taken := MallocAddsOwner(bs, base, end, w);
    MallocIsLowestFit(bs, base, end, w);
    AllocatedIsOwned(bs, p);
    hide Owns, Rounded;
    forall q: nat | q in held ensures Allocated(cs, q) {
      AllocatedIsOwned(bs, q);
      AllocatedIsOwned(cs, q);
      var n: nat :| Owns(bs, q, n);
      assert Owns(cs, q, n);
    }
    assert !Owns(bs, p, taken);
  }

  lemma {:induction false} FreeServes(bs: seq<Block>, base: nat, end: nat, p: nat, held: map<nat, nat>)
    requires WellFormed(bs, base, end) && Serves(bs, held)
    ensures Serves(AfterFree(bs, p), held - {p})
  {
    hide WellFormed, Allocated, Owns, Rounded, Coalesce;
    AllocatedIsOwned(bs, p);
    if Allocated(bs, p) {
      var size: nat :| Owns(bs, p, size);
      FreeRemovesOwner(bs, base, end, p, size);
      forall q: nat | q in held && q != p ensures Allocated(AfterFree(bs, p), q) {
        AllocatedIsOwned(bs, q);
        AllocatedIsOwned(AfterFree(bs, p), q);
        var n: nat :| Owns(bs, q, n);
        assert Owns(AfterFree(bs, p), q, n);
      }
    }
  }

  lemma {:induction false} ServedAlong(bs: seq<Block>, base: nat, end: nat, ops: seq<Op>, held: map<nat, nat>)
    requires WellFormed(bs, base, end) && Serves(bs, held)
    ensures Serves(Run(bs, ops), Held(bs, ops, held))
    decreases |ops|
  {
    hide WellFormed, Serves, MallocResult, AfterMalloc, AfterFree;
    if ops != [] {
      StepKeepsWellFormed(bs, base, end, ops[0]);
      var after := match ops[0]
        case Malloc(w) => if MallocResult(bs, w) == NULL then held else held[MallocResult(bs, w) := w]
        case Free(p) => held - {p};
      assert Serves(Step(bs, ops[0]), after) by {
        match ops[0]
        case Malloc(w) =>
          if MallocResult(bs, w) != NULL {
            MallocServes(bs, base, end, w, held);
          } else {
            FailedChangesNothing(bs, w);
          }
        case Free(p) => FreeServes(bs, base, end, p, held);
      }
      ServedAlong(Step(bs, ops[0]), base, end, ops[1..], after);
    }
  }

  lemma FailedChangesNothing(bs: seq<Block>, w: nat)
    requires MallocResult(bs, w) == NULL
    ensures AfterMalloc(bs, w) == bs
  {
  }

  /** In every run from initialisation each outstanding request has its own
      block, no smaller than it needs and at most sixteen bytes larger, and
      nothing else is allocated. */
  lemma {:induction false} RunServesRequests(base: nat, end: nat, ops: seq<Op>)
    requires base > 0 && Aligned(base) && Aligned(end)
    requires base + HEADER <= end < base + ALLOCATED_BIT
    ensures Serves(Run(Fresh(base, end), ops), Held(Fresh(base, end), ops, map[]))
  {
    assert WellFormed(Fresh(base, end), base, end);
    ServedAlong(Fresh(base, end), base, end, ops, map[]);
  }
}
