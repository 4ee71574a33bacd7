/** The address-ordered view of one allocator arena: a tiling of the usable
    range by free and allocated blocks, and what malloc and free do to it. */
module HeapBlocks {

  const ALIGNMENT: nat := 4
  const HEADER: nat := 8
  const MINIMUM_BLOCK: nat := 2 * HEADER
  /** The top bit of a 32-bit size, used as the "allocated" mark. */
  const ALLOCATED_BIT: nat := 0x8000_0000
  const WORD: nat := 0x1_0000_0000
  const NULL: nat := 0

  datatype Block = Block(addr: nat, size: nat, free: bool) {
    function End(): nat { addr + size }
  }

  /** What the application asks for, in the order of a run. */
  datatype Op = Malloc(wanted: nat) | Free(p: nat)

  // ----- the tiling invariant

  predicate Aligned(x: nat) {
    x % 4 == 0
  }

  predicate BlockOk(b: Block) {
    b.size >= HEADER && Aligned(b.size) && Aligned(b.addr)
  }

  /** The blocks cover [base, end) without gap or overlap, all aligned. */
  ghost predicate Tiles(bs: seq<Block>, base: nat, end: nat) {
    && |bs| > 0
    && bs[0].addr == base
    && bs[|bs| - 1].End() == end
    && (forall i :: 0 <= i < |bs| ==> BlockOk(bs[i]))
    && (forall i, j :: 0 <= i && j == i + 1 && j < |bs| ==> bs[i].End() == bs[j].addr)
  }

  ghost predicate NoAdjacentFree(bs: seq<Block>) {
    forall i, j :: 0 <= i && j == i + 1 && j < |bs| ==> !(bs[i].free && bs[j].free)
  }

  ghost predicate WellFormed(bs: seq<Block>, base: nat, end: nat) {
    && base > 0
    && base + HEADER <= end < base + ALLOCATED_BIT
    && Tiles(bs, base, end)
    && NoAdjacentFree(bs)
  }

  /** What holds of a tiling follows for every pair of blocks: they are
      disjoint and sorted by address. */
  lemma {:induction false} BlocksAreOrdered(bs: seq<Block>, base: nat, end: nat, i: nat, j: nat)
    requires Tiles(bs, base, end)
    requires i < j < |bs|
    ensures bs[i].addr < bs[i].End() <= bs[j].addr
    decreases j - i
  {
    if i + 1 < j {
      BlocksAreOrdered(bs, base, end, i + 1, j);
    }
  }

  lemma {:induction false} AllOrdered(bs: seq<Block>, base: nat, end: nat)
    requires Tiles(bs, base, end)
    ensures forall i, j :: 0 <= i < j < |bs| ==> bs[i].End() <= bs[j].addr
    ensures forall i :: 0 <= i < |bs| ==> base <= bs[i].addr < bs[i].End() <= end
  {
    forall i, j | 0 <= i < j < |bs|
      ensures bs[i].End() <= bs[j].addr
    {
      BlocksAreOrdered(bs, base, end, i, j);
    }
    forall i | 0 <= i < |bs|
      ensures base <= bs[i].addr < bs[i].End() <= end
    {
      if i < |bs| - 1 {
        BlocksAreOrdered(bs, base, end, i, |bs| - 1);
      }
      if i > 0 {
        BlocksAreOrdered(bs, base, end, 0, i);
      }
    }
  }

  // ----- the free list

  /** The free blocks, lowest address first. */
  function FreeBlocks(bs: seq<Block>): seq<Block> {
    if bs == [] then []
    else if bs[0].free then [bs[0]] + FreeBlocks(bs[1..])
    else FreeBlocks(bs[1..])
  }

  lemma {:induction false} FreeBlocksAreBlocks(bs: seq<Block>)
    ensures forall i :: 0 <= i < |FreeBlocks(bs)| ==> FreeBlocks(bs)[i].free && FreeBlocks(bs)[i] in bs
  {
    if bs != [] {
      FreeBlocksAreBlocks(bs[1..]);
    }
  }

  lemma {:induction false} FreeBlocksConcat(a: seq<Block>, b: seq<Block>)
    ensures FreeBlocks(a + b) == FreeBlocks(a) + FreeBlocks(b)
  {
    if a == [] {
      assert a + b == b;
    } else {
      assert (a + b)[1..] == a[1..] + b;
      FreeBlocksConcat(a[1..], b);
    }
  }

  /** Strictly increasing addresses, no two neighbours touching. */
  ghost predicate Separated(fl: seq<Block>) {
    && (forall i :: 0 <= i < |fl| ==> fl[i].size > 0)
    && (forall i, j :: 0 <= i < j < |fl| ==> fl[i].End() < fl[j].addr)
  }

  /** The free list is sorted by address and no two free blocks are adjacent. */
  lemma {:induction false} FreeListIsSeparated(bs: seq<Block>, base: nat, end: nat)
    requires Tiles(bs, base, end) && NoAdjacentFree(bs)
    ensures Separated(FreeBlocks(bs))
    ensures Within(FreeBlocks(bs), if bs[0].free then base else bs[0].End(), end)
  {
    HeadBounds(bs, base, end);
    if |bs| > 1 {
      TailTiles(bs, base, end);
      hide Tiles, NoAdjacentFree;
      FreeListIsSeparated(bs[1..], bs[0].End(), end);
      if bs[0].free {
        SeparatedCons(bs[0], FreeBlocks(bs[1..]), bs[1].End(), end);
      } else {
        assert FreeBlocks(bs) == FreeBlocks(bs[1..]);
        WithinIsMonotone(FreeBlocks(bs), if bs[1].free then bs[0].End() else bs[1].End(), bs[0].End(), end);
      }
    } else {
      assert bs[1..] == [];
    }
  }

  lemma HeadBounds(bs: seq<Block>, base: nat, end: nat)
    requires Tiles(bs, base, end)
    ensures bs[0].addr == base && bs[0].size >= HEADER && bs[0].End() <= end
    ensures |bs| > 1 ==> bs[0].End() == bs[1].addr && bs[1].size >= HEADER
  {
    if |bs| > 1 {
      BlocksAreOrdered(bs, base, end, 0, |bs| - 1);
    }
  }

  lemma TailTiles(bs: seq<Block>, base: nat, end: nat)
    requires Tiles(bs, base, end) && NoAdjacentFree(bs) && |bs| > 1
    ensures Tiles(bs[1..], bs[0].End(), end) && NoAdjacentFree(bs[1..])
    ensures bs[0].free ==> !bs[1].free
  {
  }

  ghost predicate Within(fl: seq<Block>, lo: nat, hi: nat) {
    forall i :: 0 <= i < |fl| ==> lo <= fl[i].addr && fl[i].End() <= hi
  }

  lemma SeparatedCons(b: Block, fl: seq<Block>, lo: nat, hi: nat)
    requires Separated(fl) && b.size > 0 && b.End() < lo && b.End() <= hi && Within(fl, lo, hi)
    ensures Separated([b] + fl) && Within([b] + fl, b.addr, hi)
  {
  }

  lemma WithinIsMonotone(fl: seq<Block>, lo: nat, lo': nat, hi: nat)
    requires Within(fl, lo, hi) && lo' <= lo
    ensures Within(fl, lo', hi)
  {
  }

  // ----- sizes

  function FreeBytes(bs: seq<Block>): nat {
    if bs == [] then 0 else (if bs[0].free then bs[0].size else 0) + FreeBytes(bs[1..])
  }

  function UsedBytes(bs: seq<Block>): nat {
    if bs == [] then 0 else (if bs[0].free then 0 else bs[0].size) + UsedBytes(bs[1..])
  }

  lemma {:induction false} FreeBytesConcat(a: seq<Block>, b: seq<Block>)
    ensures FreeBytes(a + b) == FreeBytes(a) + FreeBytes(b)
  {
    if a == [] {
      assert a + b == b;
    } else {
      assert (a + b)[1..] == a[1..] + b;
      FreeBytesConcat(a[1..], b);
    }
  }

  /** No byte of the arena is lost: free and allocated bytes add up to it. */
  lemma {:induction false} BytesAreConserved(bs: seq<Block>, base: nat, end: nat)
    requires Tiles(bs, base, end)
    ensures base + FreeBytes(bs) + UsedBytes(bs) == end
  {
    if |bs| > 1 {
      BytesAreConserved(bs[1..], bs[0].End(), end);
    }
  }

  lemma {:induction false} FreeBytesCoversBlock(bs: seq<Block>, k: nat)
    requires k < |bs| && bs[k].free
    ensures bs[k].size <= FreeBytes(bs)
  {
    if k > 0 {
      FreeBytesCoversBlock(bs[1..], k - 1);
    }
  }

  // ----- malloc on the tiling

  /** The request plus a header, rounded up to the alignment. */
  function Rounded(wanted: nat): (r: nat)
    ensures Aligned(r) && wanted + HEADER <= r < wanted + HEADER + ALIGNMENT
  {
    (wanted + HEADER + 3) / 4 * 4
  }

  /** The lowest-addressed free block of at least `need` bytes, or |bs|. */
  function FirstFit(bs: seq<Block>, need: nat): (k: nat)
    ensures k <= |bs|
    ensures k < |bs| ==> bs[k].free && bs[k].size >= need
    ensures forall i :: 0 <= i < k ==> !(bs[i].free && bs[i].size >= need)
  {
    if bs == [] then 0
    else if bs[0].free && bs[0].size >= need then 0
    else 1 + FirstFit(bs[1..], need)
  }

  function Splice(bs: seq<Block>, lo: nat, hi: nat, mid: seq<Block>): seq<Block>
    requires lo <= hi <= |bs|
  {
    bs[..lo] + mid + bs[hi..]
  }

  function CarvedPart(b: Block, need: nat): seq<Block>
    requires need <= b.size
  {
    if b.size - need > MINIMUM_BLOCK then [Block(b.addr, need, false), Block(b.addr + need, b.size - need, true)]
    else [b.(free := false)]
  }

  /** Take block `k` for `need` bytes, splitting off a large enough rest. */
  function Carve(bs: seq<Block>, k: nat, need: nat): seq<Block>
    requires k < |bs| && need <= bs[k].size
  {
    Splice(bs, k, k + 1, CarvedPart(bs[k], need))
  }

  predicate Satisfiable(bs: seq<Block>, wanted: nat) {
    0 < wanted < ALLOCATED_BIT && FirstFit(bs, Rounded(wanted)) < |bs|
  }

  function AfterMalloc(bs: seq<Block>, wanted: nat): seq<Block> {
    if Satisfiable(bs, wanted) then Carve(bs, FirstFit(bs, Rounded(wanted)), Rounded(wanted)) else bs
  }

  function MallocResult(bs: seq<Block>, wanted: nat): nat {
    if Satisfiable(bs, wanted) then bs[FirstFit(bs, Rounded(wanted))].addr + HEADER else NULL
  }

  lemma FreeBytesOfSplice(bs: seq<Block>, lo: nat, hi: nat, mid: seq<Block>)
    requires lo <= hi <= |bs|
    ensures FreeBytes(Splice(bs, lo, hi, mid)) + FreeBytes(bs[lo..hi]) == FreeBytes(bs) + FreeBytes(mid)
  {
    var a, m, c := bs[..lo], bs[lo..hi], bs[hi..];
    assert bs == a + m + c;
    FreeBytesConcat(a + m, c);
    FreeBytesConcat(a, m);
    FreeBytesConcat(a + mid, c);
    FreeBytesConcat(a, mid);
  }

  // ----- free on the tiling

  predicate Allocated(bs: seq<Block>, p: nat) {
    exists k :: 0 <= k < |bs| && !bs[k].free && bs[k].addr + HEADER == p
  }

  function IndexOf(bs: seq<Block>, p: nat): (k: nat)
    requires Allocated(bs, p)
    ensures k < |bs| && !bs[k].free && bs[k].addr + HEADER == p
  {
    if !bs[0].free && bs[0].addr + HEADER == p then 0
    else
      assert Allocated(bs[1..], p) by {
        var k :| 0 <= k < |bs| && !bs[k].free && bs[k].addr + HEADER == p;
        assert bs[1..][k - 1] == bs[k];
      }
      1 + IndexOf(bs[1..], p)
  }

  /** First and one-past-last index of the run that freeing `k` merges. */
  function MergeFrom(bs: seq<Block>, k: nat): (lo: nat)
    requires k < |bs|
    ensures lo <= k
  {
    if k > 0 && bs[k - 1].free then k - 1 else k
  }

  function MergeTo(bs: seq<Block>, k: nat): (hi: nat)
    requires k < |bs|
    ensures k < hi <= |bs|
  {
    if k + 1 < |bs| && bs[k + 1].free then k + 2 else k + 1
  }

  function MergedBlock(bs: seq<Block>, k: nat): Block
    requires k < |bs|
  {
    var before := if k > 0 && bs[k - 1].free then bs[k - 1].size else 0;
    var after := if k + 1 < |bs| && bs[k + 1].free then bs[k + 1].size else 0;
    Block(bs[MergeFrom(bs, k)].addr, before + bs[k].size + after, true)
  }

  /** Make block `k` free and merge it with its free neighbours. */
  function Coalesce(bs: seq<Block>, k: nat): seq<Block>
    requires k < |bs|
  {
    Splice(bs, MergeFrom(bs, k), MergeTo(bs, k), [MergedBlock(bs, k)])
  }

  function AfterFree(bs: seq<Block>, p: nat): seq<Block> {
    if Allocated(bs, p) then Coalesce(bs, IndexOf(bs, p)) else bs
  }

  // ----- each operation keeps the invariant

  /** Retiling one stretch of the arena retiles the arena. */
  lemma SpliceKeepsTiles(bs: seq<Block>, base: nat, end: nat, lo: nat, hi: nat, mid: seq<Block>)
    requires Tiles(bs, base, end)
    requires lo < hi <= |bs|
    requires Tiles(mid, bs[lo].addr, bs[hi - 1].End())
    ensures Tiles(Splice(bs, lo, hi, mid), base, end)
  {
    var cs, d := Splice(bs, lo, hi, mid), hi - lo - |mid|;
    forall i | 0 <= i < |cs|
      ensures BlockOk(cs[i])
    {
      if i < lo {
        assert cs[i] == bs[i];
      } else if i < lo + |mid| {
        assert cs[i] == mid[i - lo];
      } else {
        assert cs[i] == bs[i + d];
      }
    }
    forall i, j | 0 <= i && j == i + 1 && j < |cs|
      ensures cs[i].End() == cs[j].addr
    {
      if j < lo {
        assert bs[i].End() == bs[j].addr;
      } else if j == lo {
        assert bs[i].End() == bs[lo].addr;
      } else if j < lo + |mid| {
        assert mid[i - lo].End() == mid[j - lo].addr;
      } else if j == lo + |mid| {
        assert bs[hi - 1].End() == bs[hi].addr;
      } else {
        assert bs[i + d].End() == bs[j + d].addr;
      }
    }
  }

  lemma SpliceKeepsNoAdjacentFree(bs: seq<Block>, lo: nat, hi: nat, mid: seq<Block>)
    requires lo < hi <= |bs| && |mid| > 0
    requires NoAdjacentFree(bs[..lo]) && NoAdjacentFree(mid) && NoAdjacentFree(bs[hi..])
    requires lo > 0 ==> !(bs[lo - 1].free && mid[0].free)
    requires hi < |bs| ==> !(mid[|mid| - 1].free && bs[hi].free)
    ensures NoAdjacentFree(Splice(bs, lo, hi, mid))
  {
    var cs := Splice(bs, lo, hi, mid);
    var e := lo + |mid|;
    forall i, j | 0 <= i && j == i + 1 && j < |cs|
      ensures !(cs[i].free && cs[j].free)
    {
      if j < lo {
        assert cs[i] == bs[..lo][i] && cs[j] == bs[..lo][j];
      } else if lo < j < e {
        assert cs[i] == mid[i - lo] && cs[j] == mid[j - lo];
      } else if j > e {
        assert cs[i] == bs[hi..][i - e] && cs[j] == bs[hi..][j - e];
      }
    }
  }

  lemma CarveKeepsWellFormed(bs: seq<Block>, base: nat, end: nat, k: nat, need: nat)
    requires WellFormed(bs, base, end)
    requires k < |bs| && bs[k].free && need <= bs[k].size
    requires need >= HEADER && Aligned(need)
    ensures WellFormed(Carve(bs, k, need), base, end)
  {
    var mid := CarvedPart(bs[k], need);
    SpliceKeepsTiles(bs, base, end, k, k + 1, mid);
    assert k + 1 < |bs| ==> !bs[k + 1].free;
    SpliceKeepsNoAdjacentFree(bs, k, k + 1, mid);
  }

  /** Two pointers never name the same block of a tiling. */
  lemma IndexIsUnique(bs: seq<Block>, base: nat, end: nat, i: nat, j: nat)
    requires Tiles(bs, base, end)
    requires i < |bs| && j < |bs| && bs[i].addr == bs[j].addr
    ensures i == j
  {
    if i < j {
      BlocksAreOrdered(bs, base, end, i, j);
    } else if j < i {
      BlocksAreOrdered(bs, base, end, j, i);
    }
  }

  lemma MergedBlockSpans(bs: seq<Block>, base: nat, end: nat, k: nat)
    requires Tiles(bs, base, end) && k < |bs|
    ensures BlockOk(MergedBlock(bs, k))
    ensures MergedBlock(bs, k).End() == bs[MergeTo(bs, k) - 1].End()
  {
    var before := if k > 0 && bs[k - 1].free then bs[k - 1].size else 0;
    var after := if k + 1 < |bs| && bs[k + 1].free then bs[k + 1].size else 0;
    AlignedSum(before, bs[k].size, after);
    if k > 0 && bs[k - 1].free {
      assert bs[k - 1].End() == bs[k].addr;
    }
    if k + 1 < |bs| && bs[k + 1].free {
      assert bs[k].End() == bs[k + 1].addr;
    }
  }

  lemma AlignedSum(x: nat, y: nat, z: nat)
    requires Aligned(x) && Aligned(y) && Aligned(z)
    ensures Aligned(x + y + z)
  {
    assert x + y + z == 4 * (x / 4 + y / 4 + z / 4);
  }

  lemma CoalesceKeepsWellFormed(bs: seq<Block>, base: nat, end: nat, k: nat)
    requires base > 0 && base + HEADER <= end < base + ALLOCATED_BIT
    requires Tiles(bs, base, end) && NoAdjacentFree(bs)
    requires k < |bs| && !bs[k].free
    ensures WellFormed(Coalesce(bs, k), base, end)
  {
    var lo, hi, mid := MergeFrom(bs, k), MergeTo(bs, k), [MergedBlock(bs, k)];
    MergedBlockSpans(bs, base, end, k);
    SpliceKeepsTiles(bs, base, end, lo, hi, mid);
    assert NoAdjacentFree(bs[..lo]);
    assert NoAdjacentFree(bs[hi..]);
    assert lo > 0 ==> !bs[lo - 1].free;
    assert hi < |bs| ==> !bs[hi].free;
    SpliceKeepsNoAdjacentFree(bs, lo, hi, mid);
  }

  lemma StepKeepsWellFormed(bs: seq<Block>, base: nat, end: nat, op: Op)
    requires WellFormed(bs, base, end)
    ensures WellFormed(Step(bs, op), base, end)
  {
    match op
    case Malloc(wanted) =>
      if Satisfiable(bs, wanted) {
        CarveKeepsWellFormed(bs, base, end, FirstFit(bs, Rounded(wanted)), Rounded(wanted));
      }
    case Free(p) =>
      if Allocated(bs, p) {
        CoalesceKeepsWellFormed(bs, base, end, IndexOf(bs, p));
      }
  }

  // ----- whole runs

  function Step(bs: seq<Block>, op: Op): seq<Block> {
    match op
    case Malloc(wanted) => AfterMalloc(bs, wanted)
    case Free(p) => AfterFree(bs, p)
  }

  function Run(bs: seq<Block>, ops: seq<Op>): seq<Block>
    decreases |ops|
  {
    if ops == [] then bs else Run(Step(bs, ops[0]), ops[1..])
  }

  /** The arena right after initialisation. */
  function Fresh(base: nat, end: nat): seq<Block>
    requires base <= end
  {
    [Block(base, end - base, true)]
  }

  lemma {:induction false} RunKeepsWellFormed(bs: seq<Block>, base: nat, end: nat, ops: seq<Op>)
    requires WellFormed(bs, base, end)
    ensures WellFormed(Run(bs, ops), base, end)
    decreases |ops|
  {
    if ops != [] {
      StepKeepsWellFormed(bs, base, end, ops[0]);
      RunKeepsWellFormed(Step(bs, ops[0]), base, end, ops[1..]);
    }
  }

  lemma FreeHeadIsAlone(bs: seq<Block>)
    requires NoAdjacentFree(bs) && |bs| > 0 && bs[0].free
    ensures |bs| == 1 || !bs[1].free
  {
  }

  /** A well-formed arena with nothing allocated is one block. */
  lemma AllFreeIsFresh(bs: seq<Block>, base: nat, end: nat)
    requires WellFormed(bs, base, end)
    requires forall i :: 0 <= i < |bs| ==> bs[i].free
    ensures bs == Fresh(base, end)
  {
    FreeHeadIsAlone(bs);
  }

  /** Any run from initialisation that has given everything back ends with
      the single free block it began with: no fragmentation remains. */
  lemma FullyFreedRunIsFresh(base: nat, end: nat, ops: seq<Op>)
    requires base > 0 && Aligned(base) && Aligned(end)
    requires base + HEADER <= end < base + ALLOCATED_BIT
    requires forall p :: !Allocated(Run(Fresh(base, end), ops), p)
    ensures Run(Fresh(base, end), ops) == Fresh(base, end)
  {
    var bs := Run(Fresh(base, end), ops);
    assert WellFormed(Fresh(base, end), base, end);
    RunKeepsWellFormed(Fresh(base, end), base, end, ops);
    forall i | 0 <= i < |bs|
      ensures bs[i].free
    {
      if !bs[i].free {
        assert Allocated(bs, bs[i].addr + HEADER);
      }
    }
    AllFreeIsFresh(bs, base, end);
  }

  lemma CoalesceUndoesCarve(bs: seq<Block>, k: nat, need: nat)
    requires NoAdjacentFree(bs)
    requires k < |bs| && bs[k].free && need <= bs[k].size
    ensures k < |Carve(bs, k, need)|
    ensures Coalesce(Carve(bs, k, need), k) == bs
  {
    var cs := Carve(bs, k, need);
    assert k > 0 ==> !bs[k - 1].free && cs[k - 1] == bs[k - 1];
    assert k + 1 < |bs| ==> !bs[k + 1].free;
    assert MergeFrom(cs, k) == k;
    assert cs[..k] == bs[..k];
    assert MergedBlock(cs, k) == bs[k];
    assert cs[MergeTo(cs, k)..] == bs[k + 1..];
  }

  lemma FreeByIndex(bs: seq<Block>, base: nat, end: nat, k: nat)
    requires Tiles(bs, base, end)
    requires k < |bs| && !bs[k].free
    ensures Allocated(bs, bs[k].addr + HEADER)
    ensures IndexOf(bs, bs[k].addr + HEADER) == k
    ensures AfterFree(bs, bs[k].addr + HEADER) == Coalesce(bs, k)
  {
    IndexIsUnique(bs, base, end, k, IndexOf(bs, bs[k].addr + HEADER));
  }

  lemma CarvedThenFreed(bs: seq<Block>, base: nat, end: nat, k: nat, need: nat)
    requires WellFormed(bs, base, end)
    requires k < |bs| && bs[k].free && HEADER <= need <= bs[k].size && Aligned(need)
    ensures AfterFree(Carve(bs, k, need), bs[k].addr + HEADER) == bs
  {
    hide Coalesce, AfterFree, NoAdjacentFree, Tiles, Allocated;
    CarvedHead(bs, k, need);
    CarveKeepsWellFormed(bs, base, end, k, need);
    CoalesceUndoesCarve(bs, k, need);
    hide Carve;
    FreeByIndex(Carve(bs, k, need), base, end, k);
  }

  lemma CarvedHead(bs: seq<Block>, k: nat, need: nat)
    requires k < |bs| && bs[k].free && need <= bs[k].size
    ensures k < |Carve(bs, k, need)|
    ensures Carve(bs, k, need)[k].addr == bs[k].addr && !Carve(bs, k, need)[k].free
  {
    assert Carve(bs, k, need)[k] == CarvedPart(bs[k], need)[0];
  }

  /** Freeing the block a malloc has just returned restores the arena. */
  lemma FreeUndoesMalloc(bs: seq<Block>, base: nat, end: nat, wanted: nat)
    requires WellFormed(bs, base, end)
    requires MallocResult(bs, wanted) != NULL
    ensures AfterFree(AfterMalloc(bs, wanted), MallocResult(bs, wanted)) == bs
  {
    hide WellFormed, Carve, AfterFree, FirstFit;
    CarvedThenFreed(bs, base, end, FirstFit(bs, Rounded(wanted)), Rounded(wanted));
  }

  /** malloc fails exactly when the request is zero, has the top bit set, or
      no free block is as large as the rounded request; otherwise it returns
      the lowest-addressed block that is, which was not allocated before. */
  lemma MallocIsLowestFit(bs: seq<Block>, base: nat, end: nat, wanted: nat)
    requires WellFormed(bs, base, end)
    ensures MallocResult(bs, wanted) == NULL <==>
              (wanted == 0 || wanted >= ALLOCATED_BIT
               || forall i :: 0 <= i < |bs| && bs[i].free ==> bs[i].size < Rounded(wanted))
    ensures forall i :: 0 <= i < |bs| && bs[i].free && bs[i].size >= Rounded(wanted) ==>
                          MallocResult(bs, wanted) <= bs[i].addr + HEADER
    ensures MallocResult(bs, wanted) != NULL ==>
              !Allocated(bs, MallocResult(bs, wanted))
              && Allocated(AfterMalloc(bs, wanted), MallocResult(bs, wanted))
  {
    if Satisfiable(bs, wanted) {
      var k, need := FirstFit(bs, Rounded(wanted)), Rounded(wanted);
      AllOrdered(bs, base, end);
      if Allocated(bs, bs[k].addr + HEADER) {
        IndexIsUnique(bs, base, end, k, IndexOf(bs, bs[k].addr + HEADER));
      }
      assert Carve(bs, k, need)[k] == CarvedPart(bs[k], need)[0];
    }
  }
}
