/** The allocator as it runs: headers in memory, linked through the free list
    by address, edited in place. */
module Heap {
  import opened HeapBlocks

  /** A block header: link to the next free block, and the size, whose top bit
      marks an allocated block. */
  datatype BlockLink = BlockLink(next: nat, size: nat)

  type Memory = map<nat, BlockLink>

  datatype Stats = Stats(available: nat, largest: nat, smallest: nat, count: nat)

  /** Reported as the smallest free block when there is none. */
  const MAX_DELAY: nat := 0xffff_ffff

  /** The free list between its sentinels. */
  function WithEnds(start: nat, fl: seq<Block>, end: nat): (cells: seq<Block>)
    ensures |cells| == |fl| + 2
  {
    [Block(start, 0, false)] + fl + [Block(end, 0, false)]
  }

  /** Every cell but the last links to its successor. */
  ghost predicate Chained(mem: Memory, cells: seq<Block>) {
    && (forall i :: 0 <= i < |cells| - 1 ==> cells[i].addr in mem && mem[cells[i].addr].size == cells[i].size)
    && (forall i, j :: 0 <= i && j == i + 1 && j < |cells| ==> mem[cells[i].addr].next == cells[j].addr)
  }

  ghost predicate DistinctCells(cells: seq<Block>) {
    forall i, j :: 0 <= i < j < |cells| ==> cells[i].addr != cells[j].addr
  }

  /** Relinking one stretch of the list around a block `b` relinks the list. */
  lemma SplicedChain(mem: Memory, mem': Memory, cells: seq<Block>, lo: nat, hi: nat, b: Block)
    requires Chained(mem, cells) && 0 < lo <= hi < |cells|
    requires b.addr in mem' && mem'[b.addr] == BlockLink(cells[hi].addr, b.size)
    requires cells[lo - 1].addr in mem' && mem'[cells[lo - 1].addr] == BlockLink(b.addr, cells[lo - 1].size)
    requires forall i :: 0 <= i < |cells| - 1 && !(lo - 1 <= i < hi) ==>
                           cells[i].addr in mem' && mem'[cells[i].addr] == mem[cells[i].addr]
    ensures Chained(mem', Splice(cells, lo, hi, [b]))
  {
    var gl, d := Splice(cells, lo, hi, [b]), hi - lo - 1;
    assert forall i :: 0 <= i < lo ==> gl[i] == cells[i];
    assert forall i :: lo < i < |gl| ==> gl[i] == cells[i + d];
    forall i, j | 0 <= i && j == i + 1 && j < |gl|
      ensures mem'[gl[i].addr].next == gl[j].addr
    {
      if j < lo {
        assert mem[cells[i].addr].next == cells[j].addr;
      } else if i > lo {
        assert mem[cells[i + d].addr].next == cells[j + d].addr;
      }
    }
  }

  // ----- inserting into a free list, by value

  /** The number of list blocks below address `a`. */
  function Position(fl: seq<Block>, a: nat): (p: nat)
    ensures p <= |fl|
    ensures forall i :: 0 <= i < p ==> fl[i].addr < a
    ensures p < |fl| ==> fl[p].addr >= a
  {
    if fl == [] || fl[0].addr >= a then 0 else 1 + Position(fl[1..], a)
  }

  predicate TouchesBefore(fl: seq<Block>, p: nat, b: Block)
    requires p <= |fl|
  {
    p > 0 && fl[p - 1].End() == b.addr
  }

  predicate TouchesAfter(fl: seq<Block>, p: nat, b: Block)
    requires p <= |fl|
  {
    p < |fl| && b.End() == fl[p].addr
  }

  /** The block that results when `b` merges with what it touches. */
  function Grown(fl: seq<Block>, p: nat, b: Block): Block
    requires p <= |fl|
  {
    var addr := if TouchesBefore(fl, p, b) then fl[p - 1].addr else b.addr;
    var size := (if TouchesBefore(fl, p, b) then fl[p - 1].size else 0)
                + (b.size + if TouchesAfter(fl, p, b) then fl[p].size else 0);
    Block(addr, size, true)
  }

  /** The list with `b` inserted by address and merged with what it touches. */
  function Inserted(fl: seq<Block>, b: Block): seq<Block> {
    var p := Position(fl, b.addr);
    var lo := if TouchesBefore(fl, p, b) then p - 1 else p;
    var hi := if TouchesAfter(fl, p, b) then p + 1 else p;
    Splice(fl, lo, hi, [Grown(fl, p, b)])
  }

  /** A list in memory with a block to insert that overlaps none of it. */
  ghost predicate Fits(mem: Memory, start: nat, fl: seq<Block>, end: nat, b: Block) {
    && Chained(mem, WithEnds(start, fl, end))
    && DistinctCells(WithEnds(start, fl, end))
    && b.addr in mem && b.addr != start && b.End() <= end && b.size > 0
    && (forall i :: 0 <= i < |fl| ==> fl[i].End() <= b.addr || b.End() <= fl[i].addr)
    && (forall i :: 0 <= i < |fl| ==> fl[i].size > 0)
  }

  /** What the three comparisons of the insertion find. */
  lemma Neighbours(mem: Memory, start: nat, fl: seq<Block>, end: nat, b: Block)
    requires Fits(mem, start, fl, end, b)
    ensures var cells, p := WithEnds(start, fl, end), Position(fl, b.addr);
            && DistinctFrom(cells, p, b)
            && (cells[p].End() == b.addr <==> TouchesBefore(fl, p, b))
            && (b.End() == cells[p + 1].addr && cells[p + 1].addr != end <==> TouchesAfter(fl, p, b))
  {
    var cells, p := WithEnds(start, fl, end), Position(fl, b.addr);
    if p < |fl| {
      assert cells[p + 1] == fl[p];
      assert cells[p + 1].addr != cells[|fl| + 1].addr;
    }
    if p > 0 {
      assert cells[p] == fl[p - 1];
    }
  }

  lemma ChainAt(mem: Memory, start: nat, fl: seq<Block>, end: nat, p: nat)
    requires Chained(mem, WithEnds(start, fl, end)) && p <= |fl|
    ensures var cells := WithEnds(start, fl, end);
            && cells[p].addr in mem
            && mem[cells[p].addr] == BlockLink(cells[p + 1].addr, cells[p].size)
            && (p > 0 ==> cells[p] == fl[p - 1])
  {
    var cells := WithEnds(start, fl, end);
    assert mem[cells[p].addr].next == cells[p + 1].addr;
  }

  ghost predicate DistinctFrom(cells: seq<Block>, p: nat, b: Block)
    requires p + 1 < |cells|
  {
    cells[p].addr != b.addr && cells[p + 1].addr != b.addr && cells[p].addr != cells[p + 1].addr
  }

  /** The shapes the in-place edit can leave behind. */
  ghost predicate Edited(mem: Memory, mem': Memory, start: nat, fl: seq<Block>, end: nat, b: Block) {
    var p := Position(fl, b.addr);
    var cells := WithEnds(start, fl, end);
    var it := cells[p].addr;
    var nx := if TouchesAfter(fl, p, b) then cells[p + 2].addr else cells[p + 1].addr;
    var g := Grown(fl, p, b);
    if TouchesBefore(fl, p, b) then mem' == mem[it := BlockLink(nx, g.size)]
    else mem' == mem[b.addr := BlockLink(nx, g.size)][it := BlockLink(b.addr, cells[p].size)]
  }

  lemma EditedIsChained(mem: Memory, mem': Memory, start: nat, fl: seq<Block>, end: nat, b: Block)
    requires Fits(mem, start, fl, end, b)
    requires Edited(mem, mem', start, fl, end, b)
    ensures Chained(mem', WithEnds(start, Inserted(fl, b), end))
  {
    var p, cells := Position(fl, b.addr), WithEnds(start, fl, end);
    var lo := if TouchesBefore(fl, p, b) then p else p + 1;
    var hi := if TouchesAfter(fl, p, b) then p + 2 else p + 1;
    EditedChain(mem, mem', start, fl, end, b, lo, hi);
    SpliceInside(start, fl, end, lo - 1, hi - 1, [Grown(fl, p, b)]);
  }

  lemma SpliceInside(start: nat, fl: seq<Block>, end: nat, lo: nat, hi: nat, mid: seq<Block>)
    requires lo <= hi <= |fl|
    ensures Splice(WithEnds(start, fl, end), lo + 1, hi + 1, mid) == WithEnds(start, Splice(fl, lo, hi, mid), end)
  {
  }

  lemma EditedChain(mem: Memory, mem': Memory, start: nat, fl: seq<Block>, end: nat, b: Block, lo: nat, hi: nat)
    requires Fits(mem, start, fl, end, b)
    requires Edited(mem, mem', start, fl, end, b)
    requires var p := Position(fl, b.addr);
             && lo == (if TouchesBefore(fl, p, b) then p else p + 1)
             && hi == if TouchesAfter(fl, p, b) then p + 2 else p + 1
    ensures Chained(mem', Splice(WithEnds(start, fl, end), lo, hi, [Grown(fl, Position(fl, b.addr), b)]))
  {
    var p, cells := Position(fl, b.addr), WithEnds(start, fl, end);
    Neighbours(mem, start, fl, end, b);
    ChainAt(mem, start, fl, end, p);
    assert forall i :: 1 <= i <= |fl| ==> cells[i] == fl[i - 1];
    assert lo > 0;
    if lo == p {
      assert mem[cells[p - 1].addr].next == cells[p].addr;
    }
    SplicedChain(mem, mem', cells, lo, hi, Grown(fl, p, b));
  }

  // ----- from the free list back to the tiling

  /** Inserting into the list is coalescing the arena. */
  lemma InsertedIsCoalesced(bs: seq<Block>, base: nat, end: nat, k: nat)
    requires Tiles(bs, base, end) && k < |bs| && !bs[k].free
    ensures Inserted(FreeBlocks(bs), bs[k]) == FreeBlocks(Coalesce(bs, k))
  {
    var p := |FreeBlocks(bs[..k])|;
    FreeBlocksAround(bs, k);
    PositionAround(bs, base, end, k);
    TouchesAreNeighbours(bs, base, end, k);
    var lo, hi, g := MergeFrom(bs, k), MergeTo(bs, k), MergedBlock(bs, k);
    FreeBlocksAroundMerge(bs, k);
    assert Grown(FreeBlocks(bs), p, bs[k]) == g;
    FreeBlocksConcat(bs[..lo], [g]);
    FreeBlocksConcat(bs[..lo] + [g], bs[hi..]);
    assert FreeBlocks([g]) == [g];
  }

  lemma FreeBlocksAround(bs: seq<Block>, k: nat)
    requires k < |bs| && !bs[k].free
    ensures FreeBlocks(bs) == FreeBlocks(bs[..k]) + FreeBlocks(bs[k + 1..])
  {
    assert bs == bs[..k] + bs[k..];
    FreeBlocksConcat(bs[..k], bs[k..]);
    assert bs[k..][1..] == bs[k + 1..];
  }

  /** The list on either side of the run that merging swallows. */
  lemma FreeBlocksAroundMerge(bs: seq<Block>, k: nat)
    requires k < |bs| && !bs[k].free
    ensures var fl, p := FreeBlocks(bs), |FreeBlocks(bs[..k])|;
            && p <= |fl|
            && (MergeFrom(bs, k) < k ==> p > 0 && fl[p - 1] == bs[k - 1] && FreeBlocks(bs[..k - 1]) == fl[..p - 1])
            && (MergeFrom(bs, k) == k ==> FreeBlocks(bs[..k]) == fl[..p])
            && (MergeTo(bs, k) > k + 1 ==> p < |fl| && fl[p] == bs[k + 1] && FreeBlocks(bs[k + 2..]) == fl[p + 1..])
            && (MergeTo(bs, k) == k + 1 ==> FreeBlocks(bs[k + 1..]) == fl[p..])
  {
    FreeBlocksAround(bs, k);
    if MergeFrom(bs, k) < k {
      assert bs[..k] == bs[..k - 1] + [bs[k - 1]];
      FreeBlocksConcat(bs[..k - 1], [bs[k - 1]]);
      assert FreeBlocks([bs[k - 1]]) == [bs[k - 1]];
    }
    if MergeTo(bs, k) > k + 1 {
      assert bs[k + 1..] == [bs[k + 1]] + bs[k + 2..];
    }
  }

  lemma PositionAround(bs: seq<Block>, base: nat, end: nat, k: nat)
    requires Tiles(bs, base, end) && k < |bs| && !bs[k].free
    ensures Position(FreeBlocks(bs), bs[k].addr) == |FreeBlocks(bs[..k])|
  {
    var fl, p := FreeBlocks(bs), |FreeBlocks(bs[..k])|;
    FreeBlocksAround(bs, k);
    AllOrdered(bs, base, end);
    FreeBlocksAreBlocks(bs[..k]);
    FreeBlocksAreBlocks(bs[k + 1..]);
    forall i | 0 <= i < p
      ensures fl[i].addr < bs[k].addr
    {
      assert fl[i] in bs[..k];
    }
    if p < |fl| {
      assert fl[p] == FreeBlocks(bs[k + 1..])[0];
      assert fl[p] in bs[k + 1..];
      assert fl[p].addr > bs[k].addr;
    }
  }

  lemma TouchesAreNeighbours(bs: seq<Block>, base: nat, end: nat, k: nat)
    requires Tiles(bs, base, end) && k < |bs| && !bs[k].free
    ensures var fl, p := FreeBlocks(bs), |FreeBlocks(bs[..k])|;
            && p <= |fl|
            && (TouchesBefore(fl, p, bs[k]) <==> MergeFrom(bs, k) < k)
            && (TouchesAfter(fl, p, bs[k]) <==> MergeTo(bs, k) > k + 1)
  {
    var fl, p := FreeBlocks(bs), |FreeBlocks(bs[..k])|;
    FreeBlocksAround(bs, k);
    FreeBlocksAroundMerge(bs, k);
    AllOrdered(bs, base, end);
    FreeBlocksAreBlocks(bs[..k]);
    FreeBlocksAreBlocks(bs[k + 1..]);
    if TouchesBefore(fl, p, bs[k]) {
      assert fl[p - 1] in bs[..k];
    }
    if TouchesAfter(fl, p, bs[k]) {
      assert fl[p] in bs[k + 1..];
    }
  }

  // ----- the search

  /** First fit along the list is first fit along the arena. */
  lemma {:induction false} FitAlongList(bs: seq<Block>, need: nat)
    ensures var k, q := FirstFit(bs, need), FirstFit(FreeBlocks(bs), need);
            && q == |FreeBlocks(bs[..k])|
            && (k < |bs| <==> q < |FreeBlocks(bs)|)
            && (k < |bs| ==> FreeBlocks(bs)[q] == bs[k])
  {
    if bs != [] {
      var k, rest := FirstFit(bs, need), bs[1..];
      FitAlongList(rest, need);
      if k > 0 {
        assert bs[..k][1..] == rest[..k - 1];
        if bs[0].free {
          assert FreeBlocks(bs)[0] == bs[0] && FreeBlocks(bs)[1..] == FreeBlocks(rest);
          assert FreeBlocks(bs[..k]) == [bs[0]] + FreeBlocks(rest[..k - 1]);
        } else {
          assert FreeBlocks(bs) == FreeBlocks(rest);
          assert FreeBlocks(bs[..k]) == FreeBlocks(rest[..k - 1]);
        }
      }
    }
  }

  lemma {:induction false} RemovedChain(mem: Memory, mem': Memory, cells: seq<Block>, k: nat)
    requires Chained(mem, cells) && DistinctCells(cells) && 0 < k < |cells| - 1
    requires mem' == mem[cells[k - 1].addr := BlockLink(cells[k + 1].addr, cells[k - 1].size)]
    ensures Chained(mem', Splice(cells, k, k + 1, []))
  {
    var gl := Splice(cells, k, k + 1, []);
    assert forall i :: 0 <= i < k ==> gl[i] == cells[i];
    assert forall i :: k <= i < |gl| ==> gl[i] == cells[i + 1];
    forall i, j | 0 <= i && j == i + 1 && j < |gl|
      ensures mem'[gl[i].addr].next == gl[j].addr
    {
      if j < k {
        assert mem[cells[i].addr].next == cells[j].addr;
      } else if j > k {
        assert mem[cells[i + 1].addr].next == cells[j + 1].addr;
      }
    }
  }

  // ----- the whole allocator

  /** The usable range of a memory pool of `total` bytes at `pool`. */
  function Base(pool: nat): nat {
    if pool % 4 != 0 then (pool + 3) / 4 * 4 else pool
  }

  function EndOf(pool: nat, total: nat): nat
    requires pool + total >= HEADER
  {
    (pool + total - HEADER) / 4 * 4
  }

  /** The usable arena holds at least one header besides the end marker, is
      smaller than the top bit, and the list head lies outside the pool. */
  predicate Usable(pool: nat, total: nat, start: nat) {
    && 0 < pool && HEADER <= total && pool + total <= WORD
    && Base(pool) + HEADER <= EndOf(pool, total) < Base(pool) + ALLOCATED_BIT
    && 0 < start && (start + HEADER <= pool || pool + total <= start)
  }

  ghost predicate Marked(mem: Memory, bs: seq<Block>) {
    forall i :: 0 <= i < |bs| && !bs[i].free ==>
      bs[i].addr in mem && mem[bs[i].addr] == BlockLink(NULL, bs[i].size + ALLOCATED_BIT)
  }

  /** Headers in memory describe exactly the tiling `bs`. */
  ghost predicate Represents(mem: Memory, start: nat, base: nat, end: nat, bs: seq<Block>) {
    Listed(mem, start, base, end, bs) && Marked(mem, bs)
  }

  /** A header that PortFree takes for that of an allocated block. */
  predicate Claimed(header: BlockLink) {
    header.size >= ALLOCATED_BIT && header.next == NULL
  }

  ghost predicate IsMinimum(m: nat, history: seq<nat>) {
    m in history && forall h :: h in history ==> m <= h
  }

  class Heap {
    const pool: nat
    const total: nat
    const start: nat
    var mem: Memory
    var pxEnd: nat
    var freeBytes: nat
    var minimumEver: nat
    var allocations: nat
    var frees: nat
    ghost var blocks: seq<Block>
    /** Every value `freeBytes` has had since initialisation. */
    ghost var history: seq<nat>

    ghost predicate Valid()
      reads this
    {
      && Usable(pool, total, start)
      && start in mem
      && (pxEnd == NULL ==> mem[start].next == NULL && blocks == Fresh(Base(pool), EndOf(pool, total)))
      && (pxEnd != NULL ==>
            && pxEnd == EndOf(pool, total)
            && Represents(mem, start, Base(pool), pxEnd, blocks)
            && freeBytes == FreeBytes(blocks)
            && history != [] && history[|history| - 1] == freeBytes
            && IsMinimum(minimumEver, history))
    }

    constructor (pool: nat, total: nat, start: nat)
      requires Usable(pool, total, start)
      ensures Valid() && pxEnd == NULL
      ensures this.pool == pool && this.total == total && this.start == start
      ensures allocations == 0 && frees == 0
    {
      this.pool, this.total, this.start := pool, total, start;
      mem := map[start := BlockLink(NULL, 0)];
      pxEnd, freeBytes, minimumEver, allocations, frees := NULL, 0, 0, 0, 0;
      blocks, history := Fresh(Base(pool), EndOf(pool, total)), [];
    }

    /** HeapInit */
    method Init()
      requires Valid()
      modifies this
      ensures Valid() && pxEnd != NULL
      ensures blocks == Fresh(Base(pool), EndOf(pool, total))
      ensures freeBytes == minimumEver == EndOf(pool, total) - Base(pool)
      ensures history == [freeBytes]
      ensures allocations == old(allocations) && frees == old(frees)
    {
      hide Usable, Base, EndOf, Aligned, Listed, Marked, FreeBytes;
      PoolBounds(pool, total, start);
      var first, address := AlignPool();
      mem := mem[start := BlockLink(first, 0)];
      pxEnd := address;
      mem := mem[pxEnd := BlockLink(NULL, 0)];
      mem := mem[first := BlockLink(pxEnd, address - first)];
      minimumEver := mem[first].size;
      freeBytes := mem[first].size;
      blocks := Fresh(first, pxEnd);
      history := [freeBytes];
      FreshIsRepresented(mem, start, first, pxEnd);
    }

    /** The aligned ends of the usable range. */
    method AlignPool() returns (first: nat, end: nat)
      requires Usable(pool, total, start)
      ensures first == Base(pool) && end == EndOf(pool, total)
    {
      var address, size := pool, total;
      if address % 4 != 0 {
        address := (address + 3) / 4 * 4;
        size := size - (address - pool);
      }
      first := address;
      address := first + size;
      address := address - HEADER;
      end := address / 4 * 4;
    }

    /** The `_reinit` entry point: forget everything and start over. */
    method Reinit()
      requires Valid()
      modifies this
      ensures Valid() && pxEnd != NULL
      ensures blocks == Fresh(Base(pool), EndOf(pool, total)) && history == [freeBytes]
      ensures allocations == 0 && frees == 0
    {
      mem := mem[start := BlockLink(NULL, 0)];
      pxEnd, freeBytes, minimumEver, allocations, frees := NULL, 0, 0, 0, 0;
      blocks := Fresh(Base(pool), EndOf(pool, total));
      Init();
    }

    /** prvInsertBlockIntoFreeList */
    method InsertBlock(block: nat, ghost bs: seq<Block>, ghost k: nat)
      requires Pending(mem, start, Base(pool), pxEnd, bs, k)
      requires block == bs[k].addr
      modifies this`mem
      ensures Listed(mem, start, Base(pool), pxEnd, Coalesce(bs, k))
      ensures SameHeaders(old(mem), mem, bs, k)
    {
      ghost var fl, b := FreeBlocks(bs), bs[k];
      PendingFits(mem, start, Base(pool), pxEnd, bs, k);
      var it := Seek(mem, start, pxEnd, block, fl);
      EditFree(it, block, fl, b);
      EditedIsListed(old(mem), mem, start, Base(pool), pxEnd, bs, k);
    }

    /** The two merge tests and the relinking of prvInsertBlockIntoFreeList. */
    method EditFree(it: nat, block: nat, ghost fl: seq<Block>, ghost b: Block)
      requires Fits(mem, start, fl, pxEnd, b)
      requires b.addr == block && mem[block].size == b.size
      requires it == WithEnds(start, fl, pxEnd)[Position(fl, block)].addr
      modifies this`mem
      ensures Edited(old(mem), mem, start, fl, pxEnd, b)
    {
      Neighbours(mem, start, fl, pxEnd, b);
      ghost var p := Position(fl, block);
      ChainAt(mem, start, fl, pxEnd, p);
      if p < |fl| {
        ChainAt(mem, start, fl, pxEnd, p + 1);
      }
      var inserted := block;
      if it + mem[it].size == block {
        mem := mem[it := mem[it].(size := mem[it].size + mem[block].size)];
        inserted := it;
      }
      var following := mem[it].next;
      if inserted + mem[inserted].size == following {
        if following != pxEnd {
          mem := mem[inserted := BlockLink(mem[following].next, mem[inserted].size + mem[following].size)];
        } else {
          mem := mem[inserted := mem[inserted].(next := pxEnd)];
        }
      } else {
        mem := mem[inserted := mem[inserted].(next := following)];
      }
      if it != inserted {
        mem := mem[it := mem[it].(next := inserted)];
      }
    }

    /** The request in whole aligned bytes with its header, or 0 if it is
        zero, too large or would overflow. */
    method RoundRequest(wanted: nat) returns (need: nat)
      requires wanted < WORD
      ensures need == if 0 < wanted < ALLOCATED_BIT then Rounded(wanted) else 0
    {
      var size: int := 0;
      if wanted < ALLOCATED_BIT {
        if wanted > 0 && (wanted + HEADER) % WORD > wanted {
          size := (wanted + HEADER) % WORD;
          if size % 4 != 0 {
            if (size + (ALIGNMENT - size % 4)) % WORD > size {
              size := (size + (ALIGNMENT - size % 4)) % WORD;
            } else {
              size := 0;
            }
          }
        }
      }
      need := size;
    }

    /** The first-fit walk of PortMalloc. */
    method FindFit(need: nat) returns (previous: nat, block: nat)
      requires Listed(mem, start, Base(pool), pxEnd, blocks) && pxEnd != NULL && need > 0
      ensures var q, cells := FirstFit(FreeBlocks(blocks), need), WithEnds(start, FreeBlocks(blocks), pxEnd);
              previous == cells[q].addr && block == cells[q + 1].addr
    {
      ghost var fl := FreeBlocks(blocks);
      ghost var cells := WithEnds(start, fl, pxEnd);
      ghost var q := 0;
      ChainAt(mem, start, fl, pxEnd, 0);
      CellIsMapped(mem, start, Base(pool), pxEnd, blocks, 1);
      previous := start;
      block := mem[start].next;
      while mem[block].size < need && mem[block].next != NULL
        invariant 0 <= q <= FirstFit(fl, need)
        invariant previous == cells[q].addr && block == cells[q + 1].addr && block in mem
        invariant mem[block] == if q == |fl| then BlockLink(NULL, 0) else BlockLink(cells[q + 2].addr, fl[q].size)
        invariant q < |fl| ==> fl[q].free && cells[q + 2].addr != NULL
        decreases |fl| - q
      {
        previous := block;
        block := mem[block].next;
        q := q + 1;
        CellIsMapped(mem, start, Base(pool), pxEnd, blocks, q + 1);
      }
    }

    /** Taking block `k` off the list, and splitting off the rest if it is
        large enough to be a block of its own. */
    method Take(previous: nat, block: nat, need: nat, ghost k: nat)
      requires Represents(mem, start, Base(pool), pxEnd, blocks)
      requires Takeable(blocks, k, need)
      requires previous == Before(start, blocks, pxEnd, k) && block == blocks[k].addr
      modifies this`mem
      ensures Listed(mem, start, Base(pool), pxEnd, Carve(blocks, k, need))
      ensures Taken(old(mem), mem, blocks, k, need)
    {
      hide Base, Listed, Marked, Before, Carve, Pending, SameHeaders, Halved, WithEnds, Occupied, Coalesce, Taken,
        WellFormed, KeepsAllocated;
      Unlink(mem, start, Base(pool), pxEnd, blocks, k);
      ghost var m := mem;
      mem := mem[previous := mem[previous].(next := mem[block].next)];
      ghost var m1 := mem;
      if mem[block].size - need > MINIMUM_BLOCK {
        var rest := block + need;
        mem := mem[rest := BlockLink(if rest in mem then mem[rest].next else NULL, mem[block].size - need)];
        HalvedIsPending(m1, mem[rest], start, Base(pool), pxEnd, blocks, k, need);
        mem := mem[block := mem[block].(size := need)];
        ghost var m2 := mem;
        InsertBlock(rest, Halved(blocks, k, need), k + 1);
        HalvedIsTaken(m, m1, m2, mem, start, Base(pool), pxEnd, blocks, k, need);
      } else {
        WholeIsTaken(m, m1, start, Base(pool), pxEnd, blocks, k, need);
      }
    }

    /** PortMalloc */
    method Malloc(wanted: nat) returns (p: nat)
      requires Valid() && wanted < WORD
      modifies this
      ensures Valid() && pxEnd != NULL
      ensures p == MallocResult(old(blocks), wanted) && blocks == AfterMalloc(old(blocks), wanted)
      ensures frees == old(frees) && allocations == old(allocations) + if p == NULL then 0 else 1
      ensures var before := if old(pxEnd) == NULL then [FreeBytes(old(blocks))] else old(history);
              history == if p == NULL then before else before + [freeBytes]
    {
      if pxEnd == NULL {
        Init();
      }
      p := NULL;
      var need := RoundRequest(wanted);
      FitIsSatisfiable(blocks, wanted);
      if 0 < need <= freeBytes {
        ghost var k := FirstFit(blocks, need);
        FitCells(start, Base(pool), pxEnd, blocks, need);
        var previous, block := FindFit(need);
        if block != pxEnd {
          p := block + HEADER;
          TakeAndMark(previous, block, need, k);
        }
      }
    }

    /** The tail of PortMalloc, once a block is found. */
    method TakeAndMark(previous: nat, block: nat, need: nat, ghost k: nat)
      requires Valid() && pxEnd != NULL
      requires Takeable(blocks, k, need)
      requires previous == Before(start, blocks, pxEnd, k) && block == blocks[k].addr
      modifies this
      ensures Valid() && pxEnd == old(pxEnd)
      ensures blocks == Carve(old(blocks), k, need)
      ensures frees == old(frees) && allocations == old(allocations) + 1
      ensures history == old(history) + [freeBytes]
    {
      hide Usable, Base, EndOf, Listed, Marked, Carve, Taken, Before, FreeBytes, IsMinimum;
      ghost var m := mem;
      Take(previous, block, need, k);
      TakenIsMarked(m, mem, start, Base(pool), pxEnd, blocks, k, need);
      freeBytes := freeBytes - mem[block].size;
      LowerMinimum(minimumEver, history, freeBytes);
      if freeBytes < minimumEver {
        minimumEver := freeBytes;
      }
      mem := mem[block := BlockLink(NULL, mem[block].size + ALLOCATED_BIT)];
      allocations := allocations + 1;
      blocks := Carve(blocks, k, need);
      history := history + [freeBytes];
      ListStarts(mem, start, Base(pool), pxEnd, blocks);
    }

    /** PortFree. A pointer that was not allocated is ignored if its header can be
        read and is not marked; `asserted` says that no assertion failed. */
    method Free(p: nat) returns (asserted: bool)
      requires Valid()
      requires p == NULL || Allocated(blocks, p) || (p >= HEADER && p - HEADER in mem && !Claimed(mem[p - HEADER]))
      modifies this
      ensures Valid()
      ensures asserted <==> p == NULL || Allocated(old(blocks), p)
      ensures pxEnd == old(pxEnd) && allocations == old(allocations) && minimumEver == old(minimumEver)
      ensures
        if p != NULL && Allocated(old(blocks), p) then
          blocks == AfterFree(old(blocks), p) && frees == old(frees) + 1 && history == old(history) + [freeBytes]
        else
          blocks == old(blocks) && frees == old(frees) && history == old(history) && mem == old(mem)
    {
      hide Listed, Marked, Usable, Base, EndOf, FreeBytes, IsMinimum, Allocated, Coalesce, Fresh;
      asserted := true;
      if p != NULL {
        var link := p - HEADER;
        AllocatedIsClaimed(p);
        asserted := Claimed(mem[link]);
        if mem[link].size >= ALLOCATED_BIT && mem[link].next == NULL {
          AllocatedMeansInitialised(p);
          ghost var k := IndexOf(blocks, p);
          HeaderIsMarked(mem, start, Base(pool), pxEnd, blocks, k);
          ghost var m := mem;
          mem := mem[link := mem[link].(size := mem[link].size - ALLOCATED_BIT)];
          freeBytes := freeBytes + mem[link].size;
          Release(link, m, k);
          frees := frees + 1;
          MinimumGrows(minimumEver, history, freeBytes);
          history := history + [freeBytes];
          ListStarts(mem, start, Base(pool), pxEnd, blocks);
        }
      }
    }

    /** The header of an allocated block is there and marked. */
    lemma AllocatedIsClaimed(p: nat)
      requires Valid() && p != NULL
      ensures Allocated(blocks, p) ==> p >= HEADER && p - HEADER in mem && Claimed(mem[p - HEADER])
    {
      if Allocated(blocks, p) {
        AllocatedMeansInitialised(p);
        HeaderIsMarked(mem, start, Base(pool), pxEnd, blocks, IndexOf(blocks, p));
      }
    }

    /** vPortGetHeapStats */
    method GetStats() returns (r: Stats)
      requires Valid()
      ensures r.available == freeBytes
      ensures pxEnd == NULL ==> r.largest == 0 && r.smallest == MAX_DELAY && r.count == 0
      ensures pxEnd != NULL ==> r.available == FreeBytes(blocks) && Measures(r, FreeBlocks(blocks))
    {
      if pxEnd != NULL {
        ListStarts(mem, start, Base(pool), pxEnd, blocks);
      }
      r := Stats(freeBytes, 0, MAX_DELAY, 0);
      var block := mem[start].next;
      if block != NULL {
        ghost var fl := FreeBlocks(blocks);
        ghost var cells := WithEnds(start, fl, pxEnd);
        ChainAt(mem, start, fl, pxEnd, 0);
        CellsAreDistinct(start, Base(pool), pxEnd, blocks);
        SizesAreBounded(blocks, Base(pool), pxEnd);
        hide Usable, Base, EndOf, WellFormed, FreeBytes, IsMinimum, Chained, Marked, FreeBlocks;
        while block != pxEnd
          invariant 0 <= r.count <= |fl|
          invariant block == cells[r.count + 1].addr
          invariant r.available == freeBytes
          invariant Measures(r, fl[..r.count])
          decreases |fl| - r.count
        {
          ghost var q := r.count;
          CellIsMapped(mem, start, Base(pool), pxEnd, blocks, q + 1);
          var size := mem[block].size;
          MeasureOneMore(r, fl, q);
          r := Stats(r.available, if size > r.largest then size else r.largest,
                     if size < r.smallest then size else r.smallest, r.count + 1);
          block := mem[block].next;
        }
        assert cells[|fl| + 1].addr == pxEnd;
        assert fl[..|fl|] == fl;
      }
    }

    lemma AllocatedMeansInitialised(p: nat)
      requires Valid() && Allocated(blocks, p)
      ensures pxEnd != NULL
    {
    }

    /** The list insertion of PortFree, from a header just unmarked. */
    ghost predicate Unmarked(m: Memory, k: nat)
      reads this
    {
      && Represents(m, start, Base(pool), pxEnd, blocks)
      && k < |blocks| && !blocks[k].free
      && mem == m[blocks[k].addr := BlockLink(NULL, blocks[k].size)]
    }

    method Release(link: nat, ghost m: Memory, ghost k: nat)
      requires Unmarked(m, k) && link == blocks[k].addr
      modifies this`mem, this`blocks
      ensures blocks == Coalesce(old(blocks), k)
      ensures Represents(mem, start, Base(pool), pxEnd, blocks)
      ensures FreeBytes(blocks) == FreeBytes(old(blocks)) + old(blocks)[k].size
    {
      FreeIsPending(m, start, Base(pool), pxEnd, blocks, k);
      hide Base, Coalesce, Listed, Marked, FreeBytes;
      InsertBlock(link, blocks, k);
      FreeIsMarked(m, old(mem), mem, start, Base(pool), pxEnd, blocks, k);
      FreeBytesAfterCoalesce(blocks, k);
      blocks := Coalesce(blocks, k);
    }
  }

  lemma MinimumGrows(m: nat, history: seq<nat>, x: nat)
    requires IsMinimum(m, history) && history != [] && history[|history| - 1] <= x
    ensures IsMinimum(m, history + [x])
  {
    assert history[|history| - 1] in history;
  }

  // ----- statistics

  /** `r` counts the blocks and gives their extreme sizes. */
  ghost predicate Measures(r: Stats, fl: seq<Block>) {
    && r.count == |fl|
    && (forall i :: 0 <= i < |fl| ==> r.smallest <= fl[i].size <= r.largest)
    && (fl == [] ==> r.largest == 0 && r.smallest == MAX_DELAY)
    && (fl != [] ==> exists i :: 0 <= i < |fl| && fl[i].size == r.largest)
    && (fl != [] ==> exists i :: 0 <= i < |fl| && fl[i].size == r.smallest)
  }

  lemma MeasureOneMore(r: Stats, fl: seq<Block>, q: nat)
    requires q < |fl| && Measures(r, fl[..q]) && 0 < fl[q].size < MAX_DELAY
    ensures var size := fl[q].size;
            Measures(Stats(r.available, if size > r.largest then size else r.largest,
                           if size < r.smallest then size else r.smallest, r.count + 1), fl[..q + 1])
  {
    var a, b := fl[..q], fl[..q + 1];
    assert b == a + [fl[q]];
    assert b[q].size == fl[q].size;
    if q > 0 {
      var i :| 0 <= i < |a| && a[i].size == r.largest;
      var j :| 0 <= j < |a| && a[j].size == r.smallest;
      assert b[i].size == r.largest && b[j].size == r.smallest;
    }
  }

  lemma SizesAreBounded(bs: seq<Block>, base: nat, end: nat)
    requires WellFormed(bs, base, end)
    ensures forall i :: 0 <= i < |FreeBlocks(bs)| ==> 0 < FreeBlocks(bs)[i].size < MAX_DELAY
  {
    FreeListIsSeparated(bs, base, end);
  }

  // ----- taking a block

  ghost predicate Takeable(bs: seq<Block>, k: nat, need: nat) {
    k < |bs| && bs[k].free && HEADER <= need <= bs[k].size && Aligned(need)
  }

  /** The list cell that leads to block `k`. */
  ghost function Before(start: nat, bs: seq<Block>, end: nat, k: nat): nat
    requires k < |bs|
  {
    var q := |FreeBlocks(bs[..k])|;
    if q <= |FreeBlocks(bs)| then WithEnds(start, FreeBlocks(bs), end)[q].addr else start
  }

  function Occupied(bs: seq<Block>, k: nat): seq<Block>
    requires k < |bs|
  {
    Splice(bs, k, k + 1, [bs[k].(free := false)])
  }

  /** Block `k` cut in two, neither part on the list. */
  function Halved(bs: seq<Block>, k: nat, need: nat): seq<Block>
    requires k < |bs| && need <= bs[k].size
  {
    Splice(bs, k, k + 1, [Block(bs[k].addr, need, false), Block(bs[k].addr + need, bs[k].size - need, false)])
  }

  /** The header of the taken block has its new size; other allocated headers
      are as they were. */
  ghost predicate Taken(mem: Memory, mem': Memory, bs: seq<Block>, k: nat, need: nat)
    requires k < |bs| && need <= bs[k].size
  {
    && bs[k].addr in mem' && mem'[bs[k].addr].size == CarvedPart(bs[k], need)[0].size
    && forall i :: 0 <= i < |bs| && !bs[i].free && bs[i].addr in mem ==>
         bs[i].addr in mem' && mem'[bs[i].addr] == mem[bs[i].addr]
  }

  ghost predicate KeepsAllocated(mem: Memory, mem': Memory, bs: seq<Block>) {
    forall i :: 0 <= i < |bs| && !bs[i].free ==>
      bs[i].addr in mem && bs[i].addr in mem' && mem'[bs[i].addr] == mem[bs[i].addr]
  }

  lemma FreeBlocksAt(bs: seq<Block>, k: nat)
    requires k < |bs| && bs[k].free
    ensures FreeBlocks(bs) == FreeBlocks(bs[..k]) + [bs[k]] + FreeBlocks(bs[k + 1..])
  {
    assert bs == bs[..k] + bs[k..];
    FreeBlocksConcat(bs[..k], bs[k..]);
    assert bs[k..][1..] == bs[k + 1..];
  }

  lemma FreeBlocksOfSplice(bs: seq<Block>, k: nat, mid: seq<Block>)
    requires k < |bs| && FreeBlocks(mid) == []
    ensures FreeBlocks(Splice(bs, k, k + 1, mid)) == FreeBlocks(bs[..k]) + FreeBlocks(bs[k + 1..])
  {
    FreeBlocksConcat(bs[..k] + mid, bs[k + 1..]);
    FreeBlocksConcat(bs[..k], mid);
  }

  lemma OccupiedIsWellFormed(bs: seq<Block>, base: nat, end: nat, k: nat)
    requires WellFormed(bs, base, end) && k < |bs|
    ensures WellFormed(Occupied(bs, k), base, end)
  {
    var mid := [bs[k].(free := false)];
    SpliceKeepsTiles(bs, base, end, k, k + 1, mid);
    SpliceKeepsNoAdjacentFree(bs, k, k + 1, mid);
  }

  lemma HalvedIsWellFormed(bs: seq<Block>, base: nat, end: nat, k: nat, need: nat)
    requires WellFormed(bs, base, end) && Takeable(bs, k, need) && bs[k].size - need > MINIMUM_BLOCK
    ensures WellFormed(Halved(bs, k, need), base, end)
  {
    var mid := [Block(bs[k].addr, need, false), Block(bs[k].addr + need, bs[k].size - need, false)];
    SpliceKeepsTiles(bs, base, end, k, k + 1, mid);
    SpliceKeepsNoAdjacentFree(bs, k, k + 1, mid);
  }

  /** Unlinking block `k` in memory. */
  lemma Unlink(mem: Memory, start: nat, base: nat, end: nat, bs: seq<Block>, k: nat)
    requires Represents(mem, start, base, end, bs) && k < |bs| && bs[k].free
    ensures var p := Before(start, bs, end, k);
            && p in mem && bs[k].addr in mem && p != bs[k].addr && mem[bs[k].addr].size == bs[k].size
            && WellFormed(bs, base, end)
            && Listed(mem[p := mem[p].(next := mem[bs[k].addr].next)], start, base, end, Occupied(bs, k))
            && KeepsAllocated(mem, mem[p := mem[p].(next := mem[bs[k].addr].next)], bs)
  {
    var fl, q := FreeBlocks(bs), |FreeBlocks(bs[..k])|;
    var cells := WithEnds(start, fl, end);
    FreeBlocksAt(bs, k);
    assert cells[q + 1] == fl[q] == bs[k];
    ChainAt(mem, start, fl, end, q);
    ChainAt(mem, start, fl, end, q + 1);
    CellsAreDistinct(start, base, end, bs);
    var mem' := mem[cells[q].addr := BlockLink(cells[q + 2].addr, cells[q].size)];
    UnlinkedChain(mem, mem', start, base, end, bs, k, q);
    OccupiedIsWellFormed(bs, base, end, k);
    BeforeIsOffBlocks(start, base, end, bs, q);
  }

  lemma UnlinkedChain(mem: Memory, mem': Memory, start: nat, base: nat, end: nat, bs: seq<Block>, k: nat, q: nat)
    requires Listed(mem, start, base, end, bs) && k < |bs| && bs[k].free
    requires q == |FreeBlocks(bs[..k])| < |FreeBlocks(bs)|
    requires var cells := WithEnds(start, FreeBlocks(bs), end);
             mem' == mem[cells[q].addr := BlockLink(cells[q + 2].addr, cells[q].size)]
    ensures Chained(mem', WithEnds(start, FreeBlocks(Occupied(bs, k)), end))
  {
    var fl := FreeBlocks(bs);
    CellsAreDistinct(start, base, end, bs);
    RemovedChain(mem, mem', WithEnds(start, fl, end), q + 1);
    SpliceInside(start, fl, end, q, q + 1, []);
    FreeBlocksAt(bs, k);
    FreeBlocksOfSplice(bs, k, [bs[k].(free := false)]);
    assert Splice(fl, q, q + 1, []) == FreeBlocks(Occupied(bs, k));
  }

  lemma BeforeIsOffBlocks(start: nat, base: nat, end: nat, bs: seq<Block>, q: nat)
    requires WellFormed(bs, base, end) && !(base <= start <= end) && q <= |FreeBlocks(bs)|
    ensures var p := WithEnds(start, FreeBlocks(bs), end)[q].addr;
            p != end && forall i :: 0 <= i < |bs| && !bs[i].free ==> bs[i].addr != p
  {
    if q > 0 {
      ListBlockIsFree(bs, base, end, q - 1);
      assert WithEnds(start, FreeBlocks(bs), end)[q] == FreeBlocks(bs)[q - 1];
    } else {
      AllOrdered(bs, base, end);
    }
  }

  lemma HalvedIsPending(m1: Memory, v: BlockLink, start: nat, base: nat, end: nat, bs: seq<Block>, k: nat, need: nat)
    requires WellFormed(bs, base, end) && Takeable(bs, k, need) && bs[k].size - need > MINIMUM_BLOCK
    requires Listed(m1, start, base, end, Occupied(bs, k))
    requires bs[k].addr in m1 && v.size == bs[k].size - need
    ensures var m := m1[bs[k].addr + need := v];
            bs[k].addr in m && m[bs[k].addr] == m1[bs[k].addr]
            && Halved(bs, k, need)[k + 1].addr == bs[k].addr + need
            && Pending(m[bs[k].addr := m[bs[k].addr].(size := need)], start, base, end, Halved(bs, k, need), k + 1)
  {
    var hs := Halved(bs, k, need);
    HalvedIsWellFormed(bs, base, end, k, need);
    FreeBlocksOfSplice(bs, k, [bs[k].(free := false)]);
    var mid := [Block(bs[k].addr, need, false), Block(bs[k].addr + need, bs[k].size - need, false)];
    assert FreeBlocks(mid) == FreeBlocks(mid[1..]) == [];
    FreeBlocksOfSplice(bs, k, mid);
    assert Listed(m1, start, base, end, hs);
    assert hs[k].addr == bs[k].addr && hs[k + 1].addr == bs[k].addr + need && !hs[k].free && !hs[k + 1].free;
    hide Listed, WellFormed, FreeBlocks;
    var m := m1[hs[k + 1].addr := v];
    OffListUpdate(m1, start, base, end, hs, k + 1, v);
    OffListUpdate(m, start, base, end, hs, k, m[hs[k].addr].(size := need));
  }

  lemma CoalescedHalves(bs: seq<Block>, k: nat, need: nat)
    requires NoAdjacentFree(bs) && Takeable(bs, k, need) && bs[k].size - need > MINIMUM_BLOCK
    ensures Coalesce(Halved(bs, k, need), k + 1) == Carve(bs, k, need)
  {
    var hs, rest := Halved(bs, k, need), Block(bs[k].addr + need, bs[k].size - need, true);
    assert k + 1 < |bs| ==> !bs[k + 1].free;
    assert hs[k + 1] == rest.(free := false);
    assert MergedBlock(hs, k + 1) == rest;
    assert hs[..k + 1] == bs[..k] + [Block(bs[k].addr, need, false)];
    assert hs[k + 2..] == bs[k + 1..];
  }

  /** Allocated blocks of `bs` are among the allocated halves. */
  lemma HalvedIsTaken(m: Memory, m1: Memory, m2: Memory, m3: Memory,
                      start: nat, base: nat, end: nat, bs: seq<Block>, k: nat, need: nat)
    requires Represents(m, start, base, end, bs)
    requires Takeable(bs, k, need) && bs[k].size - need > MINIMUM_BLOCK
    requires KeepsAllocated(m, m1, bs)
    requires bs[k].addr in m2 && m2[bs[k].addr].size == need
    requires forall a :: a in m1 && a != bs[k].addr && a != bs[k].addr + need ==> a in m2 && m2[a] == m1[a]
    requires SameHeaders(m2, m3, Halved(bs, k, need), k + 1)
    requires Listed(m3, start, base, end, Coalesce(Halved(bs, k, need), k + 1))
    ensures Listed(m3, start, base, end, Carve(bs, k, need))
    ensures Taken(m, m3, bs, k, need)
  {
    CoalescedHalves(bs, k, need);
    var hs := Halved(bs, k, need);
    assert hs[k] == Block(bs[k].addr, need, false);
    hide Listed;
    forall i | 0 <= i < |bs| && !bs[i].free
      ensures bs[i].addr in m3 && m3[bs[i].addr] == m[bs[i].addr]
    {
      var j := if i < k then i else i + 1;
      assert hs[j] == bs[i];
      HalvesAreNotOthers(bs, base, end, k, need, i);
    }
  }

  lemma HalvesAreNotOthers(bs: seq<Block>, base: nat, end: nat, k: nat, need: nat, i: nat)
    requires Tiles(bs, base, end) && Takeable(bs, k, need) && bs[k].size - need > MINIMUM_BLOCK
    requires i < |bs| && i != k
    ensures bs[i].addr != bs[k].addr && bs[i].addr != bs[k].addr + need
  {
    AllOrdered(bs, base, end);
  }

  lemma WholeIsTaken(m: Memory, m1: Memory, start: nat, base: nat, end: nat, bs: seq<Block>, k: nat, need: nat)
    requires Represents(m, start, base, end, bs)
    requires Takeable(bs, k, need) && bs[k].size - need <= MINIMUM_BLOCK
    requires Listed(m1, start, base, end, Occupied(bs, k))
    requires bs[k].addr in m1 && m1[bs[k].addr].size == bs[k].size
    requires KeepsAllocated(m, m1, bs)
    ensures Listed(m1, start, base, end, Carve(bs, k, need))
    ensures Taken(m, m1, bs, k, need)
  {
  }

  lemma TakenIsMarked(m: Memory, m1: Memory, start: nat, base: nat, end: nat, bs: seq<Block>, k: nat, need: nat)
    requires Represents(m, start, base, end, bs) && Takeable(bs, k, need)
    requires Taken(m, m1, bs, k, need)
    requires Listed(m1, start, base, end, Carve(bs, k, need))
    ensures bs[k].addr in m1 && m1[bs[k].addr].size <= FreeBytes(bs)
    ensures FreeBytes(Carve(bs, k, need)) == FreeBytes(bs) - m1[bs[k].addr].size
    ensures var m2 := m1[bs[k].addr := BlockLink(NULL, m1[bs[k].addr].size + ALLOCATED_BIT)];
            Represents(m2, start, base, end, Carve(bs, k, need))
  {
    var cs, mid := Carve(bs, k, need), CarvedPart(bs[k], need);
    assert cs[k] == mid[0];
    OffListUpdate(m1, start, base, end, cs, k, BlockLink(NULL, m1[bs[k].addr].size + ALLOCATED_BIT));
    hide Listed;
    CarvedBytes(bs, k, need);
    CarvedMarks(m, m1, base, end, bs, k, need);
  }

  lemma CarvedBytes(bs: seq<Block>, k: nat, need: nat)
    requires Takeable(bs, k, need)
    ensures FreeBytes(Carve(bs, k, need)) + CarvedPart(bs[k], need)[0].size == FreeBytes(bs)
  {
    var mid := CarvedPart(bs[k], need);
    FreeBytesOfSplice(bs, k, k + 1, mid);
    assert FreeBytes(mid) + mid[0].size == bs[k].size by {
      assert |mid| == 2 ==> FreeBytes(mid[1..]) == mid[1].size;
    }
    assert bs[k..k + 1] == [bs[k]];
  }

  lemma CarvedMarks(m: Memory, m1: Memory, base: nat, end: nat, bs: seq<Block>, k: nat, need: nat)
    requires WellFormed(bs, base, end) && Marked(m, bs) && Takeable(bs, k, need)
    requires Taken(m, m1, bs, k, need)
    ensures Marked(m1[bs[k].addr := BlockLink(NULL, m1[bs[k].addr].size + ALLOCATED_BIT)], Carve(bs, k, need))
  {
    var cs, mid := Carve(bs, k, need), CarvedPart(bs[k], need);
    var d := |mid| - 1;
    AddressesDiffer(bs, base, end, k);
    forall i | 0 <= i < |cs| && !cs[i].free
      ensures var m2 := m1[bs[k].addr := BlockLink(NULL, m1[bs[k].addr].size + ALLOCATED_BIT)];
              cs[i].addr in m2 && m2[cs[i].addr] == BlockLink(NULL, cs[i].size + ALLOCATED_BIT)
    {
      if i < k {
        assert cs[i] == bs[i];
      } else if i > k {
        assert i > k + d && cs[i] == bs[i - d];
      } else {
        assert cs[i] == mid[0];
      }
    }
  }

  lemma LowerMinimum(m: nat, history: seq<nat>, x: nat)
    requires IsMinimum(m, history)
    ensures IsMinimum(if x < m then x else m, history + [x])
  {
    var h' := history + [x];
    assert h'[|history|] == x;
    assert forall i :: 0 <= i < |history| ==> h'[i] == history[i];
  }

  lemma FitIsSatisfiable(bs: seq<Block>, wanted: nat)
    ensures Satisfiable(bs, wanted) ==> Rounded(wanted) <= FreeBytes(bs)
  {
    if Satisfiable(bs, wanted) {
      FreeBytesCoversBlock(bs, FirstFit(bs, Rounded(wanted)));
    }
  }

  lemma FitCells(start: nat, base: nat, end: nat, bs: seq<Block>, need: nat)
    requires WellFormed(bs, base, end)
    ensures var k, q := FirstFit(bs, need), FirstFit(FreeBlocks(bs), need);
            var cells := WithEnds(start, FreeBlocks(bs), end);
            && (k == |bs| ==> cells[q + 1].addr == end)
            && (k < |bs| ==> cells[q + 1].addr == bs[k].addr < end && cells[q].addr == Before(start, bs, end, k))
  {
    var k, q := FirstFit(bs, need), FirstFit(FreeBlocks(bs), need);
    FitAlongList(bs, need);
    if k < |bs| {
      assert WithEnds(start, FreeBlocks(bs), end)[q + 1] == FreeBlocks(bs)[q];
      AddressesDiffer(bs, base, end, k);
    }
  }

  /** A tiling whose free blocks are on the list. */
  ghost predicate Listed(mem: Memory, start: nat, base: nat, end: nat, bs: seq<Block>) {
    && WellFormed(bs, base, end)
    && !(base <= start <= end)
    && Chained(mem, WithEnds(start, FreeBlocks(bs), end))
    && end in mem && mem[end] == BlockLink(NULL, 0)
  }

  /** A tiling with block `k` off the list, its header ready for insertion. */
  ghost predicate Pending(mem: Memory, start: nat, base: nat, end: nat, bs: seq<Block>, k: nat) {
    && Listed(mem, start, base, end, bs)
    && k < |bs| && !bs[k].free
    && bs[k].addr in mem && mem[bs[k].addr].size == bs[k].size
  }

  ghost predicate SameHeaders(mem: Memory, mem': Memory, bs: seq<Block>, k: nat) {
    forall i :: 0 <= i < |bs| && !bs[i].free && i != k && bs[i].addr in mem ==>
      bs[i].addr in mem' && mem'[bs[i].addr] == mem[bs[i].addr]
  }

  lemma CellsAreDistinct(start: nat, base: nat, end: nat, bs: seq<Block>)
    requires WellFormed(bs, base, end) && !(base <= start <= end)
    ensures DistinctCells(WithEnds(start, FreeBlocks(bs), end))
  {
    FreeListIsSeparated(bs, base, end);
  }

  lemma PendingFits(mem: Memory, start: nat, base: nat, end: nat, bs: seq<Block>, k: nat)
    requires Pending(mem, start, base, end, bs, k)
    ensures Fits(mem, start, FreeBlocks(bs), end, bs[k])
  {
    CellsAreDistinct(start, base, end, bs);
    var fl := FreeBlocks(bs);
    AllOrdered(bs, base, end);
    FreeBlocksAreBlocks(bs);
    FreeListIsSeparated(bs, base, end);
    forall i | 0 <= i < |fl|
      ensures fl[i].End() <= bs[k].addr || bs[k].End() <= fl[i].addr
    {
      var j :| 0 <= j < |bs| && bs[j] == fl[i];
    }
  }

  lemma EditedIsListed(mem: Memory, mem': Memory, start: nat, base: nat, end: nat, bs: seq<Block>, k: nat)
    requires Pending(mem, start, base, end, bs, k)
    requires Edited(mem, mem', start, FreeBlocks(bs), end, bs[k])
    ensures Listed(mem', start, base, end, Coalesce(bs, k))
    ensures SameHeaders(mem, mem', bs, k)
  {
    PendingFits(mem, start, base, end, bs, k);
    EditedIsChained(mem, mem', start, FreeBlocks(bs), end, bs[k]);
    InsertedIsCoalesced(bs, base, end, k);
    CoalesceKeepsWellFormed(bs, base, end, k);
    EditStaysOnList(start, base, end, bs, k);
  }

  /** The cell the insertion writes to is no allocated block and not the end. */
  lemma EditStaysOnList(start: nat, base: nat, end: nat, bs: seq<Block>, k: nat)
    requires WellFormed(bs, base, end) && !(base <= start <= end)
    requires k < |bs| && !bs[k].free
    ensures var it := WithEnds(start, FreeBlocks(bs), end)[Position(FreeBlocks(bs), bs[k].addr)].addr;
            && it != end && bs[k].addr != end
            && (forall i :: 0 <= i < |bs| && !bs[i].free ==> bs[i].addr != it)
            && (forall i :: 0 <= i < |bs| && i != k ==> bs[i].addr != bs[k].addr)
  {
    var fl, p := FreeBlocks(bs), Position(FreeBlocks(bs), bs[k].addr);
    if p > 0 {
      ListBlockIsFree(bs, base, end, p - 1);
      assert WithEnds(start, fl, end)[p] == fl[p - 1];
    } else {
      AllOrdered(bs, base, end);
    }
    AddressesDiffer(bs, base, end, k);
  }

  lemma ListBlockIsFree(bs: seq<Block>, base: nat, end: nat, p: nat)
    requires Tiles(bs, base, end) && p < |FreeBlocks(bs)|
    ensures base <= FreeBlocks(bs)[p].addr < end
    ensures forall i :: 0 <= i < |bs| && !bs[i].free ==> bs[i].addr != FreeBlocks(bs)[p].addr
  {
    FreeBlocksAreBlocks(bs);
    var j :| 0 <= j < |bs| && bs[j] == FreeBlocks(bs)[p];
    AddressesDiffer(bs, base, end, j);
  }

  lemma AddressesDiffer(bs: seq<Block>, base: nat, end: nat, k: nat)
    requires Tiles(bs, base, end) && k < |bs|
    ensures base <= bs[k].addr < end
    ensures forall i :: 0 <= i < |bs| && i != k ==> bs[i].addr != bs[k].addr
  {
    AllOrdered(bs, base, end);
  }

  /** What the walk reads at list cell `q`. */
  lemma CellIsMapped(mem: Memory, start: nat, base: nat, end: nat, bs: seq<Block>, q: nat)
    requires Listed(mem, start, base, end, bs) && 1 <= q <= |FreeBlocks(bs)| + 1
    ensures var fl, cells := FreeBlocks(bs), WithEnds(start, FreeBlocks(bs), end);
            && cells[q].addr in mem
            && mem[cells[q].addr] ==
                 (if q == |fl| + 1 then BlockLink(NULL, 0) else BlockLink(cells[q + 1].addr, fl[q - 1].size))
            && (q <= |fl| ==> fl[q - 1].free && cells[q + 1].addr != NULL)
  {
    var fl, cells := FreeBlocks(bs), WithEnds(start, FreeBlocks(bs), end);
    if q <= |fl| {
      ChainAt(mem, start, fl, end, q);
      FreeBlocksAreBlocks(bs);
      FreeListIsSeparated(bs, base, end);
      assert q < |fl| ==> cells[q + 1] == fl[q];
    }
  }

  lemma HeaderIsMarked(mem: Memory, start: nat, base: nat, end: nat, bs: seq<Block>, k: nat)
    requires Represents(mem, start, base, end, bs) && k < |bs| && !bs[k].free
    ensures bs[k].addr in mem && mem[bs[k].addr] == BlockLink(NULL, bs[k].size + ALLOCATED_BIT)
  {
  }

  lemma ListStarts(mem: Memory, start: nat, base: nat, end: nat, bs: seq<Block>)
    requires Listed(mem, start, base, end, bs)
    ensures start in mem && mem[start].next != NULL
  {
    ChainAt(mem, start, FreeBlocks(bs), end, 0);
    FreeListIsSeparated(bs, base, end);
  }

  lemma FreeIsPending(mem: Memory, start: nat, base: nat, end: nat, bs: seq<Block>, k: nat)
    requires Represents(mem, start, base, end, bs)
    requires k < |bs| && !bs[k].free
    ensures Pending(mem[bs[k].addr := BlockLink(NULL, bs[k].size)], start, base, end, bs, k)
  {
    OffListUpdate(mem, start, base, end, bs, k, BlockLink(NULL, bs[k].size));
  }

  /** Writing the header of an allocated block leaves the list alone. */
  lemma OffListUpdate(mem: Memory, start: nat, base: nat, end: nat, bs: seq<Block>, k: nat, v: BlockLink)
    requires Listed(mem, start, base, end, bs)
    requires k < |bs| && !bs[k].free
    ensures Listed(mem[bs[k].addr := v], start, base, end, bs)
  {
    var cells := WithEnds(start, FreeBlocks(bs), end);
    AddressesDiffer(bs, base, end, k);
    forall i | 0 <= i < |cells|
      ensures cells[i].addr != bs[k].addr
    {
      if 0 < i <= |FreeBlocks(bs)| {
        assert cells[i] == FreeBlocks(bs)[i - 1];
        ListBlockIsFree(bs, base, end, i - 1);
      }
    }
  }

  lemma FreeIsMarked(m: Memory, mem: Memory, mem': Memory, start: nat, base: nat, end: nat, bs: seq<Block>, k: nat)
    requires Represents(m, start, base, end, bs)
    requires k < |bs| && !bs[k].free
    requires mem == m[bs[k].addr := BlockLink(NULL, bs[k].size)]
    requires SameHeaders(mem, mem', bs, k)
    ensures Marked(mem', Coalesce(bs, k))
  {
    var lo, hi, cs := MergeFrom(bs, k), MergeTo(bs, k), Coalesce(bs, k);
    AddressesDiffer(bs, base, end, k);
    assert forall i :: 0 <= i < lo ==> cs[i] == bs[i];
    assert forall i :: lo < i < |cs| ==> cs[i] == bs[i + hi - lo - 1];
  }

  lemma FreeBytesAfterCoalesce(bs: seq<Block>, k: nat)
    requires k < |bs| && !bs[k].free
    ensures FreeBytes(Coalesce(bs, k)) == FreeBytes(bs) + bs[k].size
  {
    var lo, hi := MergeFrom(bs, k), MergeTo(bs, k);
    FreeBytesOfSplice(bs, lo, hi, [MergedBlock(bs, k)]);
    FreeBytesOfRun(bs, lo, k, hi);
    FreeBytesOfOne(MergedBlock(bs, k));
    if lo < k {
      assert bs[lo..k] == [bs[k - 1]];
      FreeBytesOfOne(bs[k - 1]);
    }
    if k + 1 < hi {
      assert bs[k + 1..hi] == [bs[k + 1]];
      FreeBytesOfOne(bs[k + 1]);
    }
  }

  lemma FreeBytesOfOne(b: Block)
    ensures FreeBytes([b]) == if b.free then b.size else 0
  {
    assert FreeBytes([b][1..]) == 0;
  }

  lemma FreeBytesOfRun(bs: seq<Block>, lo: nat, k: nat, hi: nat)
    requires lo <= k < hi <= |bs| && !bs[k].free
    ensures FreeBytes(bs[lo..hi]) == FreeBytes(bs[lo..k]) + FreeBytes(bs[k + 1..hi])
  {
    assert bs[lo..hi] == bs[lo..k] + bs[k..hi];
    FreeBytesConcat(bs[lo..k], bs[k..hi]);
    assert bs[k..hi][1..] == bs[k + 1..hi];
  }

  lemma PoolBounds(pool: nat, total: nat, start: nat)
    requires Usable(pool, total, start)
    ensures 0 < pool <= Base(pool) <= pool + 3 && HEADER <= total
    ensures Aligned(Base(pool)) && Aligned(EndOf(pool, total))
    ensures Base(pool) + HEADER <= EndOf(pool, total) < Base(pool) + ALLOCATED_BIT
    ensures EndOf(pool, total) + HEADER <= pool + total
    ensures !(Base(pool) <= start <= EndOf(pool, total))
  {
  }

  lemma FreshIsRepresented(mem: Memory, start: nat, base: nat, end: nat)
    requires base > 0 && Aligned(base) && Aligned(end) && base + HEADER <= end < base + ALLOCATED_BIT
    requires !(base <= start <= end)
    requires start in mem && mem[start] == BlockLink(base, 0)
    requires base in mem && mem[base] == BlockLink(end, end - base)
    requires end in mem && mem[end] == BlockLink(NULL, 0)
    ensures Represents(mem, start, base, end, Fresh(base, end))
    ensures FreeBytes(Fresh(base, end)) == end - base
  {
    var bs := Fresh(base, end);
    assert FreeBlocks(bs) == bs;
    assert FreeBytes(bs[1..]) == 0;
  }

  /** The search loop of prvInsertBlockIntoFreeList. */
  method Seek(mem: Memory, start: nat, end: nat, block: nat, ghost fl: seq<Block>) returns (it: nat)
    requires Chained(mem, WithEnds(start, fl, end))
    requires block <= end
    ensures it == WithEnds(start, fl, end)[Position(fl, block)].addr
  {
    it := start;
    ghost var p := 0;
    ChainAt(mem, start, fl, end, p);
    while mem[it].next < block
      invariant 0 <= p <= Position(fl, block)
      invariant it == WithEnds(start, fl, end)[p].addr
      invariant it in mem && mem[it].next == WithEnds(start, fl, end)[p + 1].addr
      decreases |fl| - p
    {
      it := mem[it].next;
      p := p + 1;
      ChainAt(mem, start, fl, end, p);
    }
  }
}
