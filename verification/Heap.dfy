/**
 The kernel heap: 1024 frames taken from the frame map right after the kernel image, handed
 out by a pointer that only moves up; and the boot-time question whether the frames the
 allocator picks are the ones the heap needs.
 */
module Heap {
  import opened Machine
  import opened Pmm
  import opened PmmProps

  const HEAP_PAGES: u32 := 1024

  const HEAP_BYTES: u64 := 0x40_0000

  /** The `(void*)-1` that `Sbrk` answers on refusal. */
  const NO_MEMORY: u64 := 0xFFFF_FFFF_FFFF_FFFF

  /** How `heap_init` ends: it returns, or it panics in one of two ways. */
  datatype Outcome = Ready | OutOfMemory | AddressMismatch

  /** The three pointers, as a value. */
  datatype Extent = Extent(base: nat, cur: nat, limit: nat) {
    predicate Valid() {
      base <= cur <= limit <= (MAX_FRAMES + HEAP_PAGES) * PAGE_SIZE
    }

    /** The heap after a request, and the answer: the old top, or a refusal that changes nothing. */
    function Sbrk(incr: int): (Extent, u64)
      requires Valid()
    {
      if incr == 0 then (this, cur)
      else if incr < 0 || cur + incr > limit then (this, NO_MEMORY)
      else (this.(cur := cur + incr), cur)
    }
  }

  /** The window `heap_init` needs: the 1024 frames from the kernel's rounded end. */
  ghost predicate HeapWindowFree(free: set<nat>, total: nat, kernelEnd: u64) {
    Window(free, total, PageUp(kernelEnd) / PAGE_SIZE, HEAP_PAGES)
  }

  lemma FirstFitIsUnique(free: set<nat>, total: nat, n: nat)
    ensures forall s: nat, t: nat :: FirstFit(free, total, n, s) && FirstFit(free, total, n, t) ==> s == t
    ensures forall s: nat :: FirstFit(free, total, n, s) ==> Fits(free, total, n)
  {
  }

  class KernelHeap {
    var base: u64
    var cur: u64
    var limit: u64

    ghost function Value(): Extent
      reads this
    {
      Extent(base, cur, limit)
    }

    constructor ()
    {
      base, cur, limit := 0, 0, 0;
    }

    method Init(kernelEnd: u64, pmm: FrameMap) returns (outcome: Outcome)
      requires pmm.Valid()
      modifies this, pmm.bitmap
      ensures outcome == OutOfMemory <==>
                || !Fits(old(pmm.Free()), pmm.totalFrames, HEAP_PAGES)
                || FirstFit(old(pmm.Free()), pmm.totalFrames, HEAP_PAGES, 0)
      ensures outcome == Ready <==>
                && PageUp(kernelEnd) > 0
                && FirstFit(old(pmm.Free()), pmm.totalFrames, HEAP_PAGES, PageUp(kernelEnd) / PAGE_SIZE)
      ensures outcome == Ready ==>
                && Value() == Extent(PageUp(kernelEnd), PageUp(kernelEnd), PageUp(kernelEnd) + HEAP_BYTES)
                && Value().Valid()
                && pmm.Free() == old(pmm.Free()) - Frames(PageUp(kernelEnd) / PAGE_SIZE, HEAP_PAGES)
    {
      base := PageUp(kernelEnd);
      var phys := pmm.AllocPages(HEAP_PAGES);
      ghost var free := old(pmm.Free());
      FirstFitIsUnique(free, pmm.totalFrames, HEAP_PAGES);
      if phys == 0 {
        return OutOfMemory;
      }
      if phys != base {
        return AddressMismatch;
      }
      cur := base;
      limit := Add64(base, HEAP_PAGES * PAGE_SIZE);
      outcome := Ready;
    }

    method Sbrk(incr: int) returns (top: u64)
      requires Value().Valid() && -0x8000_0000_0000_0000 <= incr < 0x8000_0000_0000_0000
      modifies this
      ensures Value().Valid()
      ensures (Value(), top) == old(Value()).Sbrk(incr)
    {
      if incr == 0 {
        return cur;
      }
      if incr < 0 {
        return NO_MEMORY;
      }
      top := cur;
      var next := Add64(cur, incr);
      if next > limit {
        return NO_MEMORY;
      }
      cur := next;
    }
  }

  /* Boot. */

  /** Every page of the 4 MB after the kernel is inside one usable region and below 512 MB. */
  ghost predicate HeapBacked(mm: seq<Region>, kernelEnd: u64) {
    forall p: nat :: PageUp(kernelEnd) <= p * 4096 < PageUp(kernelEnd) + 0x40_0000 ==> Usable(mm, p) && p < 131072
  }

  /** First fit answers the page after the kernel exactly when that window is free. */
  lemma FirstFitAfterKernel(mm: seq<Region>, kernelEnd: u64)
    requires 0 < PageUp(kernelEnd)
    ensures var free, total := InitialFree(mm, kernelEnd), TotalFrames(mm);
            FirstFit(free, total, HEAP_PAGES, PageUp(kernelEnd) / PAGE_SIZE) <==> HeapWindowFree(free, total, kernelEnd)
  {
    var free, total, k := InitialFree(mm, kernelEnd), TotalFrames(mm), PageUp(kernelEnd) / PAGE_SIZE;
    assert k * PAGE_SIZE == PageUp(kernelEnd);
    forall s: nat | s < k
      ensures !Window(free, total, s, HEAP_PAGES)
    {
      assert s in Frames(s, HEAP_PAGES) && s !in free;
    }
  }

  /** For a map that ends below 2^44 the window is free exactly when the memory map backs the heap. */
  lemma WindowFreeIffBacked(mm: seq<Region>, kernelEnd: u64)
    requires EndsBelow2To44(mm) && 0 < PageUp(kernelEnd)
    ensures HeapWindowFree(InitialFree(mm, kernelEnd), TotalFrames(mm), kernelEnd) <==> HeapBacked(mm, kernelEnd)
  {
    var free, total, k := InitialFree(mm, kernelEnd), TotalFrames(mm), PageUp(kernelEnd) / PAGE_SIZE;
    InitBelow2To44(mm, kernelEnd);
    assert forall p: nat :: p in Frames(k, HEAP_PAGES) <==>
      PageUp(kernelEnd) <= p * PAGE_SIZE < PageUp(kernelEnd) + HEAP_BYTES;
    if HeapBacked(mm, kernelEnd) {
      assert forall p :: p in Frames(k, HEAP_PAGES) ==> p in free;
      assert k + HEAP_PAGES - 1 in Frames(k, HEAP_PAGES);
    }
    if HeapWindowFree(free, total, kernelEnd) {
      forall p: nat | PageUp(kernelEnd) <= p * PAGE_SIZE < PageUp(kernelEnd) + HEAP_BYTES
        ensures Usable(mm, p) && p < MAX_FRAMES
      {
        assert p in Frames(k, HEAP_PAGES) && p in free;
      }
    }
  }

  /**
   The kernel's memory bring-up: `pmm_init`, then `heap_init`. It gets past both panics
   exactly when the allocator's window after the kernel is free; and for a map that ends
   below 2^44 that is exactly when the memory map backs the heap.
   */
  method BootMemory(mm: seq<Region>, kernelEnd: u64, pmm: FrameMap, heap: KernelHeap) returns (outcome: Outcome)
    requires pmm.Valid()
    modifies pmm, pmm.bitmap, heap
    ensures outcome == Ready <==>
              0 < PageUp(kernelEnd) && HeapWindowFree(InitialFree(mm, kernelEnd), TotalFrames(mm), kernelEnd)
    ensures EndsBelow2To44(mm) ==> (outcome == Ready <==> 0 < PageUp(kernelEnd) && HeapBacked(mm, kernelEnd))
    ensures outcome == Ready ==>
      && pmm.Valid() && heap.Value().Valid()
      && heap.Value() == Extent(PageUp(kernelEnd), PageUp(kernelEnd), PageUp(kernelEnd) + 0x40_0000)
      && pmm.Free() == InitialFree(mm, kernelEnd) - Frames(PageUp(kernelEnd) / 4096, 1024)
  {
    pmm.Init(mm, kernelEnd);
    outcome := heap.Init(kernelEnd, pmm);
    if 0 < PageUp(kernelEnd) {
      FirstFitAfterKernel(mm, kernelEnd);
      if EndsBelow2To44(mm) {
        WindowFreeIffBacked(mm, kernelEnd);
      }
    }
  }

  /* Runs of the heap. */

  /** A granted request: `size` bytes at `at`. */
  datatype Grant = Grant(at: nat, size: nat)

  /** Each kind of request: a query, a refusal that changes nothing, or the old top and a higher one. */
  lemma SbrkAnswers(h: Extent, incr: int)
    requires h.Valid()
    ensures incr == 0 ==> h.Sbrk(incr) == (h, h.cur)
    ensures incr < 0 || incr > h.limit - h.cur ==> h.Sbrk(incr) == (h, 0xFFFF_FFFF_FFFF_FFFF)
    ensures 0 < incr <= h.limit - h.cur ==> h.Sbrk(incr) == (h.(cur := h.cur + incr), h.cur)
  {
  }

  /** The heap after a list of requests. */
  function Sbrks(h: Extent, incrs: seq<int>): (h': Extent)
    requires h.Valid()
    ensures h'.Valid()
  {
    if incrs == [] then h else Sbrks(h, incrs[..|incrs| - 1]).Sbrk(incrs[|incrs| - 1]).0
  }

  /** The blocks handed out, oldest first: a request got one if it asked for bytes and was not refused. */
  function Grants(h: Extent, incrs: seq<int>): seq<Grant>
    requires h.Valid()
  {
    if incrs == [] then []
    else
      var k := |incrs| - 1;
      var answer := Sbrks(h, incrs[..k]).Sbrk(incrs[k]).1;
      Grants(h, incrs[..k]) + if incrs[k] > 0 && answer != NO_MEMORY then [Grant(answer, incrs[k])] else []
  }

  /** `blocks` cover [from, to) in order, each starting where the one before it ends. */
  predicate Tile(blocks: seq<Grant>, from: nat, to: nat) {
    if blocks == [] then from == to
    else
      var last := blocks[|blocks| - 1];
      last.size > 0 && last.at + last.size == to && Tile(blocks[..|blocks| - 1], from, last.at)
  }

  /** Whatever is asked, the granted blocks tile exactly [base, cur), which stays below the limit. */
  lemma {:induction false} GrantsTileHeap(h: Extent, incrs: seq<int>)
    requires h.Valid() && h.cur == h.base
    ensures var h' := Sbrks(h, incrs);
            && h'.base == h.base && h'.limit == h.limit && h'.base <= h'.cur <= h'.limit
            && Tile(Grants(h, incrs), h'.base, h'.cur)
    decreases |incrs|
  {
    if incrs == [] {
    } else {
      var k := |incrs| - 1;
      GrantsTileHeap(h, incrs[..k]);
      var before, after := Grants(h, incrs[..k]), Grants(h, incrs);
      if |after| > |before| {
        assert after[..|after| - 1] == before;
      } else {
        assert after == before;
      }
    }
  }

  /** Tiling blocks do not overlap. */
  lemma {:induction false} TilesAreDisjoint(blocks: seq<Grant>, from: nat, to: nat)
    requires Tile(blocks, from, to)
    ensures forall i, j :: 0 <= i < j < |blocks| ==> blocks[i].at + blocks[i].size <= blocks[j].at
    ensures forall i :: 0 <= i < |blocks| ==> from <= blocks[i].at && blocks[i].at + blocks[i].size <= to
    decreases |blocks|
  {
    if blocks == [] {
    } else {
      var k := |blocks| - 1;
      TilesAreDisjoint(blocks[..k], from, blocks[k].at);
      assert forall i :: 0 <= i < k ==> blocks[..k][i] == blocks[i];
      TileSpan(blocks[..k], from, blocks[k].at);
    }
  }

  lemma {:induction false} TileSpan(blocks: seq<Grant>, from: nat, to: nat)
    requires Tile(blocks, from, to)
    ensures from <= to
    decreases |blocks|
  {
    if blocks == [] {
    } else {
      TileSpan(blocks[..|blocks| - 1], from, blocks[|blocks| - 1].at);
    }
  }
}
