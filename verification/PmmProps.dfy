/**
 What the frame bitmap means: which frames of the memory map `Init` frees, and what any run
 of allocations and releases keeps.
 */
module PmmProps {
  import opened Machine
  import opened Pmm

  /* The memory map. */

  /** The 4 KB page `p` lies inside region `r`, in true arithmetic. */
  predicate Inside(r: Region, p: nat) {
    r.base <= p * 4096 && (p + 1) * 4096 <= r.base + r.length
  }

  ghost predicate Usable(mm: seq<Region>, p: nat) {
    exists i :: 0 <= i < |mm| && mm[i].kind == 1 && Inside(mm[i], p)
  }

  /** The frames that should be free: inside one usable region and not below the kernel's end. */
  ghost predicate ShouldBeFree(mm: seq<Region>, kernelEnd: u64, f: nat) {
    f < 131072 && Usable(mm, f) && PageUp(kernelEnd) <= f * 4096
  }

  /** No usable region's rounded start or end overflows 64 bits. */
  predicate NoOverflow(mm: seq<Region>) {
    forall i :: 0 <= i < |mm| && mm[i].kind == USABLE ==>
      mm[i].base + PAGE_SIZE - 1 < U64 && mm[i].base + mm[i].length < U64
  }

  /** Every usable region ends below 2^44, so its page indexes fit 32 bits. */
  predicate EndsBelow2To44(mm: seq<Region>) {
    forall i :: 0 <= i < |mm| && mm[i].kind == USABLE ==> mm[i].base + mm[i].length < 0x1000_0000_0000
  }

  /** A page index above 32 bits never truncates to a frame the map does not offer itself. */
  ghost predicate AliasesHarmless(mm: seq<Region>, kernelEnd: u64) {
    forall p: nat :: p >= U32 && Usable(mm, p) && Trunc32(p) < MAX_FRAMES
                     && PageUp(kernelEnd) <= Trunc32(p) * PAGE_SIZE ==>
                     Usable(mm, Trunc32(p))
  }

  /** Rounding the region's base up passes 2^64, so the loop starts at 0. */
  predicate StartWraps(r: Region) {
    r.base + PAGE_SIZE - 1 >= U64
  }

  /** The region's end passes 2^64. */
  predicate EndWraps(r: Region) {
    r.base + r.length >= U64
  }

  /** Which pages the freeing loop visits: its own, all those below its wrapped end, or none. */
  lemma VisitsPerRegion(r: Region, p: nat)
    ensures !StartWraps(r) && !EndWraps(r) ==> (VisitsPage(r, p) <==> Inside(r, p))
    ensures StartWraps(r) ==> (VisitsPage(r, p) <==> (p + 1) * PAGE_SIZE <= End(r))
    ensures !StartWraps(r) && EndWraps(r) ==> !VisitsPage(r, p)
  {
  }

  /** The loop over `r` visits page `p`, which is not its own or has an index above 32 bits. */
  predicate Strays(r: Region, p: nat) {
    if StartWraps(r) then (p + 1) * PAGE_SIZE <= End(r) else !EndWraps(r) && p >= U32 && Inside(r, p)
  }

  /** A frame of the bitmap past the kernel. */
  predicate Wanted(kernelEnd: u64, f: nat) {
    f < MAX_FRAMES && PageUp(kernelEnd) <= f * PAGE_SIZE
  }

  /** Where a region's loop strays it clears only frames the map offers anyway. */
  ghost predicate StraysHarmless(mm: seq<Region>, kernelEnd: u64) {
    forall i: nat, p: nat :: i < |mm| && mm[i].kind == USABLE && Strays(mm[i], p) && Wanted(kernelEnd, Trunc32(p)) ==>
      Usable(mm, Trunc32(p))
  }

  /** Frame `f` lies in a usable region that does not wrap, or the loop over one strays to it. */
  ghost predicate Reached(mm: seq<Region>, f: nat) {
    || (exists i: nat :: i < |mm| && mm[i].kind == USABLE && !StartWraps(mm[i]) && !EndWraps(mm[i]) && Inside(mm[i], f))
    || (exists i: nat, p: nat :: i < |mm| && mm[i].kind == USABLE && Strays(mm[i], p) && Trunc32(p) == f)
  }

  /** A usable region whose end alone wraps is skipped, so its frames, all from its base on, are reached otherwise. */
  ghost predicate SkippedReached(mm: seq<Region>, kernelEnd: u64) {
    forall i: nat, f: nat :: i < |mm| && mm[i].kind == USABLE && !StartWraps(mm[i]) && EndWraps(mm[i])
                             && mm[i].base <= f * PAGE_SIZE && Wanted(kernelEnd, f) ==>
                             Reached(mm, f)
  }

  lemma FreedIffReached(mm: seq<Region>, f: nat)
    requires f < MAX_FRAMES
    ensures Freed(mm, f) <==> Reached(mm, f)
  {
    hide VisitsPage, Inside, StartWraps, EndWraps;
    if Freed(mm, f) {
      var i: nat, p: nat :| i < |mm| && mm[i].kind == USABLE && VisitsPage(mm[i], p) && Trunc32(p) == f;
      VisitsPerRegion(mm[i], p);
      assert Strays(mm[i], p) || (p == f && Inside(mm[i], f));
    }
    if i: nat :| i < |mm| && mm[i].kind == USABLE && !StartWraps(mm[i]) && !EndWraps(mm[i]) && Inside(mm[i], f) {
      VisitsPerRegion(mm[i], f);
      assert Trunc32(f) == f;
    }
    if i: nat, p: nat :| i < |mm| && mm[i].kind == USABLE && Strays(mm[i], p) && Trunc32(p) == f {
      VisitsPerRegion(mm[i], p);
    }
  }

  /** A frame inside a usable region is reached, unless the region is one that is skipped. */
  lemma UsableReached(mm: seq<Region>, kernelEnd: u64, f: nat)
    requires SkippedReached(mm, kernelEnd) && Wanted(kernelEnd, f) && Usable(mm, f)
    ensures Reached(mm, f)
  {
    hide Reached;
    var i :| 0 <= i < |mm| && mm[i].kind == USABLE && Inside(mm[i], f);
    if !StartWraps(mm[i]) && !EndWraps(mm[i]) {
      ReachedInside(mm, i, f);
    }
  }

  lemma ReachedInside(mm: seq<Region>, i: nat, f: nat)
    requires i < |mm| && mm[i].kind == USABLE && !StartWraps(mm[i]) && !EndWraps(mm[i]) && Inside(mm[i], f)
    ensures Reached(mm, f)
  {
  }

  /** Conversely, what is reached is inside a usable region, unless a loop strayed there. */
  lemma ReachedUsable(mm: seq<Region>, kernelEnd: u64, f: nat)
    requires StraysHarmless(mm, kernelEnd) && Wanted(kernelEnd, f) && Reached(mm, f)
    ensures Usable(mm, f)
  {
    hide Inside, StartWraps, EndWraps, Strays;
  }

  /** All it takes for `Init` to free exactly the frames it should. */
  ghost predicate WrapsHarmless(mm: seq<Region>, kernelEnd: u64) {
    StraysHarmless(mm, kernelEnd) && SkippedReached(mm, kernelEnd)
  }

  /**
   For every memory map, `Init` frees exactly the frames it should if and only if neither 64-bit
   wrap of a region's bounds nor the cut of a page index to 32 bits does harm in this map.
   */
  lemma InitIsExactIff(mm: seq<Region>, kernelEnd: u64)
    ensures (forall f: nat :: f in InitialFree(mm, kernelEnd) <==> ShouldBeFree(mm, kernelEnd, f))
            <==> WrapsHarmless(mm, kernelEnd)
  {
    hide Freed, Reached, Usable, Strays, StartWraps, EndWraps;
    forall f: nat | f < MAX_FRAMES
      ensures Freed(mm, f) <==> Reached(mm, f)
    {
      FreedIffReached(mm, f);
    }
    if WrapsHarmless(mm, kernelEnd) {
      forall f: nat | Wanted(kernelEnd, f)
        ensures Reached(mm, f) <==> Usable(mm, f)
      {
        if Reached(mm, f) {
          ReachedUsable(mm, kernelEnd, f);
        }
        if Usable(mm, f) {
          UsableReached(mm, kernelEnd, f);
        }
      }
    }
    if forall f: nat :: f in InitialFree(mm, kernelEnd) <==> ShouldBeFree(mm, kernelEnd, f) {
      forall f: nat | Wanted(kernelEnd, f)
        ensures Reached(mm, f) <==> Usable(mm, f)
      {
        assert f in InitialFree(mm, kernelEnd) <==> ShouldBeFree(mm, kernelEnd, f);
      }
      ExactIsHarmless(mm, kernelEnd);
    }
  }

  lemma ExactIsHarmless(mm: seq<Region>, kernelEnd: u64)
    requires forall f: nat :: Wanted(kernelEnd, f) ==> (Reached(mm, f) <==> Usable(mm, f))
    ensures WrapsHarmless(mm, kernelEnd)
  {
    hide StartWraps, Strays;
    forall i: nat, p: nat | i < |mm| && mm[i].kind == USABLE && Strays(mm[i], p) && Wanted(kernelEnd, Trunc32(p))
      ensures Usable(mm, Trunc32(p))
    {
      assert Reached(mm, Trunc32(p));
    }
    forall i: nat, f: nat | i < |mm| && mm[i].kind == USABLE && !StartWraps(mm[i]) && EndWraps(mm[i])
                            && mm[i].base <= f * PAGE_SIZE && Wanted(kernelEnd, f)
      ensures Reached(mm, f)
    {
      assert Inside(mm[i], f);
    }
  }

  /** If no usable region wraps, only page indexes above 32 bits can do harm. */
  lemma NoOverflowLeavesAliases(mm: seq<Region>, kernelEnd: u64)
    requires NoOverflow(mm)
    ensures WrapsHarmless(mm, kernelEnd) <==> AliasesHarmless(mm, kernelEnd)
  {
    hide Inside, Reached;
    if AliasesHarmless(mm, kernelEnd) {
      forall i: nat, p: nat | i < |mm| && mm[i].kind == USABLE && Strays(mm[i], p) && Wanted(kernelEnd, Trunc32(p))
        ensures Usable(mm, Trunc32(p))
      {
        assert Usable(mm, p);
      }
    }
    if WrapsHarmless(mm, kernelEnd) {
      forall p: nat | p >= U32 && Usable(mm, p) && Trunc32(p) < MAX_FRAMES && PageUp(kernelEnd) <= Trunc32(p) * PAGE_SIZE
        ensures Usable(mm, Trunc32(p))
      {
        var i :| 0 <= i < |mm| && mm[i].kind == USABLE && Inside(mm[i], p);
        assert Strays(mm[i], p);
      }
    }
  }

  /** A region in the last page: its rounded start wraps to 0, and frames are freed that no region holds. */
  lemma WrappedStartFails(kernelEnd: u64)
    requires kernelEnd <= 0x1000_0000
    ensures var mm := [Region(0xFFFF_FFFF_FFFF_FF00, 0x10, 1)];
            131071 in InitialFree(mm, kernelEnd) && !ShouldBeFree(mm, kernelEnd, 131071)
  {
    var mm, f: nat := [Region(0xFFFF_FFFF_FFFF_FF00, 0x10, 1)], MAX_FRAMES - 1;
    assert VisitsPage(mm[0], f) && Trunc32(f) == f;
    assert Freed(mm, f);
  }

  /** A region that reaches past 2^64: its wrapped end is below its start, and none of its frames is freed. */
  lemma WrappedEndFails(kernelEnd: u64)
    requires kernelEnd <= 0x1000_0000
    ensures var mm := [Region(0x10_0000, 0xFFFF_FFFF_FFFF_F000, 1)];
            InitialFree(mm, kernelEnd) == {} && ShouldBeFree(mm, kernelEnd, 131071)
  {
    var mm, f: nat := [Region(0x10_0000, 0xFFFF_FFFF_FFFF_F000, 1)], MAX_FRAMES - 1;
    assert Inside(mm[0], f);
    forall p: nat
      ensures !VisitsPage(mm[0], p)
    {
      VisitsPerRegion(mm[0], p);
    }
  }

  /** Below 2^44 the free set is exactly right and lies inside the range the allocator searches. */
  lemma InitBelow2To44(mm: seq<Region>, kernelEnd: u64)
    requires EndsBelow2To44(mm)
    ensures forall f: nat :: f in InitialFree(mm, kernelEnd) <==> ShouldBeFree(mm, kernelEnd, f)
    ensures forall f :: f in InitialFree(mm, kernelEnd) ==> f < TotalFrames(mm)
  {
    forall p: nat | Usable(mm, p)
      ensures p < U32
    {
    }
    InitIsExactIff(mm, kernelEnd);
    NoOverflowLeavesAliases(mm, kernelEnd);
    TopIsMaximum(mm);
    forall f | f in InitialFree(mm, kernelEnd)
      ensures f < TotalFrames(mm)
    {
      var i :| 0 <= i < |mm| && mm[i].kind == USABLE && Inside(mm[i], f);
      assert End(mm[i]) == mm[i].base + mm[i].length <= Top(mm);
      assert (f + 1) * PAGE_SIZE <= Top(mm);
      assert Top(mm) / PAGE_SIZE < U32;
    }
  }

  /** The first frame index the allocator never looks at, or the kernel's end if that is higher. */
  function SearchEnd(mm: seq<Region>, kernelEnd: u64): nat {
    var total, kernel := Trunc32(Top(mm) / PAGE_SIZE), PageUp(kernelEnd) / PAGE_SIZE;
    if total < kernel then kernel else total
  }

  /** From page `p` on, the first one whose 32-bit index is a frame from `lo` on. */
  function FirstHit(p: nat, lo: nat): (q: nat)
    requires lo < MAX_FRAMES
    ensures p <= q && lo <= Trunc32(q) < MAX_FRAMES
  {
    var t := Trunc32(p);
    if t < lo then p - t + lo else if t < MAX_FRAMES then p else p - t + U32 + lo
  }

  lemma NoHitBefore(p: nat, lo: nat, q: nat)
    requires lo < MAX_FRAMES && p <= q < FirstHit(p, lo)
    ensures !(lo <= Trunc32(q) < MAX_FRAMES)
  {
    var base := p - Trunc32(p);
    assert base % U32 == 0;
    if q < base + U32 {
      assert Trunc32(q) == q - base;
    } else {
      assert Trunc32(q) == q - base - U32;
    }
  }

  /** The freeing loop over `r` stops before it would clear a frame from `lo` on. */
  predicate StopsShort(r: Region, lo: nat) {
    lo >= MAX_FRAMES || FirstHit(PageUp(r.base) / PAGE_SIZE, lo) * PAGE_SIZE >= PageDown(End(r))
  }

  lemma StopsShortIff(r: Region, lo: nat)
    ensures StopsShort(r, lo) <==> forall p: nat :: VisitsPage(r, p) ==> !(lo <= Trunc32(p) < MAX_FRAMES)
  {
    hide FirstHit;
    if lo < MAX_FRAMES {
      var first := PageUp(r.base) / PAGE_SIZE;
      var hit := FirstHit(first, lo);
      if hit * PAGE_SIZE < PageDown(End(r)) {
        assert VisitsPage(r, hit);
      } else {
        forall p: nat | VisitsPage(r, p)
          ensures !(lo <= Trunc32(p) < MAX_FRAMES)
        {
          NoHitBefore(first, lo, p);
        }
      }
    }
  }

  lemma VisitedBelowTop(mm: seq<Region>, i: nat, p: nat)
    requires i < |mm| && mm[i].kind == USABLE && VisitsPage(mm[i], p)
    ensures p < Top(mm) / PAGE_SIZE
  {
    TopIsMaximum(mm);
  }

  /**
   The allocator searches every free frame if and only if each usable region ends before the
   first of its pages whose index truncates past the search -- as is so for every map whose
   highest end is below 2^44.
   */
  lemma FreeBelowTotalIff(mm: seq<Region>, kernelEnd: u64)
    ensures (forall f :: f in InitialFree(mm, kernelEnd) ==> f < TotalFrames(mm)) <==>
            forall r :: r in mm && r.kind == USABLE ==> StopsShort(r, SearchEnd(mm, kernelEnd))
    ensures Top(mm) < 0x1000_0000_0000 ==> forall f :: f in InitialFree(mm, kernelEnd) ==> f < TotalFrames(mm)
  {
    hide StopsShort, VisitsPage, Top, PageUp;
    var lo := SearchEnd(mm, kernelEnd);
    forall r | r in mm && r.kind == USABLE && !StopsShort(r, lo)
      ensures exists f: nat :: f in InitialFree(mm, kernelEnd) && f >= TotalFrames(mm)
    {
      StopsShortIff(r, lo);
      var p: nat :| VisitsPage(r, p) && lo <= Trunc32(p) < MAX_FRAMES;
      var i :| 0 <= i < |mm| && mm[i] == r;
      assert Freed(mm, Trunc32(p));
      assert Trunc32(p) in InitialFree(mm, kernelEnd);
    }
    forall f | f in InitialFree(mm, kernelEnd) && f >= TotalFrames(mm)
      ensures Top(mm) >= 0x1000_0000_0000 && exists r :: r in mm && r.kind == USABLE && !StopsShort(r, lo)
    {
      var i: nat, p: nat :| i < |mm| && mm[i].kind == USABLE && VisitsPage(mm[i], p) && Trunc32(p) == f;
      StopsShortIff(mm[i], lo);
      VisitedBelowTop(mm, i, p);
      assert mm[i] in mm;
    }
  }

  /** The bound is sharp: with a region ending at 2^44 frames are free and none can be allocated. */
  lemma EndAt2To44Fails(kernelEnd: u64)
    requires 0 < kernelEnd <= 0x1000_0000
    ensures var mm := [Region(0, 0x1000_0000_0000, 1)];
            TotalFrames(mm) == 0 && 131071 in InitialFree(mm, kernelEnd)
  {
    var mm := [Region(0, 0x1000_0000_0000, 1)];
    assert mm[..|mm| - 1] == [];
    assert Top(mm) == 0x1000_0000_0000;
    var f: nat := MAX_FRAMES - 1;
    VisitsPerRegion(mm[0], f);
    assert Trunc32(f) == f;
    assert Freed(mm, f);
  }

  /* Runs of the allocator. */

  datatype Block = Block(start: nat, n: nat) {
    function Frames(): set<nat> {
      Pmm.Frames(start, n)
    }
  }

  /** A request for frames, or the release of the `i`-th live block. */
  datatype Op = Alloc(n: u32) | Release(i: nat)

  datatype State = State(free: set<nat>, live: seq<Block>)

  ghost predicate Step(total: nat, s: State, op: Op, s': State) {
    match op
    case Alloc(n) =>
      exists addr: nat :: Allocates(s.free, total, n, addr, s'.free)
        && s'.live == if addr == 0 then s.live else s.live + [Block(addr / PAGE_SIZE, n)]
    case Release(i) =>
      && i < |s.live|
      && s.live[i].start * PAGE_SIZE < U64 && s.live[i].n < U32
      && s'.free == s.free + Released(s.live[i].start * PAGE_SIZE, s.live[i].n)
      && s'.live == s.live[..i] + s.live[i + 1..]
  }

  ghost predicate Run(total: nat, states: seq<State>, ops: seq<Op>) {
    && |states| == |ops| + 1
    && forall i :: 0 <= i < |ops| ==> Step(total, states[i], ops[i], states[i + 1])
  }

  ghost function Owned(live: seq<Block>): set<nat> {
    if live == [] then {} else Owned(live[..|live| - 1]) + live[|live| - 1].Frames()
  }

  /** Free frames and live blocks partition `initial`. */
  ghost predicate Partition(initial: set<nat>, s: State) {
    && s.free + Owned(s.live) == initial
    && s.free !! Owned(s.live)
    && PairwiseDisjoint(s.live)
    && forall b :: b in s.live ==> b.Frames() <= initial
  }

  lemma {:induction false} OwnedIs(live: seq<Block>)
    ensures forall f :: f in Owned(live) <==> exists i :: 0 <= i < |live| && f in live[i].Frames()
  {
    if live == [] {
    } else {
      var rest := live[..|live| - 1];
      OwnedIs(rest);
      assert forall i :: 0 <= i < |rest| ==> rest[i] == live[i];
    }
  }

  /** With frame 0 taken, 0 means "no window" and nothing else. */
  lemma ZeroMeansNoWindow(free: set<nat>, total: nat, n: nat, addr: nat, free': set<nat>)
    requires 0 !in free && n > 0 && Allocates(free, total, n, addr, free')
    ensures addr == 0 <==> !Fits(free, total, n)
    ensures addr == 0 ==> free' == free
    ensures addr % PAGE_SIZE == 0
    ensures addr != 0 ==> Frames(addr / PAGE_SIZE, n) <= free && free' == free - Frames(addr / PAGE_SIZE, n)
  {
  }

  /** Frames `s` to `s + n`, spelled out: below the total and all of them free. */
  ghost predicate AllFree(free: set<nat>, total: nat, s: nat, n: nat) {
    s + n <= total && forall f :: s <= f < s + n ==> f in free
  }

  lemma WindowIs(free: set<nat>, total: nat, s: nat, n: nat)
    ensures Window(free, total, s, n) <==> AllFree(free, total, s, n)
  {
    if AllFree(free, total, s, n) {
      assert forall f: nat :: f in Frames(s, n) ==> f in free;
    }
    if Window(free, total, s, n) {
      assert forall f: nat :: s <= f < s + n ==> f in Frames(s, n);
    }
  }

  /** First fit spelled out: the least page from which `n` frames below the total are free; no other frame is taken. */
  lemma AllocIsFirstFit(free: set<nat>, total: nat, n: nat, addr: nat, free': set<nat>)
    requires 0 !in free && n > 0 && Allocates(free, total, n, addr, free')
    ensures addr == 0 ==> free' == free && forall s: nat :: !AllFree(free, total, s, n)
    ensures addr != 0 ==>
      var k := addr / 4096;
      && addr == 4096 * k && AllFree(free, total, k, n) && (forall s: nat :: s < k ==> !AllFree(free, total, s, n))
      && forall f: nat :: f in free' <==> f in free && !(k <= f < k + n)
  {
    hide Window, AllFree, Frames;
    forall s: nat
      ensures Window(free, total, s, n) <==> AllFree(free, total, s, n)
    {
      WindowIs(free, total, s, n);
    }
    NotFromZero(free, total, n);
  }

  lemma NotFromZero(free: set<nat>, total: nat, n: nat)
    requires 0 !in free && n > 0
    ensures !Window(free, total, 0, n)
  {
    assert 0 in Frames(0, n);
  }

  /** A release clears the frames asked for, below 512 MB; one whose end passes 2^32 clears none. */
  lemma ReleasedIs(addr: u64, n: u32, f: nat)
    ensures var start := addr / 4096 % 0x1_0000_0000;
            f in Released(addr, n) <==> start + n < 0x1_0000_0000 && start <= f < start + n && f < 131072
  {
  }

  lemma ReleasedIsBlock(b: Block)
    requires b.start + b.n <= MAX_FRAMES
    ensures Released(b.start * PAGE_SIZE, b.n) == b.Frames()
  {
  }

  lemma StepKeepsPartition(initial: set<nat>, total: nat, s: State, op: Op, s': State)
    requires 0 !in initial && (forall f :: f in initial ==> f < MAX_FRAMES)
    requires Partition(initial, s) && Step(total, s, op, s')
    ensures Partition(initial, s')
  {
    OwnedIs(s.live);
    OwnedIs(s'.live);
    match op
    case Alloc(n) =>
      var addr: nat :| Allocates(s.free, total, n, addr, s'.free)
                       && s'.live == if addr == 0 then s.live else s.live + [Block(addr / PAGE_SIZE, n)];
      if n > 0 {
        ZeroMeansNoWindow(s.free, total, n, addr, s'.free);
        if addr != 0 {
          assert s'.live[..|s'.live| - 1] == s.live;
        }
      }
    case Release(i) =>
      BlockInRange(initial, s.live[i]);
      ReleaseKeepsPartition(initial, s, i, s');
  }

  lemma BlockInRange(initial: set<nat>, b: Block)
    requires forall f :: f in initial ==> f < MAX_FRAMES
    requires b.Frames() <= initial
    ensures b.n > 0 ==> b.start + b.n <= MAX_FRAMES
  {
    if b.n > 0 {
      assert b.start + b.n - 1 in b.Frames();
    }
  }

  lemma ReleaseKeepsPartition(initial: set<nat>, s: State, i: nat, s': State)
    requires (forall f :: f in initial ==> f < MAX_FRAMES)
    requires Partition(initial, s) && i < |s.live| && Step(0, s, Release(i), s')
    ensures Partition(initial, s')
  {
    var b := s.live[i];
    BlockInRange(initial, b);
    if b.n > 0 {
      ReleasedIsBlock(b);
    }
    assert Released(b.start * PAGE_SIZE, b.n) == b.Frames();
    OwnedWithout(s.live, i);
    WithoutKeepsPairs(s.live, i);
  }

  lemma OwnedWithout(live: seq<Block>, i: nat)
    requires i < |live|
    ensures Owned(live) == Owned(live[..i] + live[i + 1..]) + live[i].Frames()
  {
    hide Owned, Block.Frames;
    var rest := live[..i] + live[i + 1..];
    OwnedIs(live);
    OwnedIs(rest);
    forall f | f in Owned(live)
      ensures f in Owned(rest) || f in live[i].Frames()
    {
      var j :| 0 <= j < |live| && f in live[j].Frames();
      if j < i {
        assert rest[j] == live[j];
      } else if j > i {
        assert rest[j - 1] == live[j];
      }
    }
    forall f | f in Owned(rest)
      ensures f in Owned(live)
    {
      var j :| 0 <= j < |rest| && f in rest[j].Frames();
      assert rest[j] == if j < i then live[j] else live[j + 1];
    }
  }

  ghost predicate PairwiseDisjoint(live: seq<Block>) {
    forall i, j :: 0 <= i < j < |live| ==> live[i].Frames() !! live[j].Frames()
  }

  lemma WithoutKeepsPairs(live: seq<Block>, i: nat)
    requires i < |live| && PairwiseDisjoint(live)
    ensures PairwiseDisjoint(live[..i] + live[i + 1..])
    ensures Owned(live[..i] + live[i + 1..]) !! live[i].Frames()
    ensures forall b :: b in live[..i] + live[i + 1..] ==> b in live
  {
    var rest := live[..i] + live[i + 1..];
    OwnedIs(rest);
    assert forall j :: 0 <= j < |rest| ==> rest[j] == live[if j < i then j else j + 1];
  }

  /**
   Every run of allocations and releases of whole live blocks keeps the live blocks disjoint,
   and the free frames together with the live blocks are always the frames free at the start.
   */
  lemma {:induction false} RunKeepsPartition(initial: set<nat>, total: nat, states: seq<State>, ops: seq<Op>)
    requires 0 !in initial && (forall f :: f in initial ==> f < MAX_FRAMES)
    requires Run(total, states, ops) && states[0] == State(initial, [])
    ensures forall i :: 0 <= i < |states| ==> Partition(initial, states[i])
    decreases |ops|
  {
    if ops == [] {
    } else {
      var k := |ops| - 1;
      RunKeepsPartition(initial, total, states[..k + 1], ops[..k]);
      assert states[k] == states[..k + 1][k];
      StepKeepsPartition(initial, total, states[k], ops[k], states[k + 1]);
      forall i | 0 <= i < |states|
        ensures Partition(initial, states[i])
      {
        if i <= k {
          assert states[..k + 1][i] == states[i];
        }
      }
    }
  }

  /** After `Init`, no run hands out frame 0 or a frame below the kernel's end. */
  lemma RunSparesKernel(mm: seq<Region>, kernelEnd: u64, states: seq<State>, ops: seq<Op>)
    requires 0 < PageUp(kernelEnd)
    requires Run(TotalFrames(mm), states, ops) && states[0] == State(InitialFree(mm, kernelEnd), [])
    ensures forall i, j, f :: 0 <= i < |states| && 0 <= j < |states[i].live|
                              && f in states[i].live[j].Frames() ==>
                              f > 0 && PageUp(kernelEnd) <= f * PAGE_SIZE && Freed(mm, f)
  {
    var initial := InitialFree(mm, kernelEnd);
    RunKeepsPartition(initial, TotalFrames(mm), states, ops);
    forall i, j, f | 0 <= i < |states| && 0 <= j < |states[i].live| && f in states[i].live[j].Frames()
      ensures f in initial
    {
      assert Partition(initial, states[i]);
    }
  }
}
