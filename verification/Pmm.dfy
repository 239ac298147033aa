/**
 The physical memory manager: a bitmap with one bit per 4 KB frame, a set bit meaning
 "used", built from the firmware memory map and searched first-fit.

 The specification talks about the set of free frame numbers the bitmap denotes.
 */
module Pmm {
  import opened Machine

  /** 512 MB of frames. */
  const MAX_FRAMES: nat := 131072

  const USABLE: u32 := 1

  datatype Region = Region(base: u64, length: u64, kind: u32)

  /* Bits. */

  /** `1u << k` */
  function Mask(k: nat): bv8
    requires k < 8
  {
    (1 as bv8) << k
  }

  predicate BitFree(b: bv8, k: nat)
    requires k < 8
  {
    b & Mask(k) == 0
  }

  /** Setting or clearing bit `k` decides bit `k` and leaves every other bit alone. */
  lemma SetBit(b: bv8, k: nat, j: nat)
    requires k < 8 && j < 8
    ensures BitFree(b | Mask(k), j) <==> j != k && BitFree(b, j)
  {
  }

  lemma ClearBit(b: bv8, k: nat, j: nat)
    requires k < 8 && j < 8
    ensures BitFree(b & !Mask(k), j) <==> j == k || BitFree(b, j)
  {
  }

  lemma AllUsed(k: nat)
    requires k < 8
    ensures !BitFree(0xFF, k)
  {
  }

  /** Frame `f`'s bit is clear. */
  ghost predicate FrameFree(bm: seq<bv8>, f: nat)
    requires f / 8 < |bm|
  {
    BitFree(bm[f / 8], f % 8)
  }

  ghost function FreeFrames(bm: seq<bv8>): (fs: set<nat>)
    requires |bm| == MAX_FRAMES / 8
    ensures forall f: nat :: f in fs <==> f < MAX_FRAMES && FrameFree(bm, f)
  {
    set f: nat | f < MAX_FRAMES && FrameFree(bm, f)
  }

  /* What the memory map says is free. */

  /** `base + length`, in 64-bit arithmetic. */
  function End(r: Region): u64 {
    Add64(r.base, r.length)
  }

  /** Page `p` is visited by the freeing loop over region `r`. */
  predicate VisitsPage(r: Region, p: nat) {
    PageUp(r.base) <= p * PAGE_SIZE < PageDown(End(r))
  }

  /** A page of region `r` below address `a` truncates to frame `f`. */
  ghost predicate FreedBelow(r: Region, a: nat, f: nat) {
    exists p: nat :: VisitsPage(r, p) && p * PAGE_SIZE < a && Trunc32(p) == f
  }

  lemma NoneFreedYet(r: Region)
    ensures forall f: nat :: !FreedBelow(r, PageUp(r.base), f)
  {
  }

  lemma FreedNext(r: Region, a: u64)
    requires a % PAGE_SIZE == 0 && PageUp(r.base) <= a < PageDown(End(r))
    ensures forall f: nat :: FreedBelow(r, a + PAGE_SIZE, f) <==> FreedBelow(r, a, f) || f == Trunc32(a / PAGE_SIZE)
  {
    var page := a / PAGE_SIZE;
    assert VisitsPage(r, page) && page * PAGE_SIZE == a;
    forall f: nat
      ensures FreedBelow(r, a + PAGE_SIZE, f) <==> FreedBelow(r, a, f) || f == Trunc32(page)
    {
      if FreedBelow(r, a + PAGE_SIZE, f) {
        var p: nat :| VisitsPage(r, p) && p * PAGE_SIZE < a + PAGE_SIZE && Trunc32(p) == f;
        assert p == page || p * PAGE_SIZE < a;
      }
      if f == Trunc32(page) {
        assert page * PAGE_SIZE < a + PAGE_SIZE;
      }
      if FreedBelow(r, a, f) {
        var p: nat :| VisitsPage(r, p) && p * PAGE_SIZE < a && Trunc32(p) == f;
        assert p * PAGE_SIZE < a + PAGE_SIZE;
      }
    }
  }

  lemma NextPage(a: nat, end: nat)
    requires a % PAGE_SIZE == 0 && end % PAGE_SIZE == 0 && a < end
    ensures (a + PAGE_SIZE) % PAGE_SIZE == 0 && a + PAGE_SIZE <= end
  {
  }

  lemma AllFreed(r: Region, a: nat)
    requires a >= PageDown(End(r))
    ensures forall f: nat :: FreedBelow(r, a, f) <==> exists p: nat :: VisitsPage(r, p) && Trunc32(p) == f
  {
  }

  /** Some usable region's loop visits a page whose index truncates to frame `f`. */
  ghost predicate Freed(mm: seq<Region>, f: nat) {
    exists i: nat, p: nat :: i < |mm| && mm[i].kind == USABLE && VisitsPage(mm[i], p) && Trunc32(p) == f
  }

  /** The free frames after `Init`. */
  ghost function InitialFree(mm: seq<Region>, kernelEnd: u64): (fs: set<nat>)
    ensures forall f: nat :: f in fs <==> f < MAX_FRAMES && Freed(mm, f) && PageUp(kernelEnd) <= f * PAGE_SIZE
  {
    set f: nat | f < MAX_FRAMES && Freed(mm, f) && PageUp(kernelEnd) <= f * PAGE_SIZE
  }

  /** The highest end of a usable region, 0 if there is none. */
  function Top(mm: seq<Region>): u64
  {
    if mm == [] then 0
    else
      var rest := Top(mm[..|mm| - 1]);
      var r := mm[|mm| - 1];
      if r.kind == USABLE && End(r) > rest then End(r) else rest
  }

  lemma {:induction false} TopIsMaximum(mm: seq<Region>)
    ensures forall i :: 0 <= i < |mm| && mm[i].kind == USABLE ==> End(mm[i]) <= Top(mm)
    ensures Top(mm) == 0 || exists i :: 0 <= i < |mm| && mm[i].kind == USABLE && End(mm[i]) == Top(mm)
  {
    if mm == [] {
    } else {
      TopIsMaximum(mm[..|mm| - 1]);
    }
  }

  lemma TopPrefix(mm: seq<Region>, i: nat)
    requires i < |mm|
    ensures Top(mm[..i + 1]) == if mm[i].kind == USABLE && End(mm[i]) > Top(mm[..i]) then End(mm[i]) else Top(mm[..i])
  {
    var after := mm[..i + 1];
    assert after[..|after| - 1] == mm[..i] && after[|after| - 1] == mm[i];
  }

  function TotalFrames(mm: seq<Region>): nat {
    Min(Trunc32(Top(mm) / PAGE_SIZE), MAX_FRAMES)
  }

  /* Windows of free frames. */

  predicate Within(start: nat, n: nat, f: nat) {
    start <= f < start + n
  }

  function Frames(start: nat, n: nat): (fs: set<nat>)
    ensures forall f: nat :: f in fs <==> start <= f < start + n
  {
    set f: nat | f < start + n && Within(start, n, f)
  }

  ghost predicate Window(free: set<nat>, total: nat, start: nat, n: nat) {
    start + n <= total && Frames(start, n) <= free
  }

  /** `start` is the least start of a window of `n` free frames below `total`. */
  ghost predicate FirstFit(free: set<nat>, total: nat, n: nat, start: nat) {
    && Window(free, total, start, n)
    && forall s: nat :: s < start ==> !Window(free, total, s, n)
  }

  ghost predicate Fits(free: set<nat>, total: nat, n: nat) {
    exists s: nat :: Window(free, total, s, n)
  }

  /**
   What a request for `n` frames answers and leaves free: the first window if there is one,
   else 0 and no change. A request for no frames is refused.
   */
  ghost predicate Allocates(free: set<nat>, total: nat, n: nat, addr: nat, free': set<nat>) {
    if n > 0 && Fits(free, total, n) then
      exists start: nat ::
        addr == start * PAGE_SIZE && FirstFit(free, total, n, start) && free' == free - Frames(start, n)
    else
      addr == 0 && free' == free
  }

  /** The frames `FreePages` clears: the loop bound `start + n` is a 32-bit sum. */
  ghost function Released(addr: u64, n: u32): (fs: set<nat>)
    ensures forall f: nat :: f in fs <==>
      Trunc32(addr / PAGE_SIZE) <= f < Add32(Trunc32(addr / PAGE_SIZE), n) && f < MAX_FRAMES
  {
    var start := Trunc32(addr / PAGE_SIZE);
    var end := Min(Add32(start, n), MAX_FRAMES);
    if start < end then Frames(start, end - start) else {}
  }

  class FrameMap {
    const bitmap: array<bv8>
    var totalFrames: nat

    ghost predicate Valid()
      reads this
    {
      bitmap.Length == MAX_FRAMES / 8 && totalFrames <= MAX_FRAMES
    }

    ghost function Free(): set<nat>
      requires Valid()
      reads this, bitmap
    {
      FreeFrames(bitmap[..])
    }

    constructor ()
      ensures Valid() && fresh(bitmap)
    {
      bitmap := new bv8[MAX_FRAMES / 8];
      totalFrames := 0;
    }

    method SetUsed(f: nat)
      requires Valid() && f < MAX_FRAMES
      modifies bitmap
      ensures Free() == old(Free()) - {f}
    {
      bitmap[f / 8] := bitmap[f / 8] | Mask(f % 8);
      forall g: nat | g < MAX_FRAMES
        ensures g in Free() <==> g in old(Free()) - {f}
      {
        assert g == f <==> g / 8 == f / 8 && g % 8 == f % 8;
        if g / 8 == f / 8 {
          SetBit(old(bitmap[f / 8]), f % 8, g % 8);
        }
      }
    }

    method SetFree(f: nat)
      requires Valid() && f < MAX_FRAMES
      modifies bitmap
      ensures Free() == old(Free()) + {f}
    {
      bitmap[f / 8] := bitmap[f / 8] & !Mask(f % 8);
      forall g: nat | g < MAX_FRAMES
        ensures g in Free() <==> g in old(Free()) + {f}
      {
        assert g == f <==> g / 8 == f / 8 && g % 8 == f % 8;
        if g / 8 == f / 8 {
          ClearBit(old(bitmap[f / 8]), f % 8, g % 8);
        }
      }
    }

    method IsFree(f: nat) returns (free: bool)
      requires Valid() && f < MAX_FRAMES
      ensures free <==> f in Free()
    {
      free := bitmap[f / 8] & Mask(f % 8) == 0;
    }

    /** Every bit set. */
    method FillUsed()
      requires Valid()
      modifies bitmap
      ensures Free() == {}
    {
      for i := 0 to MAX_FRAMES / 8
        invariant forall j :: 0 <= j < i ==> bitmap[j] == 0xFF
      {
        bitmap[i] := 0xFF;
      }
      forall f: nat | f < MAX_FRAMES
        ensures f !in Free()
      {
        AllUsed(f % 8);
      }
    }

    /** Clears the bit of every whole page of one region, with the frame index cut to 32 bits. */
    method FreeRegion(r: Region)
      requires Valid()
      modifies bitmap
      ensures forall f: nat ::
        f in Free() <==> f in old(Free()) || (f < MAX_FRAMES && exists p: nat :: VisitsPage(r, p) && Trunc32(p) == f)
    {
      hide FreedBelow, VisitsPage, Trunc32, PageUp, PageDown, End, Add64;
      var start := PageUp(r.base);
      var end := PageDown(End(r));
      var a := start;
      NoneFreedYet(r);
      while a < end
        invariant a % PAGE_SIZE == 0 && start <= a && (start <= end ==> a <= end)
        invariant forall f: nat :: f in Free() <==> f in old(Free()) || (f < MAX_FRAMES && FreedBelow(r, a, f))
      {
        ghost var before := Free();
        FreedNext(r, a);
        NextPage(a, end);
        var f := Trunc32(a / PAGE_SIZE);
        if f < MAX_FRAMES {
          SetFree(f);
        }
        assert forall g: nat :: g in Free() <==> g in before || (g == f && g < MAX_FRAMES);
        a := a + PAGE_SIZE;
      }
      AllFreed(r, a);
    }

    /** Re-marks [0, kernelEnd) used. */
    method Reserve(kernelEnd: u64)
      requires Valid()
      modifies bitmap
      ensures forall f: nat :: f in Free() <==> f in old(Free()) && PageUp(kernelEnd) <= f * PAGE_SIZE
    {
      var kend := PageUp(kernelEnd);
      var a := 0;
      while a < kend
        invariant a % PAGE_SIZE == 0 && 0 <= a <= kend
        invariant forall f: nat :: f in Free() <==> f in old(Free()) && a <= f * PAGE_SIZE
      {
        ghost var page := a / PAGE_SIZE;
        ghost var before := Free();
        var f := Trunc32(a / PAGE_SIZE);
        assert a == page * PAGE_SIZE && f <= page && (page < U32 ==> f == page);
        if f < MAX_FRAMES {
          SetUsed(f);
        }
        assert Free() == before - {page};
        a := a + PAGE_SIZE;
        assert forall g: nat :: g != page && a - PAGE_SIZE <= g * PAGE_SIZE ==> a <= g * PAGE_SIZE;
      }
    }

    static method HighestEnd(mm: seq<Region>) returns (top: u64)
      ensures top == Top(mm)
    {
      top := 0;
      for i := 0 to |mm|
        invariant top == Top(mm[..i])
      {
        TopPrefix(mm, i);
        if mm[i].kind == USABLE {
          var end := Add64(mm[i].base, mm[i].length);
          if end > top {
            top := end;
          }
        }
      }
      assert mm[..|mm|] == mm;
    }

    method Init(mm: seq<Region>, kernelEnd: u64)
      requires Valid()
      modifies this, bitmap
      ensures Valid() && totalFrames == TotalFrames(mm)
      ensures Free() == InitialFree(mm, kernelEnd)
    {
      FillUsed();
      var top := HighestEnd(mm);
      totalFrames := Trunc32(top / PAGE_SIZE);
      if totalFrames > MAX_FRAMES {
        totalFrames := MAX_FRAMES;
      }
      for i := 0 to |mm|
        invariant Valid() && totalFrames == TotalFrames(mm)
        invariant forall f: nat :: f in Free() <==> f < MAX_FRAMES && Freed(mm[..i], f)
      {
        if mm[i].kind == USABLE {
          FreeRegion(mm[i]);
        }
        FreedPrefix(mm, i);
      }
      Reserve(kernelEnd);
    }

    /** One pass over the frames, keeping the start and length of the current run. */
    method AllocPages(n: u32) returns (addr: u64)
      requires Valid()
      modifies bitmap
      ensures Allocates(old(Free()), totalFrames, n, addr, Free())
      ensures n == 0 || !Fits(old(Free()), totalFrames, n) ==> bitmap[..] == old(bitmap[..])
    {
      var run, start: nat := 0, 0;
      ghost var free := Free();
      var f := 0;
      while f < totalFrames
        invariant bitmap[..] == old(bitmap[..])
        invariant 0 <= run <= f <= totalFrames
        invariant run > 0 ==> start == f - run
        invariant n > 0 ==> Scanned(free, totalFrames, n, f, run)
      {
        var isFree := IsFree(f);
        if isFree {
          if run == 0 {
            start := f;
          }
          run := run + 1;
          if run == n {
            FoundIsFirst(free, totalFrames, n, f, run - 1);
            MarkUsed(start, n);
            return start * PAGE_SIZE;
          }
          if n > 0 {
            ScanFree(free, totalFrames, n, f, run - 1);
          }
        } else {
          run := 0;
          if n > 0 {
            ScanUsed(free, totalFrames, n, f);
          }
        }
        f := f + 1;
      }
      return 0;
    }

    method MarkUsed(start: nat, n: nat)
      requires Valid() && start + n <= MAX_FRAMES
      modifies bitmap
      ensures Free() == old(Free()) - Frames(start, n)
    {
      for i := start to start + n
        invariant Free() == old(Free()) - Frames(start, i - start)
      {
        SetUsed(i);
      }
    }

    method FreePages(addr: u64, n: u32)
      requires Valid()
      modifies bitmap
      ensures Free() == old(Free()) + Released(addr, n)
    {
      var start := Trunc32(addr / PAGE_SIZE);
      var end := Add32(start, n);
      var i := start;
      while i < end
        invariant start <= i && (i > start ==> i <= end && i <= MAX_FRAMES)
        invariant Free() == old(Free()) + Frames(start, i - start)
      {
        if i >= MAX_FRAMES {
          break;
        }
        SetFree(i);
        i := i + 1;
      }
    }
  }

  /** What the first `i + 1` regions free is what the first `i` free and what region `i` adds. */
  lemma FreedPrefix(mm: seq<Region>, i: nat)
    requires i < |mm|
    ensures forall f: nat :: Freed(mm[..i + 1], f) <==>
      Freed(mm[..i], f) || (mm[i].kind == USABLE && exists p: nat :: VisitsPage(mm[i], p) && Trunc32(p) == f)
  {
  }

  /* The one-pass search. */

  /**
   After looking at frames below `f`: the last `run` of them are free, the one before them
   is used, and no window of `n` frames ends at or before `f`.
   */
  ghost predicate Scanned(free: set<nat>, total: nat, n: nat, f: nat, run: nat) {
    && run < n && run <= f <= total
    && Frames(f - run, run) <= free
    && (run < f ==> f - run - 1 !in free)
    && forall s: nat :: s + n <= f ==> !Window(free, total, s, n)
  }

  lemma ScanUsed(free: set<nat>, total: nat, n: nat, f: nat)
    requires 0 < n && f < total && f !in free
    requires forall s: nat :: s + n <= f ==> !Window(free, total, s, n)
    ensures Scanned(free, total, n, f + 1, 0)
  {
  }

  lemma ScanFree(free: set<nat>, total: nat, n: nat, f: nat, run: nat)
    requires Scanned(free, total, n, f, run) && f < total && f in free && run + 1 < n
    ensures Scanned(free, total, n, f + 1, run + 1)
  {
  }

  lemma FoundIsFirst(free: set<nat>, total: nat, n: nat, f: nat, run: nat)
    requires Scanned(free, total, n, f, run) && f < total && f in free && run + 1 == n
    ensures FirstFit(free, total, n, f - run) && Fits(free, total, n)
  {
  }
}
