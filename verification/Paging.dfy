/**
 The boot page tables, and the address translation the processor makes of them: 4-level
 paging as the Intel 64 manual describes it (volume 3A, section 4.5). Memory is an array of
 32-bit words, the unit the 32-bit boot code stores.
 */
module Paging {
  import opened Machine
  import Elf

  const TABLE_BYTES: nat := 4096
  const TABLE_ENTRIES: nat := 512
  const HUGE_PAGE: nat := 0x20_0000
  const HUGE_PAGES: nat := 64

  /** present and writable; with the bit that makes a directory entry a 2 MB page */
  const PRESENT_WRITABLE: nat := 3
  const PRESENT_WRITABLE_HUGE: nat := 0x83

  datatype Mapping = Mapping(address: nat, writable: bool)

  /** `a | 3` */
  function Or3(a: nat): (r: nat)
    ensures a % 4 == 0 ==> r == a + 3
  {
    a - a % 4 + 3
  }

  /** The 8-byte entry at `a`; nothing is there beyond the end of memory. */
  function Entry64(m: seq<u32>, a: nat): nat {
    if a / 4 + 1 < |m| then m[a / 4] + U32 * m[a / 4 + 1] else 0
  }

  predicate Present(e: nat) { e % 2 == 1 }

  predicate Writable(e: nat) { e / 2 % 2 == 1 }

  predicate Huge(e: nat) { e / 0x80 % 2 == 1 }

  /** The 4 KB-aligned address in bits 51 to 12. */
  function Target(e: nat): nat {
    e / 0x1000 % 0x100_0000_0000 * 0x1000
  }

  /** The translation of a 48-bit linear address with `pml4` in CR3. */
  function Translate(m: seq<u32>, pml4: nat, va: nat): Option<Mapping> {
    var e4 := Entry64(m, pml4 + 8 * (va / 0x80_0000_0000 % TABLE_ENTRIES));
    if !Present(e4) then None
    else
      var e3 := Entry64(m, Target(e4) + 8 * (va / 0x4000_0000 % TABLE_ENTRIES));
      if !Present(e3) then None
      else if Huge(e3) then
        Some(Mapping(e3 / 0x4000_0000 % 0x40_0000 * 0x4000_0000 + va % 0x4000_0000, Writable(e4) && Writable(e3)))
      else
        var e2 := Entry64(m, Target(e3) + 8 * (va / HUGE_PAGE % TABLE_ENTRIES));
        if !Present(e2) then None
        else if Huge(e2) then
          Some(Mapping(e2 / HUGE_PAGE % 0x8000_0000 * HUGE_PAGE + va % HUGE_PAGE,
                       Writable(e4) && Writable(e3) && Writable(e2)))
        else
          var e1 := Entry64(m, Target(e2) + 8 * (va / 0x1000 % TABLE_ENTRIES));
          if !Present(e1) then None
          else Some(Mapping(Target(e1) + va % 0x1000, Writable(e4) && Writable(e3) && Writable(e2) && Writable(e1)))
  }

  /** Table `t` lies in memory and is page-aligned. */
  predicate TableIn(words: nat, t: nat) {
    t % TABLE_BYTES == 0 && t + TABLE_BYTES <= 4 * words && t + TABLE_BYTES <= U32
  }

  /** Tables on different pages. */
  predicate Placed(words: nat, pml4: nat, pdpt: nat, pd: nat) {
    && TableIn(words, pml4) && TableIn(words, pdpt) && TableIn(words, pd)
    && pml4 != pdpt && pml4 != pd && pdpt != pd
  }

  predicate Zeroed(m: seq<u32>, t: nat)
    requires TableIn(|m|, t)
  {
    forall w :: t / 4 <= w < t / 4 + 1024 ==> m[w] == 0
  }

  /** The first entry of two tables, and the first 64 of the third, are in place; the rest are empty. */
  ghost predicate TablesSet(m: seq<u32>, pml4: nat, pdpt: nat, pd: nat) {
    && (forall i: nat :: i < TABLE_ENTRIES ==> Entry64(m, pml4 + 8 * i) == if i == 0 then pdpt + 3 else 0)
    && (forall i: nat :: i < TABLE_ENTRIES ==> Entry64(m, pdpt + 8 * i) == if i == 0 then pd + 3 else 0)
    && (forall i: nat :: i < TABLE_ENTRIES ==>
          Entry64(m, pd + 8 * i) == if i < 64 then i * 0x20_0000 + 0x83 else 0)
  }

  /** The same in 32-bit words, after `n` turns of the directory loop, with the tables at words `w4`, `w3`, `w2`. */
  ghost predicate WordsSet(m: seq<u32>, w4: nat, w3: nat, w2: nat, n: nat)
    requires w4 + 1024 <= |m| && w3 + 1024 <= |m| && w2 + 1024 <= |m|
  {
    && m[w4] == 4 * w3 + PRESENT_WRITABLE && (forall w :: w4 < w < w4 + 1024 ==> m[w] == 0)
    && m[w3] == 4 * w2 + PRESENT_WRITABLE && (forall w :: w3 < w < w3 + 1024 ==> m[w] == 0)
    && forall w :: w2 <= w < w2 + 1024 ==> m[w] == DirectoryWord(w - w2, n)
  }

  /** Word `k` of the directory after `n` turns: the low half of an entry that is set, or zero. */
  function DirectoryWord(k: nat, n: nat): nat {
    if k < 2 * n && k % 2 == 0 then k / 2 * HUGE_PAGE + PRESENT_WRITABLE_HUGE else 0
  }

  predicate Apart(w4: nat, w3: nat, w2: nat) {
    (w4 + 1024 <= w3 || w3 + 1024 <= w4) && (w4 + 1024 <= w2 || w2 + 1024 <= w4) && (w3 + 1024 <= w2 || w2 + 1024 <= w3)
  }

  lemma DirectoryTurn(m0: seq<u32>, m: seq<u32>, m': seq<u32>, w4: nat, w3: nat, w2: nat, n: nat, eax: u32)
    requires w4 + 1024 <= |m| && w3 + 1024 <= |m| && w2 + 1024 <= |m| && Apart(w4, w3, w2)
    requires n < HUGE_PAGES && eax == n * HUGE_PAGE + PRESENT_WRITABLE_HUGE
    requires WordsSet(m, w4, w3, w2, n) && OnlyTables(m0, m, w4, w3, w2) && m' == m[w2 + 2 * n := eax][w2 + 2 * n + 1 := 0]
    ensures WordsSet(m', w4, w3, w2, n + 1) && OnlyTables(m0, m', w4, w3, w2)
  {
  }

  ghost predicate OnlyTables(m: seq<u32>, m': seq<u32>, w4: nat, w3: nat, w2: nat) {
    |m| == |m'| && forall w :: 0 <= w < |m| && !(w4 <= w < w4 + 1024) && !(w3 <= w < w3 + 1024) && !(w2 <= w < w2 + 1024) ==>
      m'[w] == m[w]
  }

  /** The first entries of the two upper tables. */
  method SetTopTables(mem: array<u32>, pml4: u32, pdpt: u32, pd: u32)
    requires Placed(mem.Length, pml4, pdpt, pd)
    requires Zeroed(mem[..], pml4) && Zeroed(mem[..], pdpt) && Zeroed(mem[..], pd)
    modifies mem
    ensures WordsSet(mem[..], pml4 / 4, pdpt / 4, pd / 4, 0)
    ensures OnlyTables(old(mem[..]), mem[..], pml4 / 4, pdpt / 4, pd / 4)
  {
    hide WordsSet, OnlyTables;
    ghost var m0: seq<u32> := mem[..];
    ghost var w4, w3, w2 := pml4 / 4, pdpt / 4, pd / 4;
    TablesApart(mem.Length, pml4, pdpt, pd);
    ghost var e4: u32, e3: u32 := Or3(pdpt), Or3(pd);
    var eax: u32 := Or3(pdpt);
    mem[pml4 / 4] := eax;
    mem[(pml4 + 4) / 4] := 0;
    eax := Or3(pd);
    mem[pdpt / 4] := eax;
    mem[(pdpt + 4) / 4] := 0;
    assert mem[..] == m0[w4 := e4][w4 + 1 := 0][w3 := e3][w3 + 1 := 0];
    TopTables(m0, mem[..], w4, w3, w2, e4, e3);
  }

  method SetupPageTables(mem: array<u32>, pml4: u32, pdpt: u32, pd: u32)
    requires Placed(mem.Length, pml4, pdpt, pd)
    requires Zeroed(mem[..], pml4) && Zeroed(mem[..], pdpt) && Zeroed(mem[..], pd)
    modifies mem
    ensures TablesSet(mem[..], pml4, pdpt, pd)
    ensures OnlyTables(old(mem[..]), mem[..], pml4 / 4, pdpt / 4, pd / 4)
  {
    hide WordsSet, DirectoryWord, OnlyTables;
    ghost var m0: seq<u32> := mem[..];
    ghost var w4, w3, w2 := pml4 / 4, pdpt / 4, pd / 4;
    TablesApart(mem.Length, pml4, pdpt, pd);
    SetTopTables(mem, pml4, pdpt, pd);
    var ecx, eax := 0, PRESENT_WRITABLE_HUGE;
    while ecx < HUGE_PAGES
      invariant 0 <= ecx <= HUGE_PAGES && eax == ecx * HUGE_PAGE + PRESENT_WRITABLE_HUGE
      invariant WordsSet(mem[..], w4, w3, w2, ecx)
      invariant OnlyTables(m0, mem[..], w4, w3, w2)
    {
      ghost var m: seq<u32> := mem[..];
      var edi := pd + 8 * ecx;
      assert edi / 4 == w2 + 2 * ecx && (edi + 4) / 4 == w2 + 2 * ecx + 1;
      mem[edi / 4] := eax;
      mem[(edi + 4) / 4] := 0;
      assert mem[..] == m[w2 + 2 * ecx := eax][w2 + 2 * ecx + 1 := 0];
      DirectoryTurn(m0, m, mem[..], w4, w3, w2, ecx, eax);
      eax := eax + HUGE_PAGE;
      ecx := ecx + 1;
    }
    WordsGiveEntries(mem[..], pml4, pdpt, pd);
  }

  lemma TablesApart(words: nat, pml4: nat, pdpt: nat, pd: nat)
    requires Placed(words, pml4, pdpt, pd)
    ensures Apart(pml4 / 4, pdpt / 4, pd / 4)
    ensures pml4 / 4 * 4 == pml4 && pdpt / 4 * 4 == pdpt && pd / 4 * 4 == pd
  {
    PagesApart(pml4, pdpt);
    PagesApart(pml4, pd);
    PagesApart(pdpt, pd);
  }

  lemma PagesApart(t: nat, u: nat)
    requires t % TABLE_BYTES == 0 && u % TABLE_BYTES == 0 && t != u
    ensures t / 4 + 1024 <= u / 4 || u / 4 + 1024 <= t / 4
    ensures t / 4 * 4 == t && u / 4 * 4 == u
  {
    PageWords(t);
    PageWords(u);
  }

  lemma PageWords(t: nat)
    requires t % TABLE_BYTES == 0
    ensures t == t / TABLE_BYTES * TABLE_BYTES && t / 4 == t / TABLE_BYTES * 1024 && t / 4 * 4 == t
  {
  }

  lemma TopTables(m0: seq<u32>, m: seq<u32>, w4: nat, w3: nat, w2: nat, e4: u32, e3: u32)
    requires w4 + 1024 <= |m0| && w3 + 1024 <= |m0| && w2 + 1024 <= |m0| && Apart(w4, w3, w2)
    requires e4 == 4 * w3 + PRESENT_WRITABLE && e3 == 4 * w2 + PRESENT_WRITABLE
    requires forall w :: w4 <= w < w4 + 1024 || w3 <= w < w3 + 1024 || w2 <= w < w2 + 1024 ==> m0[w] == 0
    requires m == m0[w4 := e4][w4 + 1 := 0][w3 := e3][w3 + 1 := 0]
    ensures WordsSet(m, w4, w3, w2, 0) && OnlyTables(m0, m, w4, w3, w2)
  {
  }

  lemma EntryWords(m: seq<u32>, w: nat, i: nat)
    requires w + 2 * i + 1 < |m|
    ensures Entry64(m, 4 * w + 8 * i) == m[w + 2 * i] + U32 * m[w + 2 * i + 1]
  {
  }

  lemma DirectoryWords(i: nat)
    requires i < TABLE_ENTRIES
    ensures DirectoryWord(2 * i, HUGE_PAGES) == if i < HUGE_PAGES then i * HUGE_PAGE + PRESENT_WRITABLE_HUGE else 0
    ensures DirectoryWord(2 * i + 1, HUGE_PAGES) == 0
  {
  }

  lemma WordsGiveEntries(m: seq<u32>, pml4: nat, pdpt: nat, pd: nat)
    requires Placed(|m|, pml4, pdpt, pd) && WordsSet(m, pml4 / 4, pdpt / 4, pd / 4, HUGE_PAGES)
    ensures TablesSet(m, pml4, pdpt, pd)
  {
    hide Entry64, DirectoryWord;
    var w4, w3, w2 := pml4 / 4, pdpt / 4, pd / 4;
    TablesApart(|m|, pml4, pdpt, pd);
    forall i: nat | i < TABLE_ENTRIES
      ensures Entry64(m, pml4 + 8 * i) == if i == 0 then pdpt + PRESENT_WRITABLE else 0
    {
      EntryWords(m, w4, i);
    }
    forall i: nat | i < TABLE_ENTRIES
      ensures Entry64(m, pdpt + 8 * i) == if i == 0 then pd + PRESENT_WRITABLE else 0
    {
      EntryWords(m, w3, i);
    }
    forall i: nat | i < TABLE_ENTRIES
      ensures Entry64(m, pd + 8 * i) == if i < HUGE_PAGES then i * HUGE_PAGE + PRESENT_WRITABLE_HUGE else 0
    {
      EntryWords(m, w2, i);
      DirectoryWords(i);
      assert w2 + 2 * i - w2 == 2 * i && w2 + 2 * i + 1 - w2 == 2 * i + 1;
    }
  }

  /**
   Identity mapping: with these tables the processor maps every address below 128 MB to
   itself, writable, and no address from there up to 2^48 to anything.
   */
  lemma IdentityMapped(m: seq<u32>, pml4: nat, pdpt: nat, pd: nat, va: nat)
    requires Placed(|m|, pml4, pdpt, pd) && TablesSet(m, pml4, pdpt, pd)
    requires va < 0x1_0000_0000_0000
    ensures Translate(m, pml4, va) == if va < 0x800_0000 then Some(Mapping(va, true)) else None
  {
    hide Entry64, Present, Writable, Huge, Target;
    PointerEntry(pdpt);
    PointerEntry(pd);
    Indexes(va);
    var i := va / HUGE_PAGE;
    if i < HUGE_PAGES {
      HugeEntry(i);
    }
  }

  /** Below 2^48, the three upper indexes of an address; the huge-page index counts 2 MB pages while the others are 0. */
  lemma Indexes(va: nat)
    requires va < 0x1_0000_0000_0000
    ensures va / 0x80_0000_0000 % TABLE_ENTRIES == va / 0x80_0000_0000
    ensures va < 0x80_0000_0000 ==> va / 0x80_0000_0000 == 0 && va / 0x4000_0000 % TABLE_ENTRIES == va / 0x4000_0000
    ensures va < 0x4000_0000 ==> va / 0x4000_0000 == 0 && va / HUGE_PAGE % TABLE_ENTRIES == va / HUGE_PAGE
    ensures va >= 0x80_0000_0000 ==> va / 0x80_0000_0000 > 0
    ensures va >= 0x4000_0000 ==> va / 0x4000_0000 > 0
    ensures va / HUGE_PAGE < HUGE_PAGES <==> va < Elf.PROG_LOAD_MAX
    ensures va / HUGE_PAGE * HUGE_PAGE + va % HUGE_PAGE == va
    ensures !Present(0)
  {
  }

  lemma PointerEntry(t: nat)
    requires t % TABLE_BYTES == 0 && t < U32
    ensures var e := t + PRESENT_WRITABLE; Present(e) && Writable(e) && !Huge(e) && Target(e) == t
  {
    hide Present, Writable, Huge, Target;
    var q := t / TABLE_BYTES;
    PointerFlags(q);
    PointerHuge(q);
    PointerTarget(q);
  }

  lemma PointerFlags(q: nat)
    ensures Present(0x1000 * q + 3) && Writable(0x1000 * q + 3)
  {
    Odd(0x800 * q + 1);
    Odd(0x400 * q);
    assert 0x1000 * q + 3 == 2 * (0x800 * q + 1) + 1;
    assert 0x800 * q + 1 == 2 * (0x400 * q) + 1;
  }

  lemma Odd(n: nat)
    ensures (2 * n + 1) % 2 == 1 && (2 * n + 1) / 2 == n
  {
  }

  lemma PointerHuge(q: nat)
    ensures !Huge(0x1000 * q + 3)
  {
    assert (0x1000 * q + 3) / 0x80 == 0x20 * q;
  }

  lemma PointerTarget(q: nat)
    requires q < 0x10_0000
    ensures Target(0x1000 * q + 3) == 0x1000 * q
  {
    assert (0x1000 * q + 3) / 0x1000 == q;
  }

  lemma HugeEntry(i: nat)
    requires i < HUGE_PAGES
    ensures var e := i * HUGE_PAGE + PRESENT_WRITABLE_HUGE;
            Present(e) && Writable(e) && Huge(e) && e / HUGE_PAGE % 0x8000_0000 * HUGE_PAGE == i * HUGE_PAGE
  {
  }
}
