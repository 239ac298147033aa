/**
 The writer's side of a program file: headers laid out field by field as the two ELF64
 structures declare them, and the proof that the loader reads back what was written.
 */
module ElfLayout {
  import opened Machine
  import opened Elf
  import opened ElfImage

  /** `elf64_ehdr_t`, in declaration order. */
  datatype Ehdr = Ehdr(ident: seq<byte>, kind: u16, machine: u16, version: u32, entry: u64, phoff: u64, shoff: u64,
                       flags: u32, ehsize: u16, phentsize: u16, phnum: u16, shentsize: u16, shnum: u16, shstrndx: u16)

  /** `elf64_phdr_t`, in declaration order. */
  datatype ProgramHeader = ProgramHeader(kind: u32, flags: u32, offset: u64, vaddr: u64, paddr: u64, filesz: u64,
                                         memsz: u64, align: u64)

  /** A field still to be written: its value and its width. */
  datatype Slot = Slot(value: nat, width: nat) {
    predicate Valid() {
      value < Pow256(width)
    }
  }

  /** Fields one after the other. */
  function Packed(slots: seq<Slot>): seq<byte> {
    if slots == [] then [] else LeBytes(slots[0].value, slots[0].width) + Packed(slots[1..])
  }

  /** Where field `i` starts. */
  function Offset(slots: seq<Slot>, i: nat): nat
    requires i <= |slots|
  {
    if i == 0 then 0 else slots[0].width + Offset(slots[1..], i - 1)
  }

  lemma {:induction false} PackedField(slots: seq<Slot>, i: nat, rest: seq<byte>)
    requires i < |slots| && slots[i].Valid()
    ensures var b := Packed(slots) + rest;
            Offset(slots, i) + slots[i].width <= |b| && Field(b, Offset(slots, i), slots[i].width) == slots[i].value
    decreases i
  {
    hide LeBytes, Le, Pow256;
    var first, tail := LeBytes(slots[0].value, slots[0].width), Packed(slots[1..]) + rest;
    var b, at, k := Packed(slots) + rest, Offset(slots, i), slots[i].width;
    assert b == first + tail;
    if i == 0 {
      LeRoundTrip(slots[0].value, k);
      assert b[0..k] == first;
    } else {
      PackedField(slots[1..], i - 1, rest);
      var at1 := Offset(slots[1..], i - 1);
      assert at == |first| + at1;
      assert b[at..at + k] == tail[at1..at1 + k];
    }
  }

  function EhdrSlots(h: Ehdr): (s: seq<Slot>)
    ensures |s| == 13
  {
    [Slot(h.kind, 2), Slot(h.machine, 2), Slot(h.version, 4), Slot(h.entry, 8), Slot(h.phoff, 8), Slot(h.shoff, 8),
     Slot(h.flags, 4), Slot(h.ehsize, 2), Slot(h.phentsize, 2), Slot(h.phnum, 2), Slot(h.shentsize, 2), Slot(h.shnum, 2),
     Slot(h.shstrndx, 2)]
  }

  function PhdrSlots(p: ProgramHeader): (s: seq<Slot>)
    ensures |s| == 8
  {
    [Slot(p.kind, 4), Slot(p.flags, 4), Slot(p.offset, 8), Slot(p.vaddr, 8), Slot(p.paddr, 8), Slot(p.filesz, 8),
     Slot(p.memsz, 8), Slot(p.align, 8)]
  }

  function EhdrBytes(h: Ehdr): seq<byte> {
    h.ident + Packed(EhdrSlots(h))
  }

  function PhdrBytes(p: ProgramHeader): seq<byte> {
    Packed(PhdrSlots(p))
  }

  /* Reading one header back. */

  lemma {:induction false} PackedLength(slots: seq<Slot>)
    ensures |Packed(slots)| == Offset(slots, |slots|)
    decreases |slots|
  {
    if slots == [] {
    } else {
      PackedLength(slots[1..]);
    }
  }

  /** Where the loader looks for the file header's fields, past the 16 identification bytes. */
  lemma EhdrOffsets(h: Ehdr)
    ensures var s := EhdrSlots(h);
            && Offset(s, 0) == 0 && Offset(s, 1) == 2 && Offset(s, 3) == 8 && Offset(s, 4) == 16
            && Offset(s, 8) == 38 && Offset(s, 9) == 40 && Offset(s, 13) == 48
  {
    hide Offset;
    var s := EhdrSlots(h);
    OffsetStep(s, 0);
    OffsetStep(s, 1);
    OffsetStep(s, 2);
    OffsetStep(s, 3);
    OffsetStep(s, 4);
    OffsetStep(s, 5);
    OffsetStep(s, 6);
    OffsetStep(s, 7);
    OffsetStep(s, 8);
    OffsetStep(s, 9);
    OffsetStep(s, 10);
    OffsetStep(s, 11);
    OffsetStep(s, 12);
  }

  lemma PhdrOffsets(p: ProgramHeader)
    ensures var s := PhdrSlots(p);
            && Offset(s, 0) == 0 && Offset(s, 2) == 8 && Offset(s, 3) == 16
            && Offset(s, 5) == 32 && Offset(s, 6) == 40 && Offset(s, 8) == PHDR_SIZE
  {
    hide Offset;
    var s := PhdrSlots(p);
    OffsetStep(s, 0);
    OffsetStep(s, 1);
    OffsetStep(s, 2);
    OffsetStep(s, 3);
    OffsetStep(s, 4);
    OffsetStep(s, 5);
    OffsetStep(s, 6);
    OffsetStep(s, 7);
  }

  lemma {:induction false} OffsetStep(slots: seq<Slot>, i: nat)
    requires i < |slots|
    ensures Offset(slots, 0) == 0 && Offset(slots, i + 1) == Offset(slots, i) + slots[i].width
    decreases i
  {
    if i == 0 {
    } else {
      OffsetStep(slots[1..], i - 1);
    }
  }

  /** The identification bytes the loader accepts. */
  predicate IdentOk(ident: seq<byte>) {
    |ident| == 16 && ident[0] == 0x7F && ident[1] == 0x45 && ident[2] == 0x4C && ident[3] == 0x46 && ident[4] == 2
  }

  /** A written file header is accepted exactly when its fields say so, and is read field by field. */
  lemma EhdrRead(h: Ehdr, rest: seq<byte>)
    requires |h.ident| == 16
    ensures var f := EhdrBytes(h) + rest;
            && |f| == 64 + |rest| && f[64..] == rest
            && (HeaderOk(f) <==> IdentOk(h.ident) && h.kind == 2 && h.machine == 62 && h.phoff != 0 && h.phentsize >= 56)
            && Entry(f) == h.entry && PhNum(f) == h.phnum
            && forall i: u16 :: PhOffset(f, i) == Add64(h.phoff, Mul16(i, h.phentsize))
  {
    hide Le, Packed, Offset, EhdrSlots, Mul16;
    var f := EhdrBytes(h) + rest;
    var slots := EhdrSlots(h);
    PackedLength(slots);
    EhdrOffsets(h);
    EhdrWidths(h);
    assert f[16..] == Packed(slots) + rest;
    PackedField(slots, 0, rest);
    PackedField(slots, 1, rest);
    PackedField(slots, 3, rest);
    PackedField(slots, 4, rest);
    PackedField(slots, 8, rest);
    PackedField(slots, 9, rest);
    FieldPast(f, 16, 0, 2);
    FieldPast(f, 16, 2, 2);
    FieldPast(f, 16, 8, 8);
    FieldPast(f, 16, 16, 8);
    FieldPast(f, 16, 38, 2);
    FieldPast(f, 16, 40, 2);
    assert forall i :: 0 <= i < 16 ==> f[i] == h.ident[i];
  }

  lemma EhdrWidths(h: Ehdr)
    ensures var s := EhdrSlots(h);
            && s[0] == Slot(h.kind, 2) && s[1] == Slot(h.machine, 2) && s[3] == Slot(h.entry, 8) && s[4] == Slot(h.phoff, 8)
            && s[8] == Slot(h.phentsize, 2) && s[9] == Slot(h.phnum, 2)
            && s[0].Valid() && s[1].Valid() && s[3].Valid() && s[4].Valid() && s[8].Valid() && s[9].Valid()
  {
    Pow256Values();
  }

  lemma FieldPast(f: seq<byte>, skip: nat, at: nat, k: nat)
    requires skip + at + k <= |f|
    ensures Field(f[skip..], at, k) == Field(f, skip + at, k)
  {
    assert f[skip..][at..at + k] == f[skip + at..skip + at + k];
  }

  /** What the loader keeps of a program header. */
  function AsPhdr(p: ProgramHeader): Phdr {
    Phdr(p.kind, p.offset, p.vaddr, p.filesz, p.memsz)
  }

  lemma PhdrRead(p: ProgramHeader, rest: seq<byte>)
    ensures var b := PhdrBytes(p) + rest;
            |b| == PHDR_SIZE + |rest| && PhdrAt(b, 0) == AsPhdr(p) && b[PHDR_SIZE..] == rest
  {
    hide Le, Packed, Offset, PhdrSlots;
    var slots := PhdrSlots(p);
    PackedLength(slots);
    PhdrOffsets(p);
    PhdrWidths(p);
    PackedField(slots, 0, rest);
    PackedField(slots, 2, rest);
    PackedField(slots, 3, rest);
    PackedField(slots, 5, rest);
    PackedField(slots, 6, rest);
  }

  lemma PhdrWidths(p: ProgramHeader)
    ensures var s := PhdrSlots(p);
            && s[0] == Slot(p.kind, 4) && s[2] == Slot(p.offset, 8) && s[3] == Slot(p.vaddr, 8)
            && s[5] == Slot(p.filesz, 8) && s[6] == Slot(p.memsz, 8)
            && s[0].Valid() && s[2].Valid() && s[3].Valid() && s[5].Valid() && s[6].Valid()
  {
    Pow256Values();
  }

  /* Whole files. */

  /**
   `f` starts with the file header `h` and holds the program headers `ps` where `h` says: from
   `phoff` on, every `phentsize` bytes, in the file. What else the file holds is open.
   */
  ghost predicate Holds(f: seq<byte>, h: Ehdr, ps: seq<ProgramHeader>) {
    && |h.ident| == 16 && h.phnum == |ps| && |f| < U64
    && EhdrBytes(h) <= f
    && forall i :: 0 <= i < |ps| ==> HoldsAt(f, h.phoff + Times(i, h.phentsize), PhdrBytes(ps[i]))
  }

  predicate HoldsAt(f: seq<byte>, at: nat, b: seq<byte>) {
    at + |b| <= |f| && f[at..at + |b|] == b
  }

  function Times(a: nat, b: nat): (r: nat)
    ensures r == a * b
  {
    a * b
  }

  /** The header's own fields name an executable for this machine with a usable table. */
  predicate ForThisMachine(h: Ehdr) {
    IdentOk(h.ident) && h.kind == 2 && h.machine == 62 && h.phoff != 0 && h.phentsize >= 56
  }

  /** The loadable headers among `ps`, in order, as the loader sees them. */
  function LoadSegments(ps: seq<ProgramHeader>): seq<Phdr> {
    if ps == [] then []
    else (if ps[0].kind == 1 then [AsPhdr(ps[0])] else []) + LoadSegments(ps[1..])
  }

  /**
   What a loadable header must be to pass the checks: from 1 MB on, ending by 128 MB, its file bytes
   in the file. One that starts above 128 MB passes if its end does not come round 2^64 past that.
   */
  predicate Passes(p: ProgramHeader, size: nat) {
    && 0x10_0000 <= p.vaddr && p.offset + p.filesz <= size
    && if p.vaddr <= 0x800_0000 then p.vaddr + p.memsz <= 0x800_0000
       else p.vaddr + p.memsz <= 0x1_0000_0000_0000_0000 + 0x800_0000
  }

  /** A header that keeps the gABI's rules, in the loader's window. */
  predicate Conforming(p: ProgramHeader, size: nat) {
    0x10_0000 <= p.vaddr && p.vaddr + p.memsz <= 0x800_0000 && p.filesz <= p.memsz && p.offset + p.filesz <= size
  }

  /** The loader's three checks, in plain arithmetic. */
  lemma AcceptsIff(p: ProgramHeader, size: nat)
    ensures Accepts(AsPhdr(p), size) <==> Passes(p, size)
    ensures Conforming(p, size) ==> Passes(p, size)
  {
  }

  predicate AllPass(ps: seq<ProgramHeader>, size: nat) {
    forall p :: p in ps && p.kind == 1 ==> Passes(p, size)
  }

  /** The loader finds header `i` of a file that holds it. */
  lemma HeaderFound(f: seq<byte>, h: Ehdr, ps: seq<ProgramHeader>, i: u16)
    requires Holds(f, h, ps) && i < |ps|
    ensures |f| >= EHDR_SIZE && PhNum(f) == |ps| && Entry(f) == h.entry && (HeaderOk(f) <==> ForThisMachine(h))
    ensures PhOffset(f, i) + PHDR_SIZE <= |f| && PhdrAt(f, PhOffset(f, i)) == AsPhdr(ps[i])
  {
    hide EhdrBytes, PhdrBytes, PhdrAt, PhOffset, PhNum, HeaderOk, Entry, ForThisMachine, Mul16;
    FileHeaderFound(f, h, ps);
    var at := h.phoff + Times(i, h.phentsize);
    assert HoldsAt(f, at, PhdrBytes(ps[i]));
    PhdrRead(ps[i], []);
    assert PhdrBytes(ps[i]) + [] == PhdrBytes(ps[i]);
    var rest := f[at + PHDR_SIZE..];
    assert f[at..] == PhdrBytes(ps[i]) + rest;
    PhdrRead(ps[i], rest);
    PhdrPast(f, at);
    assert PhOffset(f, i) == Add64(h.phoff, Mul16(i, h.phentsize));
    assert Mul16(i, h.phentsize) == Times(i, h.phentsize);
  }

  lemma FileHeaderFound(f: seq<byte>, h: Ehdr, ps: seq<ProgramHeader>)
    requires Holds(f, h, ps)
    ensures |f| >= EHDR_SIZE && PhNum(f) == |ps| && Entry(f) == h.entry && (HeaderOk(f) <==> ForThisMachine(h))
    ensures forall i: u16 :: PhOffset(f, i) == Add64(h.phoff, Mul16(i, h.phentsize))
  {
    hide EhdrBytes, PhdrBytes, PhdrAt, PhOffset, PhNum, HeaderOk, Entry, Mul16, HoldsAt;
    var rest := f[|EhdrBytes(h)|..];
    assert f == EhdrBytes(h) + rest;
    EhdrRead(h, rest);
  }

  lemma {:induction false} TableRead(f: seq<byte>, h: Ehdr, all: seq<ProgramHeader>, i: u16, ps: seq<ProgramHeader>)
    requires Holds(f, h, all) && AllPass(all, |f|) && i <= |all| && ps == all[i..]
    ensures |f| >= EHDR_SIZE && SegmentsFrom(f, i) == (LoadSegments(ps), true)
    decreases |ps|
  {
    hide Holds, PhdrAt, PhOffset, PhNum, Accepts, Passes, HeaderOk, Entry, ForThisMachine;
    FileHeaderFound(f, h, all);
    if ps == [] {
    } else {
      HeaderFound(f, h, all, i);
      AcceptsIff(ps[0], |f|);
      assert ps[0] == all[i] && all[i] in all;
      TableRead(f, h, all, i + 1, ps[1..]);
      assert [] + LoadSegments(ps[1..]) == LoadSegments(ps[1..]);
    }
  }

  lemma PhdrPast(f: seq<byte>, at: nat)
    requires at + PHDR_SIZE <= |f|
    ensures PhdrAt(f[at..], 0) == PhdrAt(f, at)
  {
    hide Le;
    FieldPast(f, at, 0, 4);
    FieldPast(f, at, 8, 8);
    FieldPast(f, at, 16, 8);
    FieldPast(f, at, 32, 8);
    FieldPast(f, at, 40, 8);
  }

  /**
   Round trip: of a written program file, wherever its table lies and however wide its entries
   are, the loader sees exactly the loadable headers, in order, and its entry point.
   */
  lemma WrittenFileReads(f: seq<byte>, h: Ehdr, ps: seq<ProgramHeader>)
    requires Holds(f, h, ps) && ForThisMachine(h) && AllPass(ps, |f|)
    ensures HeaderOk(f) && TableInRange(f)
    ensures Segments(f) == (LoadSegments(ps), true)
    ensures Answer(f) == if LoadSegments(ps) != [] then h.entry else 0
  {
    hide Holds, PhOffset, PhNum, PhdrAt, HeaderOk, Entry, ForThisMachine, SegmentsFrom, LoadSegments, AllPass;
    FileHeaderFound(f, h, ps);
    TableHeld(f, h, ps);
    assert ps == ps[0..];
    TableRead(f, h, ps, 0, ps);
  }

  lemma TableHeld(f: seq<byte>, h: Ehdr, ps: seq<ProgramHeader>)
    requires Holds(f, h, ps)
    ensures |f| >= EHDR_SIZE && TableInRange(f)
  {
    hide Holds, PhOffset, PhNum, PhdrAt, HeaderOk, Entry, ForThisMachine;
    FileHeaderFound(f, h, ps);
    forall i: u16 | i < PhNum(f)
      ensures HeaderInRange(f, i)
    {
      HeaderFound(f, h, ps, i);
      HoldsBounds(f, h, ps);
    }
  }

  lemma HoldsBounds(f: seq<byte>, h: Ehdr, ps: seq<ProgramHeader>)
    requires Holds(f, h, ps)
    ensures |f| < U64
  {
  }

  /**
   Writing and loading together: a program all of whose loadable headers conform is loaded; the
   memory after is the image of the headers as written, and the answer its entry point.
   */
  lemma WrittenProgramLoads(m: seq<byte>, data: nat, f: seq<byte>, h: Ehdr, ps: seq<ProgramHeader>)
    requires Holds(f, h, ps) && ForThisMachine(h)
    requires forall p :: p in ps && p.kind == 1 ==> Conforming(p, |f|)
    requires |m| == 0x800_0000 && data + |f| <= |m| && m[data..data + |f|] == f && AllAvoid(LoadSegments(ps), data, |f|)
    ensures InFile(f, LoadSegments(ps))
    ensures Load(m, data, |f|) ==
            (Image(LoadSegments(ps), f, m), Returned(if LoadSegments(ps) != [] then h.entry else 0))
  {
    hide Load, Image, LoadSegments, Holds, HeaderOk, Passes, Conforming;
    forall p | p in ps && p.kind == 1
      ensures Passes(p, |f|)
    {
      AcceptsIff(p, |f|);
    }
    WrittenFileReads(f, h, ps);
    LoadSegmentsAre(ps);
    forall s | s in Segments(f).0
      ensures s.vaddr <= PROG_LOAD_MAX && s.filesz <= s.memsz
    {
      var p :| p in ps && p.kind == 1 && s == AsPhdr(p);
      ConformingFits(p, |f|);
    }
    ConformingFileLoads(m, f, data);
  }

  lemma ConformingFits(p: ProgramHeader, size: nat)
    requires Conforming(p, size)
    ensures p.vaddr <= PROG_LOAD_MAX && p.filesz <= p.memsz
  {
  }

  lemma {:induction false} LoadSegmentsAre(ps: seq<ProgramHeader>)
    ensures forall s :: s in LoadSegments(ps) <==> exists p :: p in ps && p.kind == 1 && s == AsPhdr(p)
    decreases |ps|
  {
    if ps == [] {
    } else {
      LoadSegmentsAre(ps[1..]);
      assert forall p :: p in ps <==> p == ps[0] || p in ps[1..];
    }
  }

  /** A file with a loadable header that does not pass is rejected at that header at the latest. */
  lemma {:induction false} TableRefused(f: seq<byte>, h: Ehdr, all: seq<ProgramHeader>, i: u16, bad: nat)
    requires Holds(f, h, all) && i <= bad < |all| && all[bad].kind == 1 && !Passes(all[bad], |f|)
    ensures |f| >= EHDR_SIZE && !SegmentsFrom(f, i).1
    ensures forall s :: s in SegmentsFrom(f, i).0 ==> exists p :: p in all && p.kind == 1 && Passes(p, |f|) && s == AsPhdr(p)
    decreases bad - i
  {
    hide Holds, PhdrAt, PhOffset, PhNum, Accepts, Passes, HeaderOk, Entry, ForThisMachine;
    FileHeaderFound(f, h, all);
    HeaderFound(f, h, all, i);
    AcceptsIff(all[i], |f|);
    assert all[i] in all;
    if i < bad {
      TableRefused(f, h, all, i + 1, bad);
    }
  }

  /**
   Conversely, a program with a loadable header below 1 MB, or ending past 128 MB, or with file
   bytes outside the file, is refused: it answers 0, or faults on the way if another header does
   not conform.
   */
  lemma BadProgramRefused(m: seq<byte>, data: nat, f: seq<byte>, h: Ehdr, ps: seq<ProgramHeader>, bad: ProgramHeader)
    requires Holds(f, h, ps) && ForThisMachine(h) && bad in ps && bad.kind == 1
    requires || bad.vaddr < 0x10_0000
             || (bad.vaddr <= 0x800_0000 && bad.vaddr + bad.memsz > 0x800_0000)
             || bad.offset + bad.filesz > |f|
    requires |m| == 0x800_0000 && data + |f| <= |m| && m[data..data + |f|] == f && |f| >= 64 && AllSpareTables(f, data, 0)
    ensures Answer(f) == 0
    ensures Load(m, data, |f|).1 == Returned(0) || Load(m, data, |f|).1 == Fault
    ensures (forall p :: p in ps && p.kind == 1 ==> p.vaddr <= 0x800_0000 && p.filesz <= p.memsz) ==>
              Load(m, data, |f|).1 == Returned(0)
  {
    hide Holds, HeaderOk, ForThisMachine, LoadFrom, SegmentsFrom, AllSpareTables, Entry;
    var k :| 0 <= k < |ps| && ps[k] == bad;
    FileHeaderFound(f, h, ps);
    TableHeld(f, h, ps);
    TableRefused(f, h, ps, 0, k);
    SparingLoad(m, f, data, 0, false);
    forall s | s in SegmentsFrom(f, 0).0 && s.vaddr <= 0x800_0000 && s.filesz <= s.memsz
      ensures Fits(s)
    {
      FitsIff(s, |f|);
    }
  }

  /* A header that rewrites itself. */

  /** An executable of 176 bytes whose one program header is followed by a second header's bytes. */
  function TwoHeaders(h: Ehdr, p: ProgramHeader, q: ProgramHeader): seq<byte> {
    EhdrBytes(h) + (PhdrBytes(p) + PhdrBytes(q))
  }

  /** A header that copies 56 other bytes over itself becomes the header those bytes are. */
  lemma CopiedOverItself(m: seq<byte>, at: nat, src: nat)
    requires at + PHDR_SIZE <= src && src + PHDR_SIZE <= |m|
    ensures Copy(m, at, src, PHDR_SIZE).1 && PhdrAt(Copy(m, at, src, PHDR_SIZE).0, at) == PhdrAt(m, src)
  {
    hide Copy, PhdrAt;
    var m1 := Copy(m, at, src, PHDR_SIZE).0;
    CopyEffect(m, at, src, PHDR_SIZE);
    PhdrPast(m1, at);
    PhdrPast(m, src);
    var b, c := m1[at..], m[src..];
    forall k | 0 <= k < PHDR_SIZE
      ensures b[k] == c[k]
    {
      assert b[k] == m1[at + k] && c[k] == m[src + k] && m1[at + k] == m[src + (at + k - at)];
    }
    SamePhdr(b, c);
  }

  lemma SamePhdr(b: seq<byte>, c: seq<byte>)
    requires PHDR_SIZE <= |b| && PHDR_SIZE <= |c| && forall k :: 0 <= k < PHDR_SIZE ==> b[k] == c[k]
    ensures PhdrAt(b, 0) == PhdrAt(c, 0)
  {
    hide Le;
    assert b[0..4] == c[0..4] && b[8..16] == c[8..16] && b[16..24] == c[16..24];
    assert b[32..40] == c[32..40] && b[40..48] == c[40..48];
  }

  /**
   Loaded at `data`, the header copies the other one over itself. All checks have passed by
   then, but the zero fill goes by the new header: here, over the first page of memory.
   */
  lemma RewrittenHeaderZeroesLow(m: seq<byte>, data: nat, h: Ehdr, p: ProgramHeader, q: ProgramHeader)
    requires ForThisMachine(h) && h.phoff == EHDR_SIZE && h.phnum == 1
    requires p.kind == PT_LOAD && p.vaddr == data + 64 && p.offset == 120 && p.filesz == p.memsz == PHDR_SIZE
    requires q.vaddr == q.filesz == 0 && q.memsz == PAGE_SIZE
    requires PROG_LOAD_MIN <= data && |m| == PROG_LOAD_MAX && data + |TwoHeaders(h, p, q)| <= |m|
    requires m[data..data + |TwoHeaders(h, p, q)|] == TwoHeaders(h, p, q)
    ensures forall a: nat :: a < PAGE_SIZE ==> Load(m, data, |TwoHeaders(h, p, q)|).0[a] == 0
  {
    hide TwoHeaders, PhdrAt, PhOffset, PhNum, HeaderOk, LoadFrom, Place, ForThisMachine, Copy;
    var f, at := TwoHeaders(h, p, q), data + 64;
    TwoHeadersRead(h, p, q);
    HeaderReadFromFile(m, f, data, 0);
    SliceHeader(m, f, data, 120);
    CopiedOverItself(m, at, data + 120);
    assert Add64(data, 120) == data + 120 && Add64(0, 0) == 0;
    forall a: nat | a < PAGE_SIZE
      ensures Load(m, data, 176).0[a] == 0
    {
      assert TurnZeroes(m, at, data, a);
      assert LoadZeroes(m, data, 176, 0, a);
      LoadFromBelow(m, data, 176, 0, false, a);
    }
  }

  lemma TwoHeadersRead(h: Ehdr, p: ProgramHeader, q: ProgramHeader)
    requires ForThisMachine(h) && h.phoff == EHDR_SIZE && h.phnum == 1
    ensures var f := TwoHeaders(h, p, q);
            && |f| == 176 && HeaderOk(f) && PhNum(f) == 1 && PhOffset(f, 0) == 64
            && PhdrAt(f, 64) == AsPhdr(p) && PhdrAt(f, 120) == AsPhdr(q)
  {
    hide EhdrBytes, PhdrBytes, PhdrAt, PhOffset, PhNum, HeaderOk, Mul16;
    var f := TwoHeaders(h, p, q);
    EhdrRead(h, PhdrBytes(p) + PhdrBytes(q));
    PhdrRead(p, PhdrBytes(q));
    PhdrRead(q, []);
    assert f[64..] == PhdrBytes(p) + PhdrBytes(q);
    assert f[120..] == f[64..][56..] == PhdrBytes(q) == PhdrBytes(q) + [];
    PhdrPast(f, 64);
    PhdrPast(f, 120);
    assert Mul16(0, h.phentsize) == 0;
  }

  lemma SliceHeader(m: seq<byte>, f: seq<byte>, data: nat, at: nat)
    requires data + |f| <= |m| && m[data..data + |f|] == f && at + PHDR_SIZE <= |f|
    ensures PhdrAt(m, data + at) == PhdrAt(f, at)
  {
    hide PhdrAt;
    PhdrPast(m, data + at);
    PhdrPast(f, at);
    var b, c := m[data + at..], f[at..];
    forall k | 0 <= k < PHDR_SIZE
      ensures b[k] == c[k]
    {
      assert c[k] == f[at + k] == m[data..data + |f|][at + k] == m[data + (at + k)] == b[k];
    }
    SamePhdr(b, c);
  }
}
