/**
 The ELF64 loader. Memory is one identity-mapped byte array, 128 MB long, in which the file
 being loaded also lives; a byte at or above its end is not mapped and touching it faults.

 `Load` below is the loader's exact behaviour as a function: it re-reads the file's headers
 from memory on every turn, and a program header again after its own copy, copies bytes one by
 one in ascending order, and keeps the 64-bit wrap-around of the source's address arithmetic.
 */
module Elf {
  import opened Machine

  const PROG_LOAD_MIN := 0x10_0000
  const PROG_LOAD_MAX := 0x800_0000

  const EHDR_SIZE := 64
  const PHDR_SIZE := 56

  const ELF_CLASS := 2
  const ELF_MACHINE := 62
  const ET_EXEC := 2
  const PT_LOAD := 1

  /** `elf_load`'s answer, 0 meaning failure; or a page fault part-way. */
  datatype Result = Returned(entry: u64) | Fault

  /* Fields of the file header, which the file `f` holds at its start. */

  predicate HeaderOk(f: seq<byte>): (ok: bool)
    ensures ok ==> |f| >= EHDR_SIZE
  {
    && |f| >= EHDR_SIZE
    && f[0] == 0x7F && f[1] == 0x45 && f[2] == 0x4C && f[3] == 0x46
    && f[4] == ELF_CLASS
    && Field(f, 16, 2) == ET_EXEC
    && Field(f, 18, 2) == ELF_MACHINE
    && Field(f, 32, 8) != 0
    && Field(f, 54, 2) >= PHDR_SIZE
  }

  function Entry(f: seq<byte>): u64
    requires |f| >= EHDR_SIZE
  {
    Field64(f, 24)
  }

  function PhNum(f: seq<byte>): u16
    requires |f| >= EHDR_SIZE
  {
    Field16(f, 56)
  }

  /** `e_phoff + i * e_phentsize`, in 64-bit arithmetic. */
  function PhOffset(f: seq<byte>, i: u16): u64
    requires |f| >= EHDR_SIZE
  {
    Add64(Field64(f, 32), Mul16(i, Field16(f, 54)))
  }

  function Mul16(a: u16, b: u16): (r: u32)
    ensures r == a * b
  {
    MulLe(a, 0xFFFF, b);
    a * b
  }

  function Field16(b: seq<byte>, at: nat): u16
    requires at + 2 <= |b|
  {
    LeBound(b[at..at + 2]);
    Pow256Values();
    Field(b, at, 2)
  }

  function Field64(b: seq<byte>, at: nat): u64
    requires at + 8 <= |b|
  {
    LeBound(b[at..at + 8]);
    Pow256Values();
    Field(b, at, 8)
  }

  /* Program headers. */

  datatype Phdr = Phdr(kind: nat, offset: u64, vaddr: u64, filesz: u64, memsz: u64)

  function PhdrAt(b: seq<byte>, at: nat): Phdr
    requires at + PHDR_SIZE <= |b|
  {
    Phdr(Field(b, at, 4), Field64(b, at + 8), Field64(b, at + 16), Field64(b, at + 32), Field64(b, at + 40))
  }

  /** The three checks on a loadable segment; the second subtraction wraps when vaddr is too big. */
  predicate Accepts(ph: Phdr, size: nat) {
    && ph.vaddr >= PROG_LOAD_MIN
    && ph.memsz <= Sub64(PROG_LOAD_MAX, ph.vaddr)
    && ph.filesz <= size && ph.offset <= size - ph.filesz
  }

  function Sub64(a: u64, b: u64): u64 {
    if a >= b then a - b else a - b + U64
  }

  /* Byte loops. */

  /** `n` turns of `*d++ = *s++`: the memory after, and whether no byte faulted. */
  function Copy(m: seq<byte>, d: nat, s: nat, n: nat): (r: (seq<byte>, bool))
    ensures |r.0| == |m|
    decreases n
  {
    if n == 0 then (m, true)
    else if d >= |m| || s >= |m| then (m, false)
    else Copy(m[d := m[s]], d + 1, s + 1, n - 1)
  }

  /** `n` turns of `*d++ = 0`. */
  function Zero(m: seq<byte>, d: nat, n: nat): (r: (seq<byte>, bool))
    ensures |r.0| == |m|
    decreases n
  {
    if n == 0 then (m, true)
    else if d >= |m| then (m, false)
    else Zero(m[d := 0], d + 1, n - 1)
  }

  /**
   One turn's segment, whose header lies at `at`, of the file at `data`: its file bytes, then
   zeros up to its memory size. The header is read through a pointer, so the zero fill goes by
   what the header says after the file bytes are in place.
   */
  function Place(m: seq<byte>, at: nat, data: u64): (r: (seq<byte>, bool))
    requires at + PHDR_SIZE <= |m|
    ensures |r.0| == |m|
  {
    var ph := PhdrAt(m, at);
    var (m1, ok) := Copy(m, ph.vaddr, Add64(data, ph.offset), ph.filesz);
    if !ok then (m1, false)
    else
      var now := PhdrAt(m1, at);
      if now.memsz > now.filesz then Zero(m1, Add64(now.vaddr, now.filesz), now.memsz - now.filesz) else (m1, true)
  }

  /* The loader. */

  function Load(m: seq<byte>, data: nat, size: nat): (r: (seq<byte>, Result))
    requires |m| == PROG_LOAD_MAX && data + size <= |m|
    ensures |r.0| == |m|
  {
    if HeaderOk(m[data..data + size]) then LoadFrom(m, data, size, 0, false) else (m, Returned(0))
  }

  /** The program-header loop from header `i` on. */
  function LoadFrom(m: seq<byte>, data: nat, size: nat, i: u16, loaded: bool): (r: (seq<byte>, Result))
    requires |m| == PROG_LOAD_MAX && data + size <= |m| && size >= EHDR_SIZE
    ensures |r.0| == |m|
    decreases U16 - i
  {
    var f := m[data..data + size];
    if i >= PhNum(f) then (m, Returned(if loaded then Entry(f) else 0))
    else
      var off := PhOffset(f, i);
      if Add64(off, PHDR_SIZE) > size then (m, Returned(0))
      else
        var at := Add64(data, off);
        if at >= |m| then (m, Fault)
        else
          var ph := PhdrAt(m, at);
          if ph.kind != PT_LOAD then LoadFrom(m, data, size, i + 1, loaded)
          else if !Accepts(ph, size) then (m, Returned(0))
          else
            var (m1, ok) := Place(m, at, data);
            if !ok then (m1, Fault) else LoadFrom(m1, data, size, i + 1, true)
  }

  /* The loader as the kernel runs it. */

  method KmMemcpy(mem: array<byte>, dst: nat, src: nat, count: nat) returns (ok: bool)
    modifies mem
    ensures (mem[..], ok) == Copy(old(mem[..]), dst, src, count)
  {
    var d: nat, s: nat, n: nat := dst, src, count;
    while n > 0
      invariant Copy(mem[..], d, s, n) == Copy(old(mem[..]), dst, src, count)
    {
      if d >= mem.Length || s >= mem.Length {
        return false;
      }
      ghost var before := mem[..];
      mem[d] := mem[s];
      assert mem[..] == before[d := before[s]];
      d, s, n := d + 1, s + 1, n - 1;
    }
    return true;
  }

  method KmMemset(mem: array<byte>, dst: nat, count: nat) returns (ok: bool)
    modifies mem
    ensures (mem[..], ok) == Zero(old(mem[..]), dst, count)
  {
    var d: nat, n: nat := dst, count;
    while n > 0
      invariant Zero(mem[..], d, n) == Zero(old(mem[..]), dst, count)
    {
      if d >= mem.Length {
        return false;
      }
      ghost var before := mem[..];
      mem[d] := 0;
      assert mem[..] == before[d := 0];
      d, n := d + 1, n - 1;
    }
    return true;
  }

  method PlaceSegment(mem: array<byte>, at: nat, data: u64) returns (ok: bool)
    requires at + PHDR_SIZE <= mem.Length
    modifies mem
    ensures (mem[..], ok) == Place(old(mem[..]), at, data)
  {
    var ph := PhdrAt(mem[..], at);
    ok := KmMemcpy(mem, ph.vaddr, Add64(data, ph.offset), ph.filesz);
    if ok {
      ph := PhdrAt(mem[..], at);
      if ph.memsz > ph.filesz {
        ok := KmMemset(mem, Add64(ph.vaddr, ph.filesz), ph.memsz - ph.filesz);
      }
    }
  }

  method ElfLoad(mem: array<byte>, data: nat, size: nat) returns (r: Result)
    requires mem.Length == PROG_LOAD_MAX && data + size <= mem.Length
    modifies mem
    ensures (mem[..], r) == Load(old(mem[..]), data, size)
  {
    hide HeaderOk, PhNum, PhOffset, PhdrAt, Accepts, Entry, Place;
    var m := mem[..];
    if !HeaderOk(m[data..data + size]) {
      return Returned(0);
    }
    var loaded := false;
    var i: u16 := 0;
    while i < PhNum(m[data..data + size])
      invariant m == mem[..]
      invariant LoadFrom(m, data, size, i, loaded) == Load(old(mem[..]), data, size)
      decreases U16 - i
    {
      var off := PhOffset(m[data..data + size], i);
      if Add64(off, PHDR_SIZE) > size {
        return Returned(0);
      }
      var at := Add64(data, off);
      if at >= mem.Length {
        return Fault;
      }
      var ph := PhdrAt(m, at);
      if ph.kind == PT_LOAD {
        if !Accepts(ph, size) {
          return Returned(0);
        }
        var ok := PlaceSegment(mem, at, data);
        m := mem[..];
        if !ok {
          return Fault;
        }
        loaded := true;
      }
      i := i + 1;
    }
    return Returned(if loaded then Entry(m[data..data + size]) else 0);
  }
}
