/**
 The walks over the boot loader's tag list: which console to use, which memory regions there
 are, and which modules were loaded.

 A walk is over the bytes from the current tag on. It can run past the bytes there are, and a
 tag of size 0 would make the kernel look at the same tag for ever; both are outcomes here.
 */
module Multiboot {
  import opened Machine
  import opened Pmm

  const TAG_END := 0
  const TAG_CMDLINE := 1
  const TAG_MODULE := 3
  const TAG_MMAP := 6

  const MAX_REGIONS: nat := 64

  /** "console=serial" */
  const SERIAL: seq<byte> :=
    [0x63, 0x6F, 0x6E, 0x73, 0x6F, 0x6C, 0x65, 0x3D, 0x73, 0x65, 0x72, 0x69, 0x61, 0x6C]

  datatype Console = Vga | Serial

  datatype Walk<+T> = Found(value: T) | OffEnd | Stuck

  /** What a module tag hands to the registry. */
  datatype Loaded = Loaded(start: nat, end: nat, cmdline: seq<byte>)

  datatype Boot = Boot(regions: seq<Region>, modules: seq<Loaded>)

  /* Reading tags. */

  function Kind(b: seq<byte>): nat
    requires |b| >= 8
  {
    Field(b, 0, 4)
  }

  function Size(b: seq<byte>): u32
    requires |b| >= 8
  {
    LeBound(b[4..8]);
    Pow256Values();
    Field(b, 4, 4)
  }

  /** `(size + 7) & ~7`, the distance to the next tag, in 32-bit arithmetic. */
  function Stride(b: seq<byte>): nat
    requires |b| >= 8
  {
    Add32(Size(b), 7) / 8 * 8
  }

  /** The bytes up to the first zero, if there is one. */
  function CString(b: seq<byte>): (s: Option<seq<byte>>)
    ensures s.Some? ==> |s.value| < |b| && b[..|s.value|] == s.value && b[|s.value|] == 0 && 0 !in s.value
  {
    if b == [] then None
    else if b[0] == 0 then Some([])
    else
      var rest := CString(b[1..]);
      if rest.None? then None else Some([b[0]] + rest.value)
  }

  /** `needle` occurs in `hay`, from a position inside it. */
  ghost predicate Contains(hay: seq<byte>, needle: seq<byte>) {
    exists i :: 0 <= i < |hay| && Occurs(hay, needle, i)
  }

  predicate Occurs(hay: seq<byte>, needle: seq<byte>, i: nat) {
    i + |needle| <= |hay| && hay[i..i + |needle|] == needle
  }

  /** The memory-map entries from `e` on, while bytes of the tag are left and regions fit. */
  function ReadEntries(e: seq<byte>, left: int, entrySize: nat, room: nat): (r: Option<seq<Region>>)
    ensures r.Some? ==> |r.value| <= room
    decreases room
  {
    if left <= 0 || room == 0 then Some([])
    else if |e| < 20 then None
    else
      var rest := ReadEntries(if entrySize <= |e| then e[entrySize..] else [], left - entrySize, entrySize, room - 1);
      if rest.None? then None else Some([ReadEntry(e)] + rest.value)
  }

  function ReadEntry(e: seq<byte>): Region
    requires |e| >= 20
  {
    LeBound(e[0..8]);
    LeBound(e[8..16]);
    LeBound(e[16..20]);
    Pow256Values();
    Region(Field(e, 0, 8), Field(e, 8, 8), Field(e, 16, 4))
  }

  /** The regions one tag adds when `have` are already known. */
  function TagRegions(b: seq<byte>, have: nat): (r: Option<seq<Region>>)
    requires |b| >= 8 && have <= MAX_REGIONS
    ensures r.Some? ==> have + |r.value| <= MAX_REGIONS
  {
    if Kind(b) != TAG_MMAP then Some([])
    else if |b| < 16 then None
    else ReadEntries(b[16..], Size(b) - 16, Field(b, 8, 4), MAX_REGIONS - have)
  }

  function TagModules(b: seq<byte>): Option<seq<Loaded>>
    requires |b| >= 8
  {
    if Kind(b) != TAG_MODULE then Some([])
    else if |b| < 16 then None
    else
      var s := CString(b[16..]);
      if s.None? then None else Some([Loaded(Field(b, 8, 4), Field(b, 12, 4), s.value)])
  }

  /* The two walks. */

  ghost function ConsoleWalk(b: seq<byte>): Walk<Console>
    decreases |b|
  {
    if |b| < 8 then OffEnd
    else if Kind(b) == TAG_END then Found(Vga)
    else if Kind(b) == TAG_CMDLINE then
      var s := CString(b[8..]);
      if s.None? then OffEnd else Found(if Contains(s.value, SERIAL) then Serial else Vga)
    else if Stride(b) == 0 then Stuck
    else if Stride(b) > |b| then OffEnd
    else ConsoleWalk(b[Stride(b)..])
  }

  function BootWalk(b: seq<byte>, boot: Boot): (r: Walk<Boot>)
    requires |boot.regions| <= MAX_REGIONS
    ensures r.Found? ==> |r.value.regions| <= MAX_REGIONS
    decreases |b|
  {
    if |b| < 8 then OffEnd
    else if Kind(b) == TAG_END then Found(boot)
    else
      var regions, modules := TagRegions(b, |boot.regions|), TagModules(b);
      if regions.None? || modules.None? then OffEnd
      else
        var next := Boot(boot.regions + regions.value, boot.modules + modules.value);
        if Stride(b) == 0 then Stuck
        else if Stride(b) > |b| then OffEnd
        else BootWalk(b[Stride(b)..], next)
  }

  /** The console for the boot information at `addr`, of which `mem` is the bytes: VGA if there is none. */
  ghost function ConsoleOf(addr: u64, mem: seq<byte>): Walk<Console> {
    if addr == 0 then Found(Vga) else if |mem| < 8 then OffEnd else ConsoleWalk(mem[8..])
  }

  /** What `hal_arch_init` makes of it. */
  function BootOf(mem: seq<byte>): Walk<Boot> {
    if |mem| < 8 then OffEnd else BootWalk(mem[8..], Boot([], []))
  }

  /* The kernel's loops. */

  method CmdlineHas(hay: seq<byte>, needle: seq<byte>) returns (r: bool)
    ensures r <==> Contains(hay, needle)
  {
    for i := 0 to |hay|
      invariant forall k :: 0 <= k < i ==> !Occurs(hay, needle, k)
    {
      var n := 0;
      while n < |needle| && i + n < |hay| && hay[i + n] == needle[n]
        invariant 0 <= n <= |needle| && i + n <= |hay|
        invariant forall k :: i <= k < i + n ==> hay[k] == needle[k - i]
      {
        n := n + 1;
      }
      if n == |needle| {
        assert Occurs(hay, needle, i);
        return true;
      }
      assert !Occurs(hay, needle, i) by {
        if i + |needle| <= |hay| {
          assert hay[i..i + |needle|][n] == hay[i + n];
        }
      }
    }
    return false;
  }

  method EarlyParseConsole(addr: u64, mem: seq<byte>) returns (r: Walk<Console>)
    ensures r == ConsoleOf(addr, mem)
  {
    if addr == 0 {
      return Found(Vga);
    }
    if |mem| < 8 {
      return OffEnd;
    }
    var tag := 8;
    while true
      invariant 8 <= tag <= |mem|
      invariant ConsoleWalk(mem[tag..]) == ConsoleWalk(mem[8..])
      decreases |mem| - tag
    {
      var b := mem[tag..];
      if |b| < 8 {
        return OffEnd;
      }
      if Kind(b) == TAG_END {
        return Found(Vga);
      }
      if Kind(b) == TAG_CMDLINE {
        var s := CString(b[8..]);
        if s.None? {
          return OffEnd;
        }
        var serial := CmdlineHas(s.value, SERIAL);
        return Found(if serial then Serial else Vga);
      }
      if Stride(b) == 0 {
        return Stuck;
      }
      if Stride(b) > |b| {
        return OffEnd;
      }
      assert mem[tag..][Stride(b)..] == mem[tag + Stride(b)..];
      tag := tag + Stride(b);
    }
  }

  /** The entry loop of one memory-map tag, filling what is left of the 64 regions. */
  method MmapEntries(b: seq<byte>, regions: seq<Region>) returns (ok: bool, filled: seq<Region>)
    requires |b| >= 16 && |regions| <= MAX_REGIONS
    ensures var r := ReadEntries(b[16..], Size(b) - 16, Field(b, 8, 4), MAX_REGIONS - |regions|);
            (ok <==> r.Some?) && (ok ==> filled == regions + r.value)
  {
    hide ReadEntry, Field, Size;
    filled := regions;
    var entrySize := Field(b, 8, 4);
    // the entry pointer, as the bytes from it on and the bytes left of the tag
    var e, left: int := b[16..], Size(b) - 16;
    ghost var room: nat := MAX_REGIONS - |regions|;
    ghost var all := ReadEntries(e, left, entrySize, room);
    while left > 0 && |filled| < MAX_REGIONS
      invariant |filled| <= MAX_REGIONS && room == MAX_REGIONS - |filled|
      invariant var rest := ReadEntries(e, left, entrySize, room);
                && (all.Some? <==> rest.Some?)
                && (all.Some? ==> regions + all.value == filled + rest.value)
      decreases room
    {
      if |e| < 20 {
        return false, filled;
      }
      ghost var rest := ReadEntries(if entrySize <= |e| then e[entrySize..] else [], left - entrySize, entrySize, room - 1);
      var entry := ReadEntry(e);
      assert rest.Some? ==> filled + ([entry] + rest.value) == filled + [entry] + rest.value;
      filled := filled + [entry];
      e := if entrySize <= |e| then e[entrySize..] else [];
      left := left - entrySize;
      room := room - 1;
    }
    ok := true;
  }

  method HalArchInit(mem: seq<byte>) returns (r: Walk<Boot>)
    ensures r == BootOf(mem)
  {
    hide Field, ReadEntries, CString, Size, Stride;
    if |mem| < 8 {
      return OffEnd;
    }
    var tag := 8;
    var regions: seq<Region>, modules: seq<Loaded> := [], [];
    while true
      invariant 8 <= tag <= |mem| && |regions| <= MAX_REGIONS
      invariant BootWalk(mem[tag..], Boot(regions, modules)) == BootWalk(mem[8..], Boot([], []))
      decreases |mem| - tag
    {
      var b := mem[tag..];
      if |b| < 8 {
        return OffEnd;
      }
      if Kind(b) == TAG_END {
        return Found(Boot(regions, modules));
      }
      ghost var had := Boot(regions, modules);
      if Kind(b) == TAG_MMAP {
        if |b| < 16 {
          return OffEnd;
        }
        var ok;
        ok, regions := MmapEntries(b, regions);
        if !ok {
          return OffEnd;
        }
      }
      if Kind(b) == TAG_MODULE {
        if |b| < 16 {
          return OffEnd;
        }
        var s := CString(b[16..]);
        if s.None? {
          return OffEnd;
        }
        modules := modules + [Loaded(Field(b, 8, 4), Field(b, 12, 4), s.value)];
      }
      assert had.regions + [] == had.regions && had.modules + [] == had.modules;
      if Stride(b) == 0 {
        return Stuck;
      }
      if Stride(b) > |b| {
        return OffEnd;
      }
      assert mem[tag..][Stride(b)..] == mem[tag + Stride(b)..];
      tag := tag + Stride(b);
    }
  }
}
