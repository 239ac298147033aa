/**
 The boot loader's side: a tag list as the Multiboot2 specification lays it out (section 3.6,
 "Boot information format"), and the proof that the kernel's walks read back what was written.
 */
module MultibootProps {
  import opened Machine
  import opened Pmm
  import opened Multiboot

  /** A memory-map entry: the region, then its reserved word and whatever a larger entry size adds. */
  datatype Entry = Entry(region: Region, extra: seq<byte>)

  datatype Tag =
    | Cmdline(text: seq<byte>)
    | Module(start: u32, end: u32, cmdline: seq<byte>)
    | Mmap(entrySize: u32, version: u32, entries: seq<Entry>)
    | Other(kind: u32, body: seq<byte>)
  {
    function Kind(): u32 {
      match this
      case Cmdline(_) => 1
      case Module(_, _, _) => 3
      case Mmap(_, _, _) => 6
      case Other(kind, _) => kind
    }

    function Body(): seq<byte> {
      match this
      case Cmdline(text) => text + [0]
      case Module(start, end, cmdline) => LeBytes(start, 4) + LeBytes(end, 4) + (cmdline + [0])
      case Mmap(entrySize, version, entries) => LeBytes(entrySize, 4) + LeBytes(version, 4) + EntriesBytes(entries)
      case Other(_, body) => body
    }

    ghost predicate WellFormed() {
      && |Body()| + 16 < U32
      && match this
         case Cmdline(text) => 0 !in text
         case Module(_, _, cmdline) => 0 !in cmdline
         case Mmap(entrySize, _, entries) =>
           entrySize >= 24 && forall e :: e in entries ==> |e.extra| == entrySize - 20
         case Other(kind, _) => kind != 0 && kind != 1 && kind != 3 && kind != 6
    }

    function Regions(): seq<Region> {
      if Mmap? then EntryRegions(entries) else []
    }

    function Modules(): seq<Loaded> {
      if Module? then [Loaded(start, end, cmdline)] else []
    }
  }

  function EntryBytes(e: Entry): seq<byte> {
    LeBytes(e.region.base, 8) + LeBytes(e.region.length, 8) + LeBytes(e.region.kind, 4) + e.extra
  }

  function EntriesBytes(es: seq<Entry>): seq<byte> {
    if es == [] then [] else EntryBytes(es[0]) + EntriesBytes(es[1..])
  }

  function EntryRegions(es: seq<Entry>): seq<Region> {
    if es == [] then [] else [es[0].region] + EntryRegions(es[1..])
  }

  /** Tags start 8-byte aligned. */
  function Padding(n: nat): (p: seq<byte>)
    ensures |p| < 8 && (n + |p|) % 8 == 0
  {
    seq((8 - n % 8) % 8, _ => 0)
  }

  function TagBytes(t: Tag): seq<byte> {
    LeBytes(t.Kind(), 4) + LeBytes((8 + |t.Body()|), 4) + (t.Body() + Padding(|t.Body()|))
  }

  const END_BYTES: seq<byte> := [0, 0, 0, 0, 8, 0, 0, 0]

  function TagsBytes(ts: seq<Tag>): seq<byte> {
    if ts == [] then END_BYTES else TagBytes(ts[0]) + TagsBytes(ts[1..])
  }

  function AllRegions(ts: seq<Tag>): seq<Region> {
    if ts == [] then [] else ts[0].Regions() + AllRegions(ts[1..])
  }

  function AllModules(ts: seq<Tag>): seq<Loaded> {
    if ts == [] then [] else ts[0].Modules() + AllModules(ts[1..])
  }

  /** The first command line, if any tag carries one. */
  function FirstCmdline(ts: seq<Tag>): Option<seq<byte>> {
    if ts == [] then None else if ts[0].Cmdline? then Some(ts[0].text) else FirstCmdline(ts[1..])
  }

  function Take<T>(s: seq<T>, n: nat): seq<T> {
    if |s| <= n then s else s[..n]
  }

  /* Slices of concatenations. */

  lemma FieldRead(pre: seq<byte>, v: nat, k: nat, post: seq<byte>)
    requires v < Pow256(k)
    ensures Field(pre + LeBytes(v, k) + post, |pre|, k) == v
  {
  }

  /** Two 4-byte fields and what follows them. */
  lemma TwoFields(x: u32, y: u32, body: seq<byte>, tail: seq<byte>)
    ensures var b := LeBytes(x, 4) + LeBytes(y, 4) + body + tail;
            |b| >= 8 && Field(b, 0, 4) == x && Field(b, 4, 4) == y && b[8..] == body + tail
  {
    hide LeBytes, Le, Pow256, Field;
    var lx, ly := LeBytes(x, 4), LeBytes(y, 4);
    var b := lx + ly + body + tail;
    Pow256Values();
    FieldRead([], x, 4, ly + body + tail);
    assert b == [] + lx + (ly + body + tail);
    FieldRead(lx, y, 4, body + tail);
    assert b == lx + ly + (body + tail);
  }

  /** A written tag at the front of a tag list, as the walks see it. */
  lemma TagHeader(t: Tag, tail: seq<byte>)
    requires t.WellFormed()
    ensures var b := TagBytes(t) + tail;
            && |b| >= 8 && Multiboot.Kind(b) == t.Kind() && Size(b) == 8 + |t.Body()|
            && b[8..] == t.Body() + (Padding(|t.Body()|) + tail)
            && 0 < Stride(b) == |TagBytes(t)| <= |b| && b[Stride(b)..] == tail
  {
    hide LeBytes, Le, Field, Padding;
    var body, pad := t.Body(), Padding(|t.Body()|);
    TwoFields(t.Kind(), 8 + |body|, body + pad, tail);
    assert body + pad + tail == body + (pad + tail);
    PaddedLength(|body|, |pad|);
  }

  lemma PaddedLength(n: nat, p: nat)
    requires n + 16 < U32 && p < 8 && (n + p) % 8 == 0
    ensures Add32(8 + n, 7) / 8 * 8 == 8 + n + p
  {
  }

  lemma {:induction false} CStringOf(text: seq<byte>, rest: seq<byte>)
    requires 0 !in text
    ensures CString(text + [0] + rest) == Some(text)
    decreases |text|
  {
    var b := text + [0] + rest;
    if text == [] {
    } else {
      CStringOf(text[1..], rest);
      assert b[1..] == text[1..] + [0] + rest;
      assert b[0] == text[0] && text[0] in text;
      assert text == [text[0]] + text[1..];
    }
  }

  lemma EntryRead(e: Entry, rest: seq<byte>)
    requires |e.extra| >= 4
    ensures |EntryBytes(e) + rest| >= 20 && ReadEntry(EntryBytes(e) + rest) == e.region
  {
    hide LeBytes, Le, Pow256, Field;
    var x, y, z := LeBytes(e.region.base, 8), LeBytes(e.region.length, 8), LeBytes(e.region.kind, 4);
    var b := EntryBytes(e) + rest;
    Pow256Values();
    FieldRead([], e.region.base, 8, y + z + e.extra + rest);
    assert b == [] + x + (y + z + e.extra + rest);
    FieldRead(x, e.region.length, 8, z + e.extra + rest);
    assert b == x + y + (z + e.extra + rest);
    FieldRead(x + y, e.region.kind, 4, e.extra + rest);
    assert b == x + y + z + (e.extra + rest);
  }

  lemma {:induction false} EntriesRead(es: seq<Entry>, rest: seq<byte>, entrySize: nat, left: int, room: nat)
    requires entrySize >= 24 && forall e :: e in es ==> |e.extra| == entrySize - 20
    requires left == |EntriesBytes(es)|
    ensures ReadEntries(EntriesBytes(es) + rest, left, entrySize, room) == Some(Take(EntryRegions(es), room))
    decreases |es|
  {
    hide ReadEntry, EntryBytes;
    TakeNone(EntryRegions(es));
    if es != [] && room > 0 {
      TakeCons(es[0].region, EntryRegions(es[1..]), room);
      var b := EntriesBytes(es) + rest;
      assert es[0] in es;
      EntryLength(es[0]);
      EntryRead(es[0], EntriesBytes(es[1..]) + rest);
      assert b == EntryBytes(es[0]) + (EntriesBytes(es[1..]) + rest);
      assert b[entrySize..] == EntriesBytes(es[1..]) + rest;
      EntriesRead(es[1..], rest, entrySize, left - entrySize, room - 1);
    }
  }

  /** An entry is read while any byte of the tag is left, even one that runs past its end, and room for it. */
  lemma EntryWhileLeft(e: seq<byte>, left: int, entrySize: nat, room: nat)
    ensures left <= 0 || room == 0 ==> ReadEntries(e, left, entrySize, room) == Some([])
    ensures left >= 1 && room > 0 && |e| < 20 ==> ReadEntries(e, left, entrySize, room) == None
    ensures left >= 1 && room > 0 && |e| >= 20 && left <= entrySize ==>
              ReadEntries(e, left, entrySize, room) == Some([ReadEntry(e)])
    ensures left >= 1 && room > 0 && |e| >= 20 && entrySize == 0 && ReadEntries(e, left, 0, room - 1).Some? ==>
              ReadEntries(e, left, 0, room) == Some([ReadEntry(e)] + ReadEntries(e, left, 0, room - 1).value)
  {
    hide ReadEntry;
    assert entrySize == 0 ==> e[entrySize..] == e;
    assert |e| >= 20 ==> [ReadEntry(e)] + [] == [ReadEntry(e)];
  }

  lemma TakeNone(s: seq<Region>)
    ensures Take(s, 0) == []
  {
  }

  lemma TakeCons(r: Region, s: seq<Region>, n: nat)
    requires n > 0
    ensures [r] + Take(s, n - 1) == Take([r] + s, n)
  {
  }

  lemma EntryLength(e: Entry)
    ensures |EntryBytes(e)| == 20 + |e.extra|
  {
  }

  /** What one written tag adds to a walk that already has `have` regions. */
  lemma TagAdds(t: Tag, tail: seq<byte>, have: nat)
    requires t.WellFormed() && have <= MAX_REGIONS
    ensures var b := TagBytes(t) + tail;
            && |b| >= 8
            && TagRegions(b, have) == Some(Take(t.Regions(), MAX_REGIONS - have))
            && TagModules(b) == Some(t.Modules())
  {
    hide LeBytes, Le, Field, Padding, TagBytes, ReadEntries, EntriesBytes, CString;
    TagHeader(t, tail);
    var b, rest := TagBytes(t) + tail, Padding(|t.Body()|) + tail;
    match t
    case Mmap(entrySize, version, entries) =>
      TwoFields(entrySize, version, EntriesBytes(entries), rest);
      After8(b);
      EntriesRead(entries, rest, entrySize, |EntriesBytes(entries)|, MAX_REGIONS - have);
    case Module(start, end, cmdline) =>
      TwoFields(start, end, cmdline + [0], rest);
      After8(b);
      CStringOf(cmdline, rest);
    case Cmdline(_) =>
    case Other(_, _) =>
  }

  lemma After8(b: seq<byte>)
    requires |b| >= 16
    ensures b[8..][8..] == b[16..] && Field(b[8..], 0, 4) == Field(b, 8, 4) && Field(b[8..], 4, 4) == Field(b, 12, 4)
  {
    hide Le;
    assert b[8..][0..4] == b[8..12] && b[8..][4..8] == b[12..16];
  }

  /* The round trips. */

  ghost predicate AllWellFormed(ts: seq<Tag>) {
    forall t :: t in ts ==> t.WellFormed()
  }

  lemma EndTag(rest: seq<byte>)
    ensures var b := END_BYTES + rest; |b| >= 8 && Multiboot.Kind(b) == TAG_END
  {
    hide Le;
    assert (END_BYTES + rest)[0..0 + 4] == [0, 0, 0, 0];
    FourZeros();
  }

  lemma FourZeros()
    ensures Le([0, 0, 0, 0]) == 0
  {
  }

  lemma TakeMore(a: seq<Region>, b: seq<Region>, c: seq<Region>, n: nat)
    requires |a| <= n
    ensures a + Take(b, n - |a|) == Take(a + b, n)
    ensures Take(Take(a + b, n) + c, n) == Take(a + (b + c), n)
  {
  }

  lemma {:induction false} BootWalkReads(ts: seq<Tag>, rest: seq<byte>, boot: Boot)
    requires AllWellFormed(ts) && |boot.regions| <= MAX_REGIONS
    ensures BootWalk(TagsBytes(ts) + rest, boot) ==
            Found(Boot(Take(boot.regions + AllRegions(ts), MAX_REGIONS), boot.modules + AllModules(ts)))
    decreases |ts|
  {
    hide TagBytes, TagRegions, TagModules, Stride, Multiboot.Kind, Tag.Regions, Tag.Modules, Tag.WellFormed, Tag.Kind;
    if ts == [] {
      EndTag(rest);
      assert boot.regions + [] == boot.regions && boot.modules + [] == boot.modules;
    } else {
      var t, tail := ts[0], TagsBytes(ts[1..]) + rest;
      var b := TagBytes(t) + tail;
      assert t in ts && forall u :: u in ts[1..] ==> u in ts;
      assert TagsBytes(ts) + rest == b;
      TagHeader(t, tail);
      NotEnd(t);
      TagAdds(t, tail, |boot.regions|);
      TakeMore(boot.regions, t.Regions(), AllRegions(ts[1..]), MAX_REGIONS);
      var next := Boot(Take(boot.regions + t.Regions(), MAX_REGIONS), boot.modules + t.Modules());
      assert BootWalk(b, boot) == BootWalk(tail, next);
      BootWalkReads(ts[1..], rest, next);
      assert boot.modules + t.Modules() + AllModules(ts[1..]) == boot.modules + (t.Modules() + AllModules(ts[1..]));
    }
  }

  lemma NotEnd(t: Tag)
    requires t.WellFormed()
    ensures t.Kind() != TAG_END && (t.Kind() == TAG_CMDLINE <==> t.Cmdline?)
  {
  }

  lemma {:induction false} ConsoleWalkReads(ts: seq<Tag>, rest: seq<byte>)
    requires AllWellFormed(ts)
    ensures ConsoleWalk(TagsBytes(ts) + rest) ==
            Found(if FirstCmdline(ts).Some? && Contains(FirstCmdline(ts).value, SERIAL) then Serial else Vga)
    decreases |ts|
  {
    hide TagBytes, Stride, Multiboot.Kind, Contains, Tag.WellFormed, Tag.Kind;
    if ts == [] {
      EndTag(rest);
    } else {
      var t, tail := ts[0], TagsBytes(ts[1..]) + rest;
      var b := TagBytes(t) + tail;
      assert t in ts && forall u :: u in ts[1..] ==> u in ts;
      assert TagsBytes(ts) + rest == b;
      TagHeader(t, tail);
      NotEnd(t);
      if t.Cmdline? {
        CmdlineText(t);
        CStringOf(t.text, Padding(|t.Body()|) + tail);
      } else {
        ConsoleWalkReads(ts[1..], rest);
      }
    }
  }

  lemma CmdlineText(t: Tag)
    requires t.Cmdline? && t.WellFormed()
    ensures 0 !in t.text
  {
  }

  /** The first command line, if there is one, asks for the serial console. */
  ghost predicate AsksSerial(ts: seq<Tag>) {
    FirstCmdline(ts).Some? && Contains(FirstCmdline(ts).value, Ascii("console=serial"))
  }

  /** `info` is a boot information structure that holds the tags: 8 bytes of its own, the tags, anything after. */
  ghost predicate HoldsTags(info: seq<byte>, ts: seq<Tag>) {
    AllWellFormed(ts) && exists header, rest :: |header| == 8 && info == header + (TagsBytes(ts) + rest)
  }

  /**
   Round trip: from a boot information structure holding the tags, the kernel gets the first 64
   regions of all memory-map tags in order, every module in order, and the serial console
   exactly if the first command line asks for it.
   */
  lemma BootInformationReads(addr: u64, info: seq<byte>, ts: seq<Tag>)
    requires HoldsTags(info, ts)
    ensures BootOf(info) == Found(Boot(Take(AllRegions(ts), 64), AllModules(ts)))
    ensures ConsoleOf(addr, info) ==
            Found(if addr != 0 && AsksSerial(ts) then Serial else Vga)
  {
    hide Ascii, BootWalk, ConsoleWalk, TagsBytes, Contains, AllRegions, AllModules, FirstCmdline;
    SerialSpelled();
    var header, rest :| |header| == 8 && info == header + (TagsBytes(ts) + rest);
    assert info[8..] == TagsBytes(ts) + rest;
    BootWalkReads(ts, rest, Boot([], []));
    ConsoleWalkReads(ts, rest);
    assert [] + AllRegions(ts) == AllRegions(ts) && [] + AllModules(ts) == AllModules(ts);
  }

  lemma SerialSpelled()
    ensures SERIAL == Ascii("console=serial")
  {
  }

  /** A text contains another exactly if it can be split around it; only an empty text contains nothing, not even that. */
  lemma ContainsIff(hay: seq<byte>, needle: seq<byte>)
    ensures Contains(hay, needle) <==> hay != [] && exists a, b :: hay == a + needle + b
  {
    if hay != [] && needle == [] {
      assert Occurs(hay, needle, 0) && hay == [] + needle + hay;
    }
    if Contains(hay, needle) {
      var i :| 0 <= i < |hay| && Occurs(hay, needle, i);
      assert hay == hay[..i] + needle + hay[i + |needle|..];
    }
    if a, b :| needle != [] && hay == a + needle + b {
      assert Occurs(hay, needle, |a|);
    }
  }

  /* Tag lists that do not end. */

  function ListBytes(ts: seq<Tag>): seq<byte> {
    if ts == [] then [] else TagBytes(ts[0]) + ListBytes(ts[1..])
  }

  /** How a walk ends that finds no command line and no end tag: `rest` is what follows the tags. */
  ghost predicate Ends(rest: seq<byte>, stuck: bool) {
    if stuck then |rest| >= 8 && rest[4..8] == [0, 0, 0, 0] && 2 <= rest[0] <= 255 && rest[0] != 3 && rest[0] != 6
    else |rest| < 8
  }

  lemma EndsSo(rest: seq<byte>, boot: Boot, stuck: bool)
    requires Ends(rest, stuck) && |boot.regions| <= MAX_REGIONS
    ensures BootWalk(rest, boot) == if stuck then Stuck else OffEnd
    ensures ConsoleWalk(rest) == if stuck then Stuck else OffEnd
  {
    if stuck {
      hide Le;
      assert rest[4..4 + 4] == [0, 0, 0, 0];
      FourZeros();
      KindOfBytes(rest);
    }
  }

  lemma KindOfBytes(b: seq<byte>)
    requires |b| >= 8 && 2 <= b[0] && b[0] != 3 && b[0] != 6
    ensures Multiboot.Kind(b) != 0 && Multiboot.Kind(b) != 1 && Multiboot.Kind(b) != 3 && Multiboot.Kind(b) != 6
  {
    var f := b[0..4];
    assert Le(f) == f[0] + 0x100 * Le(f[1..]);
  }

  /** Without an end tag the boot walk runs off the bytes there are; a tag of size 0 holds it for ever. */
  lemma {:induction false} UnendedBootWalk(ts: seq<Tag>, rest: seq<byte>, boot: Boot, stuck: bool)
    requires AllWellFormed(ts) && Ends(rest, stuck) && |boot.regions| <= MAX_REGIONS
    ensures BootWalk(ListBytes(ts) + rest, boot) == if stuck then Stuck else OffEnd
    decreases |ts|
  {
    hide TagBytes, TagRegions, TagModules, Stride, Multiboot.Kind, Tag.Regions, Tag.Modules, Tag.WellFormed, Tag.Kind, Ends;
    if ts == [] {
      assert [] + rest == rest;
      EndsSo(rest, boot, stuck);
    } else {
      var t, tail := ts[0], ListBytes(ts[1..]) + rest;
      var b := TagBytes(t) + tail;
      assert t in ts && forall u :: u in ts[1..] ==> u in ts;
      assert ListBytes(ts) + rest == b;
      TagHeader(t, tail);
      NotEnd(t);
      TagAdds(t, tail, |boot.regions|);
      var next := Boot(boot.regions + Take(t.Regions(), MAX_REGIONS - |boot.regions|), boot.modules + t.Modules());
      assert BootWalk(b, boot) == BootWalk(tail, next);
      UnendedBootWalk(ts[1..], rest, next, stuck);
    }
  }

  /** So does the console walk, if no tag before carries a command line. */
  lemma {:induction false} UnendedConsoleWalk(ts: seq<Tag>, rest: seq<byte>, stuck: bool)
    requires AllWellFormed(ts) && Ends(rest, stuck) && FirstCmdline(ts) == None
    ensures ConsoleWalk(ListBytes(ts) + rest) == if stuck then Stuck else OffEnd
    decreases |ts|
  {
    hide TagBytes, Stride, Multiboot.Kind, Contains, Tag.WellFormed, Tag.Kind, Ends;
    if ts == [] {
      assert [] + rest == rest;
      EndsSo(rest, Boot([], []), stuck);
    } else {
      var t, tail := ts[0], ListBytes(ts[1..]) + rest;
      var b := TagBytes(t) + tail;
      assert t in ts && forall u :: u in ts[1..] ==> u in ts;
      assert ListBytes(ts) + rest == b;
      TagHeader(t, tail);
      NotEnd(t);
      UnendedConsoleWalk(ts[1..], rest, stuck);
    }
  }
}
