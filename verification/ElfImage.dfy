/**
 What loading a file means: a pure memory image computed from the file's bytes alone, and
 the proof that the byte-by-byte loader produces it. Also where the loader may write at all.
 */
module ElfImage {
  import opened Machine
  import opened Elf

  /* Segments and their image. */

  /** A loadable segment covers the longer of its file size and its memory size. */
  function Extent(s: Phdr): nat {
    if s.memsz > s.filesz then s.memsz else s.filesz
  }

  predicate Covers(s: Phdr, a: nat) {
    s.vaddr <= a < s.vaddr + Extent(s)
  }

  /** The byte segment `s` of file `f` puts at address `a`: a file byte, or zero past the file size. */
  function SegmentByte(f: seq<byte>, s: Phdr, a: nat): byte
    requires Covers(s, a) && s.offset + s.filesz <= |f|
  {
    if a - s.vaddr < s.filesz then f[s.offset + (a - s.vaddr)] else 0
  }

  /** Every segment's file bytes lie in the file. */
  predicate InFile(f: seq<byte>, segs: seq<Phdr>) {
    forall s :: s in segs ==> s.offset + s.filesz <= |f|
  }

  /** The byte at `a` once `segs` are in place over `old`: from the last segment that covers it. */
  function ImageByte(segs: seq<Phdr>, f: seq<byte>, m: seq<byte>, a: nat): byte
    requires a < |m| && InFile(f, segs)
  {
    if segs == [] then m[a]
    else
      var last := segs[|segs| - 1];
      if Covers(last, a) then SegmentByte(f, last, a) else ImageByte(segs[..|segs| - 1], f, m, a)
  }

  function Image(segs: seq<Phdr>, f: seq<byte>, m: seq<byte>): (r: seq<byte>)
    requires InFile(f, segs)
    ensures |r| == |m|
    ensures forall a :: 0 <= a < |m| ==> r[a] == ImageByte(segs, f, m, a)
  {
    seq(|m|, a requires 0 <= a < |m| => ImageByte(segs, f, m, a))
  }

  /* The file alone. */

  /** Reading header `i` does not run past 2^64. */
  predicate HeaderInRange(f: seq<byte>, i: u16)
    requires |f| >= EHDR_SIZE
  {
    PhOffset(f, i) + PHDR_SIZE < U64
  }

  predicate TableInRange(f: seq<byte>)
    requires |f| >= EHDR_SIZE
  {
    forall i: u16 :: i < PhNum(f) ==> HeaderInRange(f, i)
  }

  /** The segments a file loads, in header order, and whether every header was accepted. */
  function SegmentsFrom(f: seq<byte>, i: u16): (r: (seq<Phdr>, bool))
    requires |f| >= EHDR_SIZE
    ensures InFile(f, r.0)
    ensures forall s :: s in r.0 ==> s.kind == PT_LOAD && Accepts(s, |f|)
    decreases U16 - i
  {
    if i >= PhNum(f) then ([], true)
    else if PhOffset(f, i) + PHDR_SIZE > |f| then ([], false)
    else
      var ph := PhdrAt(f, PhOffset(f, i));
      if ph.kind != PT_LOAD then SegmentsFrom(f, i + 1)
      else if !Accepts(ph, |f|) then ([], false)
      else
        var (rest, complete) := SegmentsFrom(f, i + 1);
        ([ph] + rest, complete)
  }

  function Segments(f: seq<byte>): (r: (seq<Phdr>, bool))
    ensures InFile(f, r.0)
    ensures forall s :: s in r.0 ==> s.kind == PT_LOAD && Accepts(s, |f|)
  {
    if HeaderOk(f) then SegmentsFrom(f, 0) else ([], false)
  }

  /** What `elf_load` returns for the file: its entry, or 0 unless all headers pass and one loads. */
  function Answer(f: seq<byte>): u64 {
    var (segs, complete) := Segments(f);
    if complete && segs != [] then Entry(f) else 0
  }

  /* Where a segment goes. */

  /** Everything the segment writes is mapped. */
  predicate Fits(s: Phdr) {
    Extent(s) > 0 ==> s.vaddr + Extent(s) <= PROG_LOAD_MAX
  }

  /** The segment writes nothing in [data, data + size). */
  predicate Avoids(s: Phdr, data: nat, size: nat) {
    Extent(s) == 0 || s.vaddr + Extent(s) <= data || data + size <= s.vaddr
  }

  /** Of the segments the checks accept, those that fit are exactly the ones at most 128 MB by both sizes. */
  lemma FitsIff(s: Phdr, size: nat)
    requires Accepts(s, size)
    ensures Fits(s) <==> Extent(s) == 0 || (s.vaddr <= PROG_LOAD_MAX && s.filesz <= PROG_LOAD_MAX - s.vaddr)
    ensures s.vaddr <= PROG_LOAD_MAX && s.filesz <= s.memsz ==> Fits(s)
  {
  }

  /* The byte loops. */

  /** A copy between ranges apart copies all of its target that is mapped, and faults iff some of it is not. */
  lemma {:induction false} CopyEffect(m: seq<byte>, d: nat, s: nat, n: nat)
    requires s + n <= |m| && (d + n <= s || s + n <= d)
    ensures Copy(m, d, s, n).1 <==> n == 0 || d + n <= |m|
    ensures forall a :: 0 <= a < |m| && d <= a < d + n ==> Copy(m, d, s, n).0[a] == m[s + (a - d)]
    ensures forall a :: 0 <= a < |m| && !(d <= a < d + n) ==> Copy(m, d, s, n).0[a] == m[a]
    decreases n
  {
    if n > 0 && d < |m| {
      var m' := m[d := m[s]];
      CopyEffect(m', d + 1, s + 1, n - 1);
      var r := Copy(m', d + 1, s + 1, n - 1).0;
      forall a | d <= a < d + n && a < |m|
        ensures r[a] == m[s + (a - d)]
      {
        if a == d {
          assert r[a] == m'[a];
        } else {
          assert s + 1 + (a - (d + 1)) == s + (a - d);
        }
      }
    }
  }

  /** Bytes go up one by one: a copy onto the next byte repeats the first one all the way. */
  lemma {:induction false} CopyRepeats(m: seq<byte>, d: nat, s: nat, n: nat)
    requires d == s + 1 && s + n < |m|
    ensures forall a :: s <= a <= s + n ==> Copy(m, d, s, n).0[a] == m[s]
    decreases n
  {
    if n == 0 {
    } else {
      CopyRepeats(m[d := m[s]], d + 1, s + 1, n - 1);
      CopyBounds(m[d := m[s]], d + 1, s + 1, n - 1);
    }
  }

  /** A zero fill zeroes all of its range that is mapped, and faults iff some of it is not. */
  lemma {:induction false} ZeroEffect(m: seq<byte>, d: nat, n: nat)
    ensures Zero(m, d, n).1 <==> n == 0 || d + n <= |m|
    ensures forall a :: 0 <= a < |m| ==> Zero(m, d, n).0[a] == if d <= a < d + n then 0 else m[a]
    decreases n
  {
    if n > 0 && d < |m| {
      ZeroEffect(m[d := 0], d + 1, n - 1);
    }
  }

  /** A copy that leaves the map faults, whatever it overlaps; and it never writes outside its target. */
  lemma {:induction false} CopyBounds(m: seq<byte>, d: nat, s: nat, n: nat)
    ensures n > 0 && d + n > |m| ==> !Copy(m, d, s, n).1
    ensures forall a :: 0 <= a < |m| && !(d <= a < d + n) ==> Copy(m, d, s, n).0[a] == m[a]
    decreases n
  {
    if n > 0 && d < |m| && s < |m| {
      CopyBounds(m[d := m[s]], d + 1, s + 1, n - 1);
    }
  }

  /* One segment. */

  /** Placing a segment by a header that stays as it is. */
  function PlaceBy(m: seq<byte>, s: Phdr, data: nat): (r: (seq<byte>, bool))
    ensures |r.0| == |m|
  {
    var (m1, ok) := Copy(m, s.vaddr, data + s.offset, s.filesz);
    if ok && s.memsz > s.filesz then Zero(m1, s.vaddr + s.filesz, s.memsz - s.filesz) else (m1, ok)
  }

  /** The segment's file bytes are copied clear of the header at `at`. */
  predicate SparesHeader(s: Phdr, at: nat) {
    s.filesz == 0 || s.vaddr + s.filesz <= at || at + PHDR_SIZE <= s.vaddr
  }

  lemma SameHeader(m: seq<byte>, m': seq<byte>, at: nat)
    requires |m| == |m'| && at + PHDR_SIZE <= |m| && forall a :: at <= a < at + PHDR_SIZE ==> m'[a] == m[a]
    ensures PhdrAt(m', at) == PhdrAt(m, at)
  {
    hide Le;
    assert m'[at..at + 4] == m[at..at + 4] && m'[at + 8..at + 16] == m[at + 8..at + 16];
    assert m'[at + 16..at + 24] == m[at + 16..at + 24] && m'[at + 32..at + 40] == m[at + 32..at + 40];
    assert m'[at + 40..at + 48] == m[at + 40..at + 48];
  }

  /** A turn whose copy spares its own header goes by that header throughout. */
  lemma PlaceSparingHeader(m: seq<byte>, at: nat, data: nat, size: nat)
    requires |m| == PROG_LOAD_MAX && data + size <= |m| && at + PHDR_SIZE <= |m|
    requires Accepts(PhdrAt(m, at), size) && SparesHeader(PhdrAt(m, at), at)
    ensures Place(m, at, data) == PlaceBy(m, PhdrAt(m, at), data)
  {
    hide PhdrAt;
    var s := PhdrAt(m, at);
    assert Add64(data, s.offset) == data + s.offset;
    CopyBounds(m, s.vaddr, data + s.offset, s.filesz);
    SameHeader(m, Copy(m, s.vaddr, data + s.offset, s.filesz).0, at);
  }

  /**
   Placing one segment that avoids the file puts exactly its image in memory, as far as memory is
   mapped, and faults iff that is not all of it.
   */
  lemma PlaceIsImage(m: seq<byte>, f: seq<byte>, s: Phdr, data: nat)
    requires |m| == PROG_LOAD_MAX && data + |f| <= |m| && m[data..data + |f|] == f
    requires s.offset + s.filesz <= |f| && Avoids(s, data, |f|)
    ensures PlaceBy(m, s, data).1 <==> Fits(s)
    ensures forall a :: 0 <= a < |m| && Covers(s, a) ==> PlaceBy(m, s, data).0[a] == SegmentByte(f, s, a)
    ensures forall a :: 0 <= a < |m| && !Covers(s, a) ==> PlaceBy(m, s, data).0[a] == m[a]
    ensures PlaceBy(m, s, data).0[data..data + |f|] == f
  {
    hide Copy, Zero;
    var src := data + s.offset;
    assert s.filesz == 0 || s.vaddr + s.filesz <= src || src + s.filesz <= s.vaddr;
    var (m1, ok) := Copy(m, s.vaddr, src, s.filesz);
    CopyEffect(m, s.vaddr, src, s.filesz);
    if s.memsz > s.filesz {
      ZeroEffect(m1, s.vaddr + s.filesz, s.memsz - s.filesz);
    }
    var m2 := PlaceBy(m, s, data).0;
    forall a | 0 <= a < |m| && Covers(s, a)
      ensures m2[a] == SegmentByte(f, s, a)
    {
      if s.vaddr <= a < s.vaddr + s.filesz {
        var k := s.offset + (a - s.vaddr);
        assert m1[a] == m[src + (a - s.vaddr)];
        assert src + (a - s.vaddr) == data + k;
        assert m[data + k] == m[data..data + |f|][k];
      }
    }
    forall k | 0 <= k < |f|
      ensures m2[data..data + |f|][k] == f[k]
    {
      assert m2[data + k] == m[data + k] == m[data..data + |f|][k];
    }
  }

  /* The loader's meaning. */

  /** All of them fit, and none touches the file being loaded. */
  predicate Clear(segs: seq<Phdr>, data: nat, size: nat) {
    forall s :: s in segs ==> Fits(s) && Avoids(s, data, size)
  }

  lemma SliceField(m: seq<byte>, f: seq<byte>, data: nat, at: nat, k: nat)
    requires data + |f| <= |m| && m[data..data + |f|] == f && at + k <= |f|
    ensures m[data + at..data + at + k] == f[at..at + k]
  {
    var x, y := m[data + at..data + at + k], f[at..at + k];
    forall j | 0 <= j < k
      ensures x[j] == y[j]
    {
      assert y[j] == f[at + j] == m[data..data + |f|][at + j] == m[data + at + j] == x[j];
    }
  }

  /** A header that does not run past 2^64 is read from the file's own bytes. */
  lemma HeaderReadFromFile(m: seq<byte>, f: seq<byte>, data: nat, i: u16)
    requires |m| == PROG_LOAD_MAX && data + |f| <= |m| && m[data..data + |f|] == f
    requires |f| >= EHDR_SIZE && HeaderInRange(f, i) && PhOffset(f, i) + PHDR_SIZE <= |f|
    ensures Add64(data, PhOffset(f, i)) == data + PhOffset(f, i)
    ensures PhdrAt(m, data + PhOffset(f, i)) == PhdrAt(f, PhOffset(f, i))
  {
    var off := PhOffset(f, i);
    SliceField(m, f, data, off, 4);
    SliceField(m, f, data, off + 8, 8);
    SliceField(m, f, data, off + 16, 8);
    SliceField(m, f, data, off + 32, 8);
    SliceField(m, f, data, off + 40, 8);
  }

  /** One turn of the header loop, in terms of the file, for a segment that avoids it. */
  lemma LoadFromStep(m: seq<byte>, f: seq<byte>, data: nat, i: u16, loaded: bool)
    requires |m| == PROG_LOAD_MAX && data + |f| <= |m| && m[data..data + |f|] == f
    requires |f| >= EHDR_SIZE && TableInRange(f)
    requires i < PhNum(f) && PhOffset(f, i) + PHDR_SIZE <= |f| ==>
      var ph := PhdrAt(f, PhOffset(f, i));
      ph.kind == PT_LOAD && Accepts(ph, |f|) ==> Avoids(ph, data, |f|)
    ensures LoadFrom(m, data, |f|, i, loaded) ==
            if i >= PhNum(f) then (m, Returned(if loaded then Entry(f) else 0))
            else if PhOffset(f, i) + PHDR_SIZE > |f| then (m, Returned(0))
            else
              var ph := PhdrAt(f, PhOffset(f, i));
              if ph.kind != PT_LOAD then LoadFrom(m, data, |f|, i + 1, loaded)
              else if !Accepts(ph, |f|) then (m, Returned(0))
              else if !PlaceBy(m, ph, data).1 then (PlaceBy(m, ph, data).0, Fault)
              else LoadFrom(PlaceBy(m, ph, data).0, data, |f|, i + 1, true)
  {
    hide Place, PlaceBy, PhdrAt;
    if i < PhNum(f) && HeaderInRange(f, i) && PhOffset(f, i) + PHDR_SIZE <= |f| {
      HeaderReadFromFile(m, f, data, i);
      var at := data + PhOffset(f, i);
      var ph := PhdrAt(m, at);
      if ph.kind == PT_LOAD && Accepts(ph, |f|) {
        PlaceSparingHeader(m, at, data, |f|);
      }
    }
  }

  /** Placing segments in order, until one faults. */
  function PlaceAll(m: seq<byte>, segs: seq<Phdr>, data: nat): (r: (seq<byte>, bool))
    ensures |r.0| == |m|
    decreases |segs|
  {
    if segs == [] then (m, true)
    else
      var (m1, ok) := PlaceBy(m, segs[0], data);
      if ok then PlaceAll(m1, segs[1..], data) else (m1, false)
  }

  predicate AllAvoid(segs: seq<Phdr>, data: nat, size: nat) {
    forall s :: s in segs ==> Avoids(s, data, size)
  }

  /** How a load ends: in a fault, or with the entry iff all headers passed and a segment was loaded. */
  function Finish(r: (seq<byte>, bool), f: seq<byte>, complete: bool, loaded: bool): (seq<byte>, Result)
    requires |f| >= EHDR_SIZE
  {
    (r.0, if !r.1 then Fault else Returned(if complete && loaded then Entry(f) else 0))
  }

  /** As long as no segment touches the file, the header loop just places the file's segments in order. */
  lemma {:induction false} LoadFromPlacesAll(m: seq<byte>, f: seq<byte>, data: nat, i: u16, loaded: bool)
    requires |m| == PROG_LOAD_MAX && data + |f| <= |m| && m[data..data + |f|] == f
    requires |f| >= EHDR_SIZE && TableInRange(f)
    requires AllAvoid(SegmentsFrom(f, i).0, data, |f|)
    ensures LoadFrom(m, data, |f|, i, loaded) ==
            Finish(PlaceAll(m, SegmentsFrom(f, i).0, data), f, SegmentsFrom(f, i).1, loaded || SegmentsFrom(f, i).0 != [])
    decreases U16 - i
  {
    hide LoadFrom, PlaceBy, PhdrAt, PhOffset, PhNum, Entry;
    LoadFromStep(m, f, data, i, loaded);
    if i < PhNum(f) {
      if PhOffset(f, i) + PHDR_SIZE <= |f| {
        var ph := PhdrAt(f, PhOffset(f, i));
        if ph.kind != PT_LOAD {
          LoadFromPlacesAll(m, f, data, i + 1, loaded);
        } else if Accepts(ph, |f|) {
          var segs, rest := SegmentsFrom(f, i).0, SegmentsFrom(f, i + 1).0;
          assert segs[0] == ph && segs[1..] == rest;
          assert forall s :: s in rest ==> s in segs;
          var (m1, ok) := PlaceBy(m, ph, data);
          if ok {
            PlaceIsImage(m, f, ph, data);
            LoadFromPlacesAll(m1, f, data, i + 1, true);
            assert PlaceAll(m, segs, data) == PlaceAll(m1, rest, data);
          }
        }
      }
    }
  }

  lemma LoadPlacesAll(m: seq<byte>, f: seq<byte>, data: nat)
    requires |m| == PROG_LOAD_MAX && data + |f| <= |m| && m[data..data + |f|] == f
    requires HeaderOk(f) ==> TableInRange(f)
    requires AllAvoid(Segments(f).0, data, |f|)
    ensures var (m', ok) := PlaceAll(m, Segments(f).0, data);
            Load(m, data, |f|) == (m', if ok then Returned(Answer(f)) else Fault)
  {
    if HeaderOk(f) {
      LoadFromPlacesAll(m, f, data, 0, false);
    }
  }

  /** The segments up to the first one that does not fit, and that one. */
  function UpToFault(segs: seq<Phdr>): (r: seq<Phdr>)
    ensures forall s :: s in r ==> s in segs
    ensures (forall s :: s in segs ==> Fits(s)) ==> r == segs
    decreases |segs|
  {
    if segs == [] then [] else [segs[0]] + if Fits(segs[0]) then UpToFault(segs[1..]) else []
  }

  /** Segments that avoid the file get placed until one does not fit, and leave their image over the old memory. */
  lemma {:induction false} PlaceAllIsImage(m: seq<byte>, f: seq<byte>, segs: seq<Phdr>, data: nat)
    requires |m| == PROG_LOAD_MAX && data + |f| <= |m| && m[data..data + |f|] == f
    requires InFile(f, segs) && AllAvoid(segs, data, |f|)
    ensures PlaceAll(m, segs, data).0 == Image(UpToFault(segs), f, m)
    ensures PlaceAll(m, segs, data).1 <==> forall s :: s in segs ==> Fits(s)
    decreases |segs|
  {
    hide PlaceBy, Fits, SegmentByte;
    if segs == [] {
      assert Image(UpToFault(segs), f, m) == m;
    } else {
      var m1, rest := PlaceBy(m, segs[0], data).0, if Fits(segs[0]) then UpToFault(segs[1..]) else [];
      var placed := UpToFault(segs);
      assert segs[0] in segs && forall s :: s in segs <==> s == segs[0] || s in segs[1..];
      PlaceIsImage(m, f, segs[0], data);
      assert placed[0] == segs[0] && placed[1..] == rest;
      forall a | 0 <= a < |m|
        ensures ImageByte(rest, f, m1, a) == ImageByte(placed, f, m, a)
      {
        assert m1[a] == if Covers(segs[0], a) then SegmentByte(f, segs[0], a) else m[a];
        ImageOverFirst(placed, f, m, m1, a);
      }
      assert Image(rest, f, m1) == Image(placed, f, m);
      if Fits(segs[0]) {
        PlaceAllIsImage(m1, f, segs[1..], data);
      } else {
        assert Image([], f, m1) == m1;
      }
    }
  }

  lemma {:induction false} ImageOverFirst(segs: seq<Phdr>, f: seq<byte>, m: seq<byte>, m1: seq<byte>, a: nat)
    requires a < |m| == |m1| && segs != [] && InFile(f, segs)
    requires m1[a] == if Covers(segs[0], a) then SegmentByte(f, segs[0], a) else m[a]
    ensures ImageByte(segs[1..], f, m1, a) == ImageByte(segs, f, m, a)
    decreases |segs|
  {
    var k := |segs| - 1;
    if k == 0 {
    } else {
      ImageOverFirst(segs[..k], f, m, m1, a);
      assert segs[..k][1..] == segs[1..][..k - 1];
    }
  }

  /**
   The main theorem: for a file in memory whose header table does not wrap and whose segments
   avoid it, loading leaves exactly the file's image over the old memory -- of all its segments, or
   up to the first one that does not fit, where it faults -- and returns the file's answer. So too
   when a later header is rejected after earlier segments were written.
   */
  lemma LoadLeavesImage(m: seq<byte>, f: seq<byte>, data: nat)
    requires |m| == PROG_LOAD_MAX && data + |f| <= |m| && m[data..data + |f|] == f
    requires HeaderOk(f) ==> TableInRange(f)
    requires AllAvoid(Segments(f).0, data, |f|)
    ensures Load(m, data, |f|).0 == Image(UpToFault(Segments(f).0), f, m)
    ensures Load(m, data, |f|).1 == if forall s :: s in Segments(f).0 ==> Fits(s) then Returned(Answer(f)) else Fault
  {
    LoadPlacesAll(m, f, data);
    PlaceAllIsImage(m, f, Segments(f).0, data);
  }

  /** If all segments fit, that is the image of all of them, and no fault. */
  lemma LoadIsImage(m: seq<byte>, f: seq<byte>, data: nat)
    requires |m| == PROG_LOAD_MAX && data + |f| <= |m| && m[data..data + |f|] == f
    requires HeaderOk(f) ==> TableInRange(f)
    requires Clear(Segments(f).0, data, |f|)
    ensures Load(m, data, |f|) == (Image(Segments(f).0, f, m), Returned(Answer(f)))
  {
    LoadLeavesImage(m, f, data);
  }

  /** Each address holds the byte of the highest-index segment covering it, or keeps its old byte. */
  lemma {:induction false} ImageIsLastCovering(segs: seq<Phdr>, f: seq<byte>, m: seq<byte>, a: nat, i: nat)
    requires a < |m| && InFile(f, segs) && i < |segs|
    requires Covers(segs[i], a) && forall j :: i < j < |segs| ==> !Covers(segs[j], a)
    ensures ImageByte(segs, f, m, a) == SegmentByte(f, segs[i], a)
    decreases |segs|
  {
    if i < |segs| - 1 {
      ImageIsLastCovering(segs[..|segs| - 1], f, m, a, i);
    }
  }

  lemma {:induction false} ImageKeepsUncovered(segs: seq<Phdr>, f: seq<byte>, m: seq<byte>, a: nat)
    requires a < |m| && InFile(f, segs)
    requires forall s :: s in segs ==> !Covers(s, a)
    ensures ImageByte(segs, f, m, a) == m[a]
    decreases |segs|
  {
    if segs == [] {
    } else {
      ImageKeepsUncovered(segs[..|segs| - 1], f, m, a);
    }
  }

  predicate Disjoint(s: Phdr, t: Phdr) {
    Extent(s) == 0 || Extent(t) == 0 || s.vaddr + Extent(s) <= t.vaddr || t.vaddr + Extent(t) <= s.vaddr
  }

  predicate PairwiseDisjoint(segs: seq<Phdr>) {
    forall i, j :: 0 <= i < j < |segs| ==> Disjoint(segs[i], segs[j])
  }

  /** Of pairwise disjoint segments at most one value covers an address. */
  lemma CoveredOnce(segs: seq<Phdr>, s: Phdr, t: Phdr, a: nat)
    requires PairwiseDisjoint(segs) && s in segs && t in segs && Covers(s, a) && Covers(t, a)
    ensures s == t
  {
    var i :| 0 <= i < |segs| && segs[i] == s;
    var j :| 0 <= j < |segs| && segs[j] == t;
  }

  /** The address is covered by none of the segments, or by a last one. */
  lemma {:induction false} LastCovering(segs: seq<Phdr>, a: nat) returns (k: int)
    ensures k < 0 ==> forall s :: s in segs ==> !Covers(s, a)
    ensures k >= 0 ==> k < |segs| && Covers(segs[k], a) && forall j :: k < j < |segs| ==> !Covers(segs[j], a)
    decreases |segs|
  {
    k := |segs| - 1;
    if k >= 0 && !Covers(segs[k], a) {
      var last := k;
      k := LastCovering(segs[..last], a);
    }
  }

  /** Two lists of the same disjoint segments have the same image, from two files that agree on the segments' bytes. */
  lemma OrderIrrelevant(segs: seq<Phdr>, segs': seq<Phdr>, f: seq<byte>, f': seq<byte>, m: seq<byte>, m': seq<byte>, a: nat)
    requires InFile(f, segs) && InFile(f', segs') && PairwiseDisjoint(segs)
    requires forall s :: s in segs <==> s in segs'
    requires forall s :: s in segs ==> f[s.offset..s.offset + s.filesz] == f'[s.offset..s.offset + s.filesz]
    requires a < |m| && a < |m'| && m[a] == m'[a]
    ensures ImageByte(segs, f, m, a) == ImageByte(segs', f', m', a)
  {
    hide SegmentByte, ImageByte;
    var k := LastCovering(segs, a);
    var k' := LastCovering(segs', a);
    if k < 0 {
      ImageKeepsUncovered(segs, f, m, a);
      ImageKeepsUncovered(segs', f', m', a);
    } else {
      var s := segs[k];
      assert s in segs && s in segs';
      CoveredOnce(segs, s, segs'[k'], a);
      ImageIsLastCovering(segs, f, m, a, k);
      ImageIsLastCovering(segs', f', m', a, k');
      SameSegmentByte(f, f', s, a);
    }
  }

  lemma SameSegmentByte(f: seq<byte>, f': seq<byte>, s: Phdr, a: nat)
    requires Covers(s, a) && s.offset + s.filesz <= |f| && s.offset + s.filesz <= |f'|
    requires f[s.offset..s.offset + s.filesz] == f'[s.offset..s.offset + s.filesz]
    ensures SegmentByte(f, s, a) == SegmentByte(f', s, a)
  {
    var k := a - s.vaddr;
    if k < s.filesz {
      assert f[s.offset + k] == f[s.offset..s.offset + s.filesz][k];
      assert f'[s.offset + k] == f'[s.offset..s.offset + s.filesz][k];
    }
  }

  /* Header tables as a whole. */

  predicate TableInside(f: seq<byte>)
    requires |f| >= EHDR_SIZE
  {
    forall i: u16 :: i < PhNum(f) ==> PhOffset(f, i) + PHDR_SIZE <= |f|
  }

  function Header(f: seq<byte>, i: u16): Phdr
    requires |f| >= EHDR_SIZE && TableInside(f) && i < PhNum(f)
  {
    PhdrAt(f, PhOffset(f, i))
  }

  ghost predicate HasHeader(f: seq<byte>, from: nat, s: Phdr)
    requires |f| >= EHDR_SIZE && TableInside(f)
  {
    exists i: u16 :: from <= i < PhNum(f) && Header(f, i) == s
  }

  /** The table lies in the file, and every loadable header passes the checks. */
  ghost predicate TableAccepted(f: seq<byte>) {
    && HeaderOk(f) && TableInside(f)
    && forall s :: HasHeader(f, 0, s) && s.kind == PT_LOAD ==> Accepts(s, |f|)
  }

  /** Then no header is rejected, and the file's segments are its loadable headers. */
  lemma {:induction false} SegmentsAreHeaders(f: seq<byte>, i: u16)
    requires TableAccepted(f)
    ensures SegmentsFrom(f, i).1
    ensures forall s :: s in SegmentsFrom(f, i).0 <==> HasHeader(f, i, s) && s.kind == PT_LOAD
    decreases U16 - i
  {
    hide PhdrAt, PhOffset, Accepts;
    if i < PhNum(f) {
      SegmentsAreHeaders(f, i + 1);
      var ph, rest := Header(f, i), SegmentsFrom(f, i + 1);
      assert HasHeader(f, 0, ph);
      assert forall s :: HasHeader(f, i, s) <==> s == ph || HasHeader(f, i + 1, s);
      assert SegmentsFrom(f, i) == if ph.kind != PT_LOAD then rest else ([ph] + rest.0, rest.1);
    }
  }

  /**
   The order of the header table does not matter: two files with the same headers in any order,
   the same entry and the same segment bytes, in memories that agree outside the file, load to
   memories that agree outside the file, with the same answer -- if the segments are disjoint.
   */
  lemma TableOrderIrrelevant(m: seq<byte>, m': seq<byte>, f: seq<byte>, f': seq<byte>, data: nat)
    requires |m| == |m'| == PROG_LOAD_MAX && |f| == |f'| && data + |f| <= |m|
    requires m[data..data + |f|] == f && m'[data..data + |f|] == f'
    requires forall a :: 0 <= a < |m| && !(data <= a < data + |f|) ==> m[a] == m'[a]
    requires TableAccepted(f) && HeaderOk(f') && TableInside(f') && Entry(f) == Entry(f')
    requires forall s :: HasHeader(f, 0, s) <==> HasHeader(f', 0, s)
    requires Clear(Segments(f).0, data, |f|) && PairwiseDisjoint(Segments(f).0)
    requires forall s :: s in Segments(f).0 ==> f[s.offset..s.offset + s.filesz] == f'[s.offset..s.offset + s.filesz]
    ensures Load(m, data, |f|).1 == Load(m', data, |f|).1
    ensures forall a :: 0 <= a < |m| && !(data <= a < data + |f|) ==>
              Load(m, data, |f|).0[a] == Load(m', data, |f|).0[a]
  {
    hide HeaderOk, Entry, Load, Accepts, SegmentsFrom, ImageByte, PhOffset, HasHeader;
    SegmentsAreHeaders(f, 0);
    SegmentsAreHeaders(f', 0);
    var segs, segs' := Segments(f).0, Segments(f').0;
    assert forall s :: s in segs <==> s in segs';
    assert segs == [] <==> segs' == [] by {
      if segs != [] {
        assert segs[0] in segs';
      }
      if segs' != [] {
        assert segs'[0] in segs;
      }
    }
    LoadIsImage(m, f, data);
    LoadIsImage(m', f', data);
    forall a | 0 <= a < |m| && !(data <= a < data + |f|)
      ensures ImageByte(segs, f, m, a) == ImageByte(segs', f', m', a)
    {
      OrderIrrelevant(segs, segs', f, f', m, m', a);
    }
  }

  /* Memory below 1 MB. */

  /** The turn on the header at `at` zeroes address `a`, by what that header says after the copy. */
  predicate TurnZeroes(m: seq<byte>, at: nat, data: u64, a: nat)
    requires at + PHDR_SIZE <= |m|
  {
    var ph := PhdrAt(m, at);
    var (m1, ok) := Copy(m, ph.vaddr, Add64(data, ph.offset), ph.filesz);
    var now := PhdrAt(m1, at);
    var start := Add64(now.vaddr, now.filesz);
    ok && now.memsz > now.filesz && start <= a < start + (now.memsz - now.filesz)
  }

  /** Some turn of the load from header `i` on zeroes address `a`. */
  predicate LoadZeroes(m: seq<byte>, data: nat, size: nat, i: u16, a: nat)
    requires |m| == PROG_LOAD_MAX && data + size <= |m| && size >= EHDR_SIZE
    decreases U16 - i
  {
    var f := m[data..data + size];
    var at := if i < PhNum(f) then Add64(data, PhOffset(f, i)) else 0;
    if i >= PhNum(f) || Add64(PhOffset(f, i), PHDR_SIZE) > size || at >= |m| then false
    else if PhdrAt(m, at).kind != PT_LOAD then LoadZeroes(m, data, size, i + 1, a)
    else
      && Accepts(PhdrAt(m, at), size)
      && (TurnZeroes(m, at, data, a)
          || (Place(m, at, data).1 && LoadZeroes(Place(m, at, data).0, data, size, i + 1, a)))
  }

  /** Every accepted header the load from header `i` on comes to is spared by its own copy. */
  predicate LoadSparesHeaders(m: seq<byte>, data: nat, size: nat, i: u16)
    requires |m| == PROG_LOAD_MAX && data + size <= |m| && size >= EHDR_SIZE
    decreases U16 - i
  {
    var f := m[data..data + size];
    var at := if i < PhNum(f) then Add64(data, PhOffset(f, i)) else 0;
    if i >= PhNum(f) || Add64(PhOffset(f, i), PHDR_SIZE) > size || at >= |m| then true
    else if PhdrAt(m, at).kind != PT_LOAD then LoadSparesHeaders(m, data, size, i + 1)
    else
      Accepts(PhdrAt(m, at), size) ==>
        && SparesHeader(PhdrAt(m, at), at)
        && (Place(m, at, data).1 ==> LoadSparesHeaders(Place(m, at, data).0, data, size, i + 1))
  }

  /** What one turn does below 1 MB: the copy does not reach it, the zero fill may. */
  lemma TurnBelow(m: seq<byte>, at: nat, data: u64, a: nat)
    requires |m| == PROG_LOAD_MAX && at + PHDR_SIZE <= |m| && PhdrAt(m, at).vaddr >= PROG_LOAD_MIN && a < PROG_LOAD_MIN
    ensures Place(m, at, data).0[a] == if TurnZeroes(m, at, data, a) then 0 else m[a]
  {
    hide PhdrAt;
    var ph := PhdrAt(m, at);
    var (m1, ok) := Copy(m, ph.vaddr, Add64(data, ph.offset), ph.filesz);
    CopyBounds(m, ph.vaddr, Add64(data, ph.offset), ph.filesz);
    var now := PhdrAt(m1, at);
    if now.memsz > now.filesz {
      ZeroEffect(m1, Add64(now.vaddr, now.filesz), now.memsz - now.filesz);
    }
  }

  /** A header spared by its own copy zeroes nothing below 1 MB. */
  lemma SparedTurnBelow(m: seq<byte>, at: nat, data: nat, size: nat, a: nat)
    requires |m| == PROG_LOAD_MAX && data + size <= |m| && at + PHDR_SIZE <= |m| && a < PROG_LOAD_MIN
    requires Accepts(PhdrAt(m, at), size) && SparesHeader(PhdrAt(m, at), at)
    ensures !TurnZeroes(m, at, data, a)
  {
    hide PhdrAt;
    var s := PhdrAt(m, at);
    assert Add64(data, s.offset) == data + s.offset;
    CopyBounds(m, s.vaddr, data + s.offset, s.filesz);
    SameHeader(m, Copy(m, s.vaddr, data + s.offset, s.filesz).0, at);
  }

  /** Whatever the file says, each byte below 1 MB ends as 0 if some turn's fill covers it, and else as it was. */
  lemma {:induction false} LoadFromBelow(m: seq<byte>, data: nat, size: nat, i: u16, loaded: bool, a: nat)
    requires |m| == PROG_LOAD_MAX && data + size <= |m| && size >= EHDR_SIZE && a < PROG_LOAD_MIN
    ensures LoadFrom(m, data, size, i, loaded).0[a] == if LoadZeroes(m, data, size, i, a) then 0 else m[a]
    ensures LoadSparesHeaders(m, data, size, i) ==> !LoadZeroes(m, data, size, i, a)
    decreases U16 - i
  {
    hide Place, PhdrAt, PhNum, PhOffset, Entry, TurnZeroes;
    var f := m[data..data + size];
    if i < PhNum(f) && Add64(PhOffset(f, i), PHDR_SIZE) <= size && Add64(data, PhOffset(f, i)) < |m| {
      var at := Add64(data, PhOffset(f, i));
      var ph := PhdrAt(m, at);
      if ph.kind != PT_LOAD {
        LoadFromBelow(m, data, size, i + 1, loaded, a);
      } else if Accepts(ph, size) {
        TurnBelow(m, at, data, a);
        if SparesHeader(ph, at) {
          SparedTurnBelow(m, at, data, size, a);
        }
        if Place(m, at, data).1 {
          LoadFromBelow(Place(m, at, data).0, data, size, i + 1, true, a);
        }
      }
    }
  }

  /**
   Memory below 1 MB is kept exactly when no turn's zero fill covers a byte there that is not
   zero already -- which can only happen on a turn whose copy rewrites its own header.
   */
  lemma LoadKeepsLowIff(m: seq<byte>, data: nat, size: nat)
    requires |m| == PROG_LOAD_MAX && data + size <= |m|
    ensures Load(m, data, size).0[..PROG_LOAD_MIN] == m[..PROG_LOAD_MIN] <==>
            (HeaderOk(m[data..data + size]) ==>
               forall a: nat :: a < PROG_LOAD_MIN && LoadZeroes(m, data, size, 0, a) ==> m[a] == 0)
    ensures HeaderOk(m[data..data + size]) && LoadSparesHeaders(m, data, size, 0) ==>
            forall a: nat :: a < PROG_LOAD_MIN ==> !LoadZeroes(m, data, size, 0, a)
  {
    hide LoadZeroes, LoadFrom, LoadSparesHeaders;
    if HeaderOk(m[data..data + size]) {
      var r := Load(m, data, size).0;
      forall a: nat | a < PROG_LOAD_MIN
        ensures r[a] == if LoadZeroes(m, data, size, 0, a) then 0 else m[a]
        ensures LoadSparesHeaders(m, data, size, 0) ==> !LoadZeroes(m, data, size, 0, a)
      {
        LoadFromBelow(m, data, size, 0, false, a);
      }
      assert r[..PROG_LOAD_MIN] == m[..PROG_LOAD_MIN] <==> forall a: nat :: a < PROG_LOAD_MIN ==> r[a] == m[a] by {
        forall a: nat | a < PROG_LOAD_MIN
          ensures r[..PROG_LOAD_MIN][a] == r[a] && m[..PROG_LOAD_MIN][a] == m[a]
        {
        }
      }
    }
  }

  /* Segments that spare the headers, whatever else of the file they overwrite. */

  /** What the segment writes is clear of `n` bytes at `at`. */
  predicate ClearOf(s: Phdr, at: nat, n: nat) {
    Extent(s) == 0 || s.vaddr + Extent(s) <= at || at + n <= s.vaddr
  }

  /** The segment writes neither into the file header nor into the header table of the file at `data`. */
  predicate SparesTables(s: Phdr, f: seq<byte>, data: nat)
    requires |f| >= EHDR_SIZE
  {
    && ClearOf(s, data, EHDR_SIZE)
    && forall i: u16 :: i < PhNum(f) && PhOffset(f, i) + PHDR_SIZE <= |f| ==> ClearOf(s, data + PhOffset(f, i), PHDR_SIZE)
  }

  predicate AllSpareTables(f: seq<byte>, data: nat, i: u16)
    requires |f| >= EHDR_SIZE
  {
    forall s :: s in SegmentsFrom(f, i).0 ==> SparesTables(s, f, data)
  }

  /** The bytes `f` has from `at` on are still there in `g`. */
  predicate Agree(f: seq<byte>, g: seq<byte>, at: nat, n: nat)
    requires at + n <= |f| == |g|
  {
    forall k :: at <= k < at + n ==> g[k] == f[k]
  }

  /** `g` is a file with the file header and the header table of `f`. */
  predicate SameTables(f: seq<byte>, g: seq<byte>) {
    && |f| == |g| >= EHDR_SIZE && Agree(f, g, 0, EHDR_SIZE)
    && forall i: u16 :: i < PhNum(f) && PhOffset(f, i) + PHDR_SIZE <= |f| ==> Agree(f, g, PhOffset(f, i), PHDR_SIZE)
  }

  lemma SameFileHeader(f: seq<byte>, g: seq<byte>)
    requires |f| == |g| >= EHDR_SIZE && Agree(f, g, 0, EHDR_SIZE)
    ensures PhNum(g) == PhNum(f) && Entry(g) == Entry(f) && (HeaderOk(g) <==> HeaderOk(f))
    ensures forall i: u16 :: PhOffset(g, i) == PhOffset(f, i)
  {
    hide Le, Mul16;
    assert g[24..32] == f[24..32] && g[32..40] == f[32..40] && g[54..56] == f[54..56] && g[56..58] == f[56..58];
    assert g[16..18] == f[16..18] && g[18..20] == f[18..20];
  }

  /** Placing a segment writes where it covers, and nowhere else; it faults iff the segment does not fit. */
  lemma PlaceByWrites(m: seq<byte>, s: Phdr, data: nat, size: nat)
    requires |m| == PROG_LOAD_MAX && data + size <= |m| && s.offset + s.filesz <= size
    ensures forall a :: 0 <= a < |m| && !Covers(s, a) ==> PlaceBy(m, s, data).0[a] == m[a]
    ensures PlaceBy(m, s, data).1 <==> Fits(s)
  {
    hide Copy, Zero;
    var (m1, ok) := Copy(m, s.vaddr, data + s.offset, s.filesz);
    CopyBounds(m, s.vaddr, data + s.offset, s.filesz);
    CopyFaultsIff(m, s.vaddr, data + s.offset, s.filesz);
    if ok && s.memsz > s.filesz {
      ZeroEffect(m1, s.vaddr + s.filesz, s.memsz - s.filesz);
    }
  }

  /** A copy faults exactly when its target or its source leaves the map. */
  lemma {:induction false} CopyFaultsIff(m: seq<byte>, d: nat, s: nat, n: nat)
    ensures Copy(m, d, s, n).1 <==> n == 0 || (d + n <= |m| && s + n <= |m|)
    decreases n
  {
    if n > 0 && d < |m| && s < |m| {
      CopyFaultsIff(m[d := m[s]], d + 1, s + 1, n - 1);
    }
  }

  lemma StillAgrees(m: seq<byte>, m': seq<byte>, f: seq<byte>, data: nat, s: Phdr, at: nat, n: nat)
    requires |m| == |m'| && data + |f| <= |m| && at + n <= |f| && ClearOf(s, data + at, n)
    requires forall a :: 0 <= a < |m| && !Covers(s, a) ==> m'[a] == m[a]
    requires Agree(f, m[data..data + |f|], at, n)
    ensures Agree(f, m'[data..data + |f|], at, n)
  {
    forall k | at <= k < at + n
      ensures m'[data..data + |f|][k] == f[k]
    {
      assert m[data..data + |f|][k] == m[data + k] && m'[data..data + |f|][k] == m'[data + k];
    }
  }

  /** A segment that spares the headers leaves the file one with the same headers. */
  lemma PlaceKeepsTables(m: seq<byte>, f: seq<byte>, data: nat, s: Phdr)
    requires |m| == PROG_LOAD_MAX && data + |f| <= |m| && SameTables(f, m[data..data + |f|])
    requires s.offset + s.filesz <= |f| && SparesTables(s, f, data)
    ensures SameTables(f, PlaceBy(m, s, data).0[data..data + |f|])
  {
    hide Agree, PlaceBy, PhNum, PhOffset, ClearOf;
    var m' := PlaceBy(m, s, data).0;
    PlaceByWrites(m, s, data, |f|);
    StillAgrees(m, m', f, data, s, 0, EHDR_SIZE);
    forall i: u16 | i < PhNum(f) && PhOffset(f, i) + PHDR_SIZE <= |f|
      ensures Agree(f, m'[data..data + |f|], PhOffset(f, i), PHDR_SIZE)
    {
      StillAgrees(m, m', f, data, s, PhOffset(f, i), PHDR_SIZE);
    }
  }

  lemma SparedHeaderRead(m: seq<byte>, f: seq<byte>, data: nat, i: u16)
    requires |m| == PROG_LOAD_MAX && data + |f| <= |m| && SameTables(f, m[data..data + |f|])
    requires i < PhNum(f) && HeaderInRange(f, i) && PhOffset(f, i) + PHDR_SIZE <= |f|
    ensures Add64(data, PhOffset(f, i)) == data + PhOffset(f, i)
    ensures PhdrAt(m, data + PhOffset(f, i)) == PhdrAt(f, PhOffset(f, i))
  {
    hide PhNum, PhOffset, PhdrAt;
    var g, off := m[data..data + |f|], PhOffset(f, i);
    assert Agree(f, g, off, PHDR_SIZE);
    SameHeader(f, g, off);
    SameFileHeader(f, g);
    HeaderReadFromFile(m, g, data, i);
  }

  /** How a load ends whose segments spare the headers: in a fault iff one of them does not fit. */
  function EndOf(f: seq<byte>, i: u16, loaded: bool): Result
    requires |f| >= EHDR_SIZE
  {
    var (segs, complete) := SegmentsFrom(f, i);
    if exists s :: s in segs && !Fits(s) then Fault
    else Returned(if complete && (loaded || segs != []) then Entry(f) else 0)
  }

  lemma EndOfFirst(f: seq<byte>, i: u16, loaded: bool, ph: Phdr)
    requires |f| >= EHDR_SIZE && i + 1 < U16
    requires SegmentsFrom(f, i) == ([ph] + SegmentsFrom(f, i + 1).0, SegmentsFrom(f, i + 1).1)
    ensures EndOf(f, i, loaded) == if Fits(ph) then EndOf(f, i + 1, true) else Fault
  {
    hide SegmentsFrom, Fits, Entry;
    var segs, rest := SegmentsFrom(f, i).0, SegmentsFrom(f, i + 1).0;
    assert forall s :: s in segs <==> s == ph || s in rest;
  }

  /** Sparing the headers, the load goes by the headers as they are in the file, to the end. */
  lemma {:induction false} SparingLoad(m: seq<byte>, f: seq<byte>, data: nat, i: u16, loaded: bool)
    requires |m| == PROG_LOAD_MAX && data + |f| <= |m| && SameTables(f, m[data..data + |f|])
    requires TableInRange(f) && AllSpareTables(f, data, i)
    ensures LoadSparesHeaders(m, data, |f|, i)
    ensures LoadFrom(m, data, |f|, i, loaded).1 == EndOf(f, i, loaded)
    decreases U16 - i
  {
    hide Place, PlaceBy, PhdrAt, PhOffset, PhNum, Entry, Agree, EndOf, SparesTables, Fits;
    SameFileHeader(f, m[data..data + |f|]);
    EndOfNone(f, i, loaded);
    assert i < PhNum(f) ==> HeaderInRange(f, i);
    if i < PhNum(f) && PhOffset(f, i) + PHDR_SIZE <= |f| {
      SparedHeaderRead(m, f, data, i);
      var at := data + PhOffset(f, i);
      var ph := PhdrAt(m, at);
      if ph.kind != PT_LOAD {
        SparingLoad(m, f, data, i + 1, loaded);
      } else if Accepts(ph, |f|) {
        var segs, rest := SegmentsFrom(f, i).0, SegmentsFrom(f, i + 1).0;
        assert segs == [ph] + rest && segs[0] in segs && forall s :: s in rest ==> s in segs;
        SparesOwn(f, data, i, ph);
        PlaceSparingHeader(m, at, data, |f|);
        PlaceByWrites(m, ph, data, |f|);
        EndOfFirst(f, i, loaded, ph);
        if Fits(ph) {
          PlaceKeepsTables(m, f, data, ph);
          SparingLoad(Place(m, at, data).0, f, data, i + 1, true);
        }
      }
    }
  }

  lemma SparesOwn(f: seq<byte>, data: nat, i: u16, s: Phdr)
    requires |f| >= EHDR_SIZE && SparesTables(s, f, data) && i < PhNum(f) && PhOffset(f, i) + PHDR_SIZE <= |f|
    ensures SparesHeader(s, data + PhOffset(f, i))
  {
    assert ClearOf(s, data + PhOffset(f, i), PHDR_SIZE);
  }

  /** The turns that place nothing. */
  lemma EndOfNone(f: seq<byte>, i: u16, loaded: bool)
    requires |f| >= EHDR_SIZE
    ensures i >= PhNum(f) ==> EndOf(f, i, loaded) == Returned(if loaded then Entry(f) else 0)
    ensures i < PhNum(f) && PhOffset(f, i) + PHDR_SIZE > |f| ==> EndOf(f, i, loaded) == Returned(0)
    ensures i < PhNum(f) && PhOffset(f, i) + PHDR_SIZE <= |f| ==>
      var ph := PhdrAt(f, PhOffset(f, i));
      && (ph.kind != PT_LOAD ==> EndOf(f, i, loaded) == EndOf(f, i + 1, loaded))
      && (ph.kind == PT_LOAD && !Accepts(ph, |f|) ==> EndOf(f, i, loaded) == Returned(0))
  {
    hide PhdrAt, PhOffset, PhNum, Accepts, Entry;
  }

  /**
   Memory below 1 MB is kept by every file whose segments spare its file header and its header
   table, faults and rejections included.
   */
  lemma LoadKeepsLow(m: seq<byte>, f: seq<byte>, data: nat)
    requires |m| == PROG_LOAD_MAX && data + |f| <= |m| && m[data..data + |f|] == f
    requires HeaderOk(f) ==> TableInRange(f) && AllSpareTables(f, data, 0)
    ensures Load(m, data, |f|).0[..PROG_LOAD_MIN] == m[..PROG_LOAD_MIN]
  {
    hide LoadZeroes, LoadFrom, AllSpareTables;
    if HeaderOk(f) {
      SparingLoad(m, f, data, 0, false);
      LoadKeepsLowIff(m, data, |f|);
    }
  }

  /** With such segments, the load faults exactly when an accepted one passes 128 MB, by address or by file size. */
  lemma LoadFaultsIff(m: seq<byte>, f: seq<byte>, data: nat)
    requires |m| == PROG_LOAD_MAX && data + |f| <= |m| && m[data..data + |f|] == f
    requires HeaderOk(f) ==> TableInRange(f) && AllSpareTables(f, data, 0)
    ensures Load(m, data, |f|).1.Fault? <==>
      exists s :: s in Segments(f).0 && Extent(s) > 0
                  && (s.vaddr > PROG_LOAD_MAX || s.filesz > PROG_LOAD_MAX - s.vaddr)
  {
    forall s | s in Segments(f).0
      ensures !Fits(s) <==>
        Extent(s) > 0 && (s.vaddr > PROG_LOAD_MAX || s.filesz > PROG_LOAD_MAX - s.vaddr)
    {
      FitsIff(s, |f|);
    }
    if HeaderOk(f) {
      SparingLoad(m, f, data, 0, false);
    }
  }

  /* Faults, for every file. */

  /** The turn on the header at `at` touches a byte past the map: in the copy, or in the fill the header then asks for. */
  predicate TurnFaults(m: seq<byte>, at: nat, data: u64)
    requires at + PHDR_SIZE <= |m|
  {
    var ph := PhdrAt(m, at);
    var src := Add64(data, ph.offset);
    if ph.filesz > 0 && (ph.vaddr + ph.filesz > |m| || src + ph.filesz > |m|) then true
    else
      var now := PhdrAt(Copy(m, ph.vaddr, src, ph.filesz).0, at);
      now.memsz > now.filesz && Add64(now.vaddr, now.filesz) + (now.memsz - now.filesz) > |m|
  }

  /** Some turn from header `i` on faults: on its header, which a wrapping table puts past the map, or on its segment. */
  predicate LoadFaults(m: seq<byte>, data: nat, size: nat, i: u16)
    requires |m| == PROG_LOAD_MAX && data + size <= |m| && size >= EHDR_SIZE
    decreases U16 - i
  {
    var f := m[data..data + size];
    var at := if i < PhNum(f) then Add64(data, PhOffset(f, i)) else 0;
    if i >= PhNum(f) || Add64(PhOffset(f, i), PHDR_SIZE) > size then false
    else if at >= |m| then true
    else if PhdrAt(m, at).kind != PT_LOAD then LoadFaults(m, data, size, i + 1)
    else
      && Accepts(PhdrAt(m, at), size)
      && (TurnFaults(m, at, data) || LoadFaults(Place(m, at, data).0, data, size, i + 1))
  }

  lemma TurnFaultsIff(m: seq<byte>, at: nat, data: u64)
    requires at + PHDR_SIZE <= |m|
    ensures !Place(m, at, data).1 <==> TurnFaults(m, at, data)
  {
    hide PhdrAt, Copy, Zero;
    var ph := PhdrAt(m, at);
    var src := Add64(data, ph.offset);
    CopyFaultsIff(m, ph.vaddr, src, ph.filesz);
    var m1 := Copy(m, ph.vaddr, src, ph.filesz).0;
    var now := PhdrAt(m1, at);
    if now.memsz > now.filesz {
      ZeroEffect(m1, Add64(now.vaddr, now.filesz), now.memsz - now.filesz);
    }
  }

  /** Every file, self-overwriting ones included, faults exactly when one of its turns leaves the map. */
  lemma {:induction false} EveryLoadFaultsIff(m: seq<byte>, data: nat, size: nat, i: u16, loaded: bool)
    requires |m| == PROG_LOAD_MAX && data + size <= |m| && size >= EHDR_SIZE
    ensures LoadFrom(m, data, size, i, loaded).1.Fault? <==> LoadFaults(m, data, size, i)
    decreases U16 - i
  {
    hide Place, PhdrAt, PhNum, PhOffset, Entry, TurnFaults;
    var f := m[data..data + size];
    if i < PhNum(f) && Add64(PhOffset(f, i), PHDR_SIZE) <= size && Add64(data, PhOffset(f, i)) < |m| {
      var at := Add64(data, PhOffset(f, i));
      var ph := PhdrAt(m, at);
      if ph.kind != PT_LOAD {
        EveryLoadFaultsIff(m, data, size, i + 1, loaded);
      } else if Accepts(ph, size) {
        TurnFaultsIff(m, at, data);
        if Place(m, at, data).1 {
          EveryLoadFaultsIff(Place(m, at, data).0, data, size, i + 1, true);
        }
      }
    }
  }

  /** A file that follows the gABI's rules for program headers never faults: its segments fit and are loaded. */
  lemma ConformingFileLoads(m: seq<byte>, f: seq<byte>, data: nat)
    requires |m| == PROG_LOAD_MAX && data + |f| <= |m| && m[data..data + |f|] == f
    requires HeaderOk(f) ==> TableInRange(f)
    requires AllAvoid(Segments(f).0, data, |f|)
    requires forall s :: s in Segments(f).0 ==> s.vaddr <= PROG_LOAD_MAX && s.filesz <= s.memsz
    ensures Load(m, data, |f|) == (Image(Segments(f).0, f, m), Returned(Answer(f)))
  {
    forall s | s in Segments(f).0
      ensures Fits(s) && Avoids(s, data, |f|)
    {
      FitsIff(s, |f|);
    }
    LoadIsImage(m, f, data);
  }

  /** A header the check at the top of the loop lets through is read inside the file iff its end does not wrap. */
  lemma HeaderReadInsideIff(f: seq<byte>, data: nat, i: u16)
    requires |f| >= EHDR_SIZE && data + |f| <= PROG_LOAD_MAX
    requires Add64(PhOffset(f, i), PHDR_SIZE) <= |f|
    ensures data <= Add64(data, PhOffset(f, i)) && Add64(data, PhOffset(f, i)) + PHDR_SIZE <= data + |f|
            <==> HeaderInRange(f, i)
  {
  }

  /**
   So a table that wraps makes the loader believe bytes that are not in the file: with its one
   header `k` bytes short of 2^64, the file loads whatever header lies `k` bytes before it, if
   that header's segment leaves it and the file alone.
   */
  lemma WrappedHeaderIsReadBeforeFile(m: seq<byte>, f: seq<byte>, data: nat, k: nat)
    requires |m| == PROG_LOAD_MAX && data + |f| <= |m| && m[data..data + |f|] == f
    requires HeaderOk(f) && PhNum(f) == 1 && 0 < k <= PHDR_SIZE && k <= data && PhOffset(f, 0) == U64 - k
    ensures var ph := PhdrAt(m, data - k);
            && (ph.kind == PT_LOAD && Accepts(ph, |f|) && Fits(ph) && Avoids(ph, data - k, k + |f|) ==>
                  Load(m, data, |f|) == (PlaceBy(m, ph, data).0, Returned(Entry(f))))
            && (ph.kind != PT_LOAD || !Accepts(ph, |f|) ==> Load(m, data, |f|) == (m, Returned(0)))
  {
    hide Place, PlaceBy, PhdrAt, Entry, Fits;
    var at := data - k;
    var ph := PhdrAt(m, at);
    assert Add64(data, PhOffset(f, 0)) == at && Add64(PhOffset(f, 0), PHDR_SIZE) == PHDR_SIZE - k;
    if ph.kind == PT_LOAD && Accepts(ph, |f|) && Fits(ph) && Avoids(ph, at, k + |f|) {
      PlaceSparingHeader(m, at, data, |f|);
      PlaceIsImage(m, f, ph, data);
    }
  }
}
