/**
 Receiving a program over the second serial line, and the `load` command: a framed byte
 stream becomes a heap buffer, which the ELF loader turns into memory.

 The line is the sequence of bytes still to arrive; a read past its end leaves the receiver
 polling for ever, which the model reports as `Waiting`.
 */
module Transfer {
  import opened Machine
  import opened Heap
  import Elf
  import ElfImage

  const KELF_MAX_SIZE := 0x20_0000

  /** "KELF" */
  const MAGIC: seq<byte> := [0x4B, 0x45, 0x4C, 0x46]

  datatype Outcome = Received(buf: nat, size: nat) | Refused | Waiting

  /** What a transfer touches: the line, memory, and the heap the buffer comes from. */
  datatype State = State(line: seq<byte>, mem: seq<byte>, heap: Extent) {
    /** The heap is in order and lies in the identity-mapped memory. */
    predicate Valid() {
      heap.Valid() && heap.limit <= |mem| == Elf.PROG_LOAD_MAX
    }
  }

  /** Memory with `b` written at `at`. */
  function Splice(m: seq<byte>, at: nat, b: seq<byte>): (r: seq<byte>)
    requires at + |b| <= |m|
    ensures |r| == |m|
    ensures r[at..at + |b|] == b
    ensures forall a :: 0 <= a < |m| && !(at <= a < at + |b|) ==> r[a] == m[a]
  {
    m[..at] + b + m[at + |b|..]
  }

  /** `transfer_recv_elf` as a function of the state. */
  function RecvElf(s: State): (r: (State, Outcome))
    requires s.Valid()
    ensures r.0.Valid()
    ensures r.1.Received? ==> r.1.buf + r.1.size <= |r.0.mem|
  {
    if |s.line| < 4 then (s.(line := []), Waiting)
    else if s.line[..4] != MAGIC then (s.(line := s.line[4..]), Refused)
    else if |s.line| < 8 then (s.(line := []), Waiting)
    else
      var size := Le(s.line[4..8]);
      var body := s.line[8..];
      if size == 0 || size > KELF_MAX_SIZE then (s.(line := body), Refused)
      else
        var (heap, buf) := s.heap.Sbrk(size);
        if buf == NO_MEMORY then (s.(line := body), Refused)
        else if |body| < size then (State([], Splice(s.mem, buf, body), heap), Waiting)
        else (State(body[size..], Splice(s.mem, buf, body[..size]), heap), Received(buf, size))
  }

  class Com2 {
    var line: seq<byte>
    var initialized: bool

    constructor (line: seq<byte>)
      ensures this.line == line && !initialized
    {
      this.line := line;
      initialized := false;
    }

    method RecvByte() returns (b: Option<byte>)
      modifies this`line
      ensures old(line) == [] ==> b == None && line == []
      ensures old(line) != [] ==> b == Some(old(line)[0]) && line == old(line)[1..]
    {
      if line == [] {
        return None;
      }
      b := Some(line[0]);
      line := line[1..];
    }

    /** Fills `mem[at..at + n]` from the line; false if the line runs dry first. */
    method RecvBuf(mem: array<byte>, at: nat, n: nat) returns (ok: bool)
      requires at + n <= mem.Length
      modifies this`line, mem
      ensures ok <==> n <= |old(line)|
      ensures ok ==> line == old(line)[n..] && mem[..] == Splice(old(mem[..]), at, old(line)[..n])
      ensures !ok ==> line == [] && mem[..] == Splice(old(mem[..]), at, old(line))
    {
      ghost var all := line;
      var i := 0;
      while i < n
        invariant 0 <= i <= n && i <= |all| && line == all[i..]
        invariant mem[..] == Splice(old(mem[..]), at, all[..i])
      {
        var b := RecvByte();
        if b.None? {
          assert all[..i] == all;
          return false;
        }
        mem[at + i] := b.value;
        assert all[..i + 1] == all[..i] + [b.value];
        i := i + 1;
      }
      return true;
    }

    /** The next four bytes, read into a local buffer. */
    method RecvFour() returns (ok: bool, b: seq<byte>)
      modifies this`line
      ensures ok <==> 4 <= |old(line)|
      ensures ok ==> line == old(line)[4..] && b == old(line)[..4]
      ensures !ok ==> line == []
    {
      var buf := new byte[4];
      ok := RecvBuf(buf, 0, 4);
      b := buf[..];
    }

    method TransferRecvElf(mem: array<byte>, heap: KernelHeap) returns (r: Outcome)
      requires State(line, mem[..], heap.Value()).Valid()
      modifies this, mem, heap
      ensures (State(line, mem[..], heap.Value()), r) == old(RecvElf(State(line, mem[..], heap.Value())))
    {
      if !initialized {
        initialized := true;
      }
      ghost var all := line;
      var ok, magic := RecvFour();
      if !ok {
        return Waiting;
      }
      if magic[0] != 0x4B || magic[1] != 0x45 || magic[2] != 0x4C || magic[3] != 0x46 {
        return Refused;
      }
      assert magic == MAGIC;
      var szb;
      ok, szb := RecvFour();
      if !ok {
        return Waiting;
      }
      assert szb == all[4..8] && line == all[8..];
      var size := (szb[0] as int) + 0x100 * (szb[1] as int) + 0x1_0000 * (szb[2] as int) + 0x100_0000 * (szb[3] as int);
      LeFourBytes(szb);
      if size == 0 || size > KELF_MAX_SIZE {
        return Refused;
      }
      var buf := heap.Sbrk(size);
      if buf == NO_MEMORY {
        return Refused;
      }
      ok := RecvBuf(mem, buf, size);
      if !ok {
        return Waiting;
      }
      return Received(buf, size);
    }
  }

  lemma LeFourBytes(b: seq<byte>)
    requires |b| == 4
    ensures Le(b) ==
            (b[0] as int) + 0x100 * (b[1] as int) + 0x1_0000 * (b[2] as int) + 0x100_0000 * (b[3] as int)
  {
    assert Le(b[3..]) == b[3] + 0x100 * Le(b[3..][1..]);
    assert b[2..][1..] == b[3..] && b[1..][1..] == b[2..];
    assert Le(b[2..]) == b[2] + 0x100 * Le(b[3..]);
    assert Le(b[1..]) == b[1] + 0x100 * Le(b[2..]);
  }

  /* Framing. */

  /** What a sender puts on the line for file `f`. */
  function Frame(f: seq<byte>): seq<byte> {
    [0x4B, 0x45, 0x4C, 0x46] + LeBytes(|f|, 4) + f
  }

  predicate Sendable(f: seq<byte>) {
    0 < |f| <= 0x20_0000
  }

  lemma FrameParts(f: seq<byte>, rest: seq<byte>)
    requires |f| < U32
    ensures var line := Frame(f) + rest;
            && |line| == 8 + |f| + |rest|
            && line[..4] == MAGIC && Le(line[4..8]) == |f| && line[8..] == f + rest
  {
    hide Le, LeBytes;
    Pow256Values();
    LeRoundTrip(|f|, 4);
    Parts([0x4B, 0x45, 0x4C, 0x46], LeBytes(|f|, 4), f, rest);
  }

  lemma Parts(a: seq<byte>, b: seq<byte>, c: seq<byte>, d: seq<byte>)
    requires |a| == |b| == 4
    ensures var all := a + b + c + d;
            |all| == 8 + |c| + |d| && all[..4] == a && all[4..8] == b && all[8..] == c + d
  {
  }

  /** A sendable frame that fits the heap is received whole: its bytes, and no byte after it, are consumed. */
  lemma FrameIsReceived(s: State, f: seq<byte>, rest: seq<byte>)
    requires s.Valid() && s.line == Frame(f) + rest
    requires Sendable(f) && s.heap.cur + |f| <= s.heap.limit
    ensures RecvElf(s) == (State(rest, Splice(s.mem, s.heap.cur, f), s.heap.(cur := s.heap.cur + |f|)),
                           Received(s.heap.cur, |f|))
  {
    FrameParts(f, rest);
    assert (f + rest)[..|f|] == f && (f + rest)[|f|..] == rest;
  }

  /** A frame that does not fit is refused after its header, so its body is left on the line. */
  lemma FullHeapLosesFraming(s: State, f: seq<byte>, rest: seq<byte>)
    requires s.Valid() && s.line == Frame(f) + rest
    requires Sendable(f) && s.heap.cur + |f| > s.heap.limit
    ensures RecvElf(s) == (s.(line := f + rest), Refused)
  {
    FrameParts(f, rest);
  }

  /** Four bytes that are not "KELF" are taken off the line, and no more; nothing else changes. */
  lemma BadMagicRefused(s: State)
    requires s.Valid() && |s.line| >= 4 && s.line[..4] != Ascii("KELF")
    ensures RecvElf(s) == (s.(line := s.line[4..]), Refused)
  {
    assert MAGIC == Ascii("KELF");
  }

  /** After "KELF", a size of 0 or above 2 MB is taken off the line with its magic, and no more. */
  lemma BadSizeRefused(s: State, size: u32, rest: seq<byte>)
    requires s.Valid() && s.line == Ascii("KELF") + LeBytes(size, 4) + rest && (size == 0 || size > 0x20_0000)
    ensures RecvElf(s) == (s.(line := rest), Refused)
  {
    hide Le, LeBytes;
    assert MAGIC == Ascii("KELF");
    Pow256Values();
    LeRoundTrip(size, 4);
    Parts(Ascii("KELF"), LeBytes(size, 4), [], rest);
    assert Ascii("KELF") + LeBytes(size, 4) + [] + rest == s.line && [] + rest == rest;
  }

  /**
   A line that ends inside a frame leaves the receiver waiting with the line used up; once the
   size is in, the heap has moved and what came of the body is in memory.
   */
  lemma ShortFrameWaits(s: State, f: seq<byte>, n: nat)
    requires s.Valid() && Sendable(f) && s.heap.cur + |f| <= s.heap.limit && n < 8 + |f| && s.line == Frame(f)[..n]
    ensures n < 8 ==> RecvElf(s) == (s.(line := []), Waiting)
    ensures n >= 8 ==>
      RecvElf(s) == (State([], Splice(s.mem, s.heap.cur, f[..n - 8]), s.heap.(cur := s.heap.cur + |f|)), Waiting)
  {
    hide Le, LeBytes, Splice;
    FrameParts(f, []);
    var whole := Frame(f) + [];
    assert whole == Frame(f);
    if n >= 4 {
      assert s.line[..4] == whole[..4];
    }
    if n >= 8 {
      assert s.line[4..8] == whole[4..8];
      assert s.line[8..] == whole[8..][..n - 8] == f[..n - 8];
    }
  }

  /** How the load command reports each way a transfer can end. */
  lemma CommandReports(s: State)
    requires s.Valid()
    ensures RecvElf(s).1 == Refused ==> LoadCommand(s) == (RecvElf(s).0, TransferError)
    ensures RecvElf(s).1 == Waiting ==> LoadCommand(s) == (RecvElf(s).0, StillWaiting)
    ensures RecvElf(s).1.Received? ==>
      var (s', r) := RecvElf(s);
      var (mem, answer) := Elf.Load(s'.mem, r.buf, r.size);
      && LoadCommand(s).0 == s'.(mem := mem)
      && (LoadCommand(s).1 == Faulted <==> answer.Fault?)
      && (LoadCommand(s).1 == LoadFailed <==> answer == Elf.Returned(0))
      && (forall e: nat :: LoadCommand(s).1 == Started(e) <==> e != 0 && answer.Returned? && answer.entry == e)
  {
  }

  /** The receiver accepts exactly the lines that begin with a sendable frame its heap has room for. */
  lemma ReceivedIffFramed(s: State)
    requires s.Valid()
    ensures RecvElf(s).1.Received? <==>
      exists f, rest :: Sendable(f) && s.heap.cur + |f| <= s.heap.limit && s.line == Frame(f) + rest
  {
    if RecvElf(s).1.Received? {
      var size := Le(s.line[4..8]);
      var f, rest := s.line[8..8 + size], s.line[8 + size..];
      LeInverse(s.line[4..8]);
      assert s.line == s.line[..4] + s.line[4..8] + f + rest;
      assert s.line == Frame(f) + rest;
    }
    if f, rest :| Sendable(f) && s.heap.cur + |f| <= s.heap.limit && s.line == Frame(f) + rest {
      FrameIsReceived(s, f, rest);
    }
  }

  lemma {:induction false} LeInverse(b: seq<byte>)
    ensures LeBytes(Le(b), |b|) == b
  {
    if b == [] {
    } else {
      LeInverse(b[1..]);
    }
  }

  /* The load command. */

  datatype LoadOutcome = TransferError | StillWaiting | LoadFailed | Faulted | Started(entry: nat)

  /** `cmd_load` up to the point where the program is entered. */
  function LoadCommand(s: State): (State, LoadOutcome)
    requires s.Valid()
  {
    var (s', r) := RecvElf(s);
    match r
    case Waiting => (s', StillWaiting)
    case Refused => (s', TransferError)
    case Received(buf, size) =>
      var (mem, answer) := Elf.Load(s'.mem, buf, size);
      (s'.(mem := mem),
       match answer
       case Fault => Faulted
       case Returned(entry) => if entry == 0 then LoadFailed else Started(entry))
  }

  method CmdLoad(com2: Com2, mem: array<byte>, heap: KernelHeap) returns (r: LoadOutcome)
    requires State(com2.line, mem[..], heap.Value()).Valid()
    modifies com2, mem, heap
    ensures (State(com2.line, mem[..], heap.Value()), r) == old(LoadCommand(State(com2.line, mem[..], heap.Value())))
  {
    var t := com2.TransferRecvElf(mem, heap);
    match t
    case Waiting => return StillWaiting;
    case Refused => return TransferError;
    case Received(buf, size) =>
      var answer := Elf.ElfLoad(mem, buf, size);
      match answer
      case Fault => return Faulted;
      case Returned(entry) =>
        if entry == 0 {
          return LoadFailed;
        }
        return Started(entry);
  }

  /** File `f`, received at `at`, has no wrapping header table, and its segments fit and avoid the buffer. */
  predicate LoadableAt(f: seq<byte>, at: nat) {
    && (Elf.HeaderOk(f) ==> ElfImage.TableInRange(f))
    && ElfImage.Clear(ElfImage.Segments(f).0, at, |f|)
  }

  /** Memory after `f` is received at `at` and loaded: the file's image over memory holding the buffer. */
  function LoadedMemory(m: seq<byte>, f: seq<byte>, at: nat): (r: seq<byte>)
    requires at + |f| <= |m|
    ensures |r| == |m|
  {
    ElfImage.Image(ElfImage.Segments(f).0, f, Splice(m, at, f))
  }

  /** The state after file `f` is received and loaded, with `line` still to come. */
  function AfterFile(s: State, f: seq<byte>, line: seq<byte>): (s': State)
    requires s.Valid() && s.heap.cur + |f| <= s.heap.limit
    ensures s'.Valid()
  {
    State(line, LoadedMemory(s.mem, f, s.heap.cur), s.heap.(cur := s.heap.cur + |f|))
  }

  function OutcomeOf(f: seq<byte>): LoadOutcome {
    if ElfImage.Answer(f) == 0 then LoadFailed else Started(ElfImage.Answer(f))
  }

  /**
   End to end: a framed file is consumed exactly, takes exactly its size of heap, and leaves
   the pure image of the file over the old memory and the received buffer.
   */
  lemma FramedFileLoads(s: State, f: seq<byte>, rest: seq<byte>)
    requires s.Valid() && s.line == Frame(f) + rest
    requires Sendable(f) && s.heap.cur + |f| <= s.heap.limit && LoadableAt(f, s.heap.cur)
    ensures LoadCommand(s) == (AfterFile(s, f, rest), OutcomeOf(f))
  {
    hide ElfImage.Answer, ElfImage.Image, ElfImage.Segments, Frame;
    FrameIsReceived(s, f, rest);
    ElfImage.LoadIsImage(Splice(s.mem, s.heap.cur, f), f, s.heap.cur);
  }

  /* Sessions. */

  /**
   What happens between two load commands, chiefly the loaded program's own run: memory becomes
   anything, and the heap may grow.
   */
  datatype Between = Between(mem: seq<byte>, grown: nat)

  /** The state the next command finds. */
  function Resume(s: State, b: Between): (s': State)
    requires s.Valid() && |b.mem| == |s.mem| && s.heap.cur + b.grown <= s.heap.limit
    ensures s'.Valid()
  {
    s.(mem := b.mem, heap := s.heap.(cur := s.heap.cur + b.grown))
  }

  predicate Possible(s: State, b: Between)
    requires s.Valid()
  {
    |b.mem| == |s.mem| && s.heap.cur + b.grown <= s.heap.limit
  }

  /** Load commands, each followed by what happens before the next, for as long as that is possible. */
  function Session(s: State, betweens: seq<Between>): seq<(State, LoadOutcome)>
    requires s.Valid()
    decreases |betweens|
  {
    if betweens == [] then []
    else
      var (after, outcome) := LoadCommand(s);
      [(after, outcome)] + if Possible(after, betweens[0]) then Session(Resume(after, betweens[0]), betweens[1..]) else []
  }

  lemma SessionStep(s: State, betweens: seq<Between>)
    requires s.Valid() && betweens != []
    ensures var (after, outcome) := LoadCommand(s);
            Possible(after, betweens[0]) ==>
              Session(s, betweens) == [(after, outcome)] + Session(Resume(after, betweens[0]), betweens[1..])
  {
  }

  /** A program file on the sending side. */
  datatype File = File(bytes: seq<byte>)

  function Line(files: seq<File>): seq<byte>
    decreases |files|
  {
    if files == [] then [] else Frame(files[0].bytes) + Line(files[1..])
  }

  /** Each file fits the heap as the ones before it and their programs leave it, and loads there. */
  predicate AllLoadable(files: seq<File>, betweens: seq<Between>, cur: nat, limit: nat)
    requires |files| == |betweens|
    decreases |files|
  {
    files == [] ||
    (var f, next := files[0].bytes, cur + |files[0].bytes| + betweens[0].grown;
     && Sendable(f) && LoadableAt(f, cur) && next <= limit && |betweens[0].mem| == Elf.PROG_LOAD_MAX
     && AllLoadable(files[1..], betweens[1..], next, limit))
  }

  /** What should come of it: file by file, its own bytes off the line, its image in memory, its answer. */
  function Expected(s: State, files: seq<File>, betweens: seq<Between>, rest: seq<byte>): seq<(State, LoadOutcome)>
    requires |files| == |betweens| && s.Valid() && AllLoadable(files, betweens, s.heap.cur, s.heap.limit)
    decreases |files|
  {
    if files == [] then []
    else
      var after := AfterFile(s, files[0].bytes, Line(files[1..]) + rest);
      [(after, OutcomeOf(files[0].bytes))] + Expected(Resume(after, betweens[0]), files[1..], betweens[1..], rest)
  }

  lemma FilesStep(s: State, files: seq<File>, betweens: seq<Between>, rest: seq<byte>)
    requires |files| == |betweens| && files != [] && s.Valid()
    requires AllLoadable(files, betweens, s.heap.cur, s.heap.limit)
    ensures Line(files) + rest == Frame(files[0].bytes) + (Line(files[1..]) + rest)
    ensures var f := files[0].bytes;
            && Sendable(f) && LoadableAt(f, s.heap.cur) && s.heap.cur + |f| + betweens[0].grown <= s.heap.limit
            && |betweens[0].mem| == |s.mem|
            && (var after := AfterFile(s, f, Line(files[1..]) + rest);
                && Possible(after, betweens[0])
                && (var next := Resume(after, betweens[0]);
                    && next.line == Line(files[1..]) + rest
                    && AllLoadable(files[1..], betweens[1..], next.heap.cur, next.heap.limit)
                    && Expected(s, files, betweens, rest) ==
                       [(after, OutcomeOf(f))] + Expected(next, files[1..], betweens[1..], rest)))
  {
    hide LoadedMemory, LoadableAt, OutcomeOf, Frame;
  }

  /**
   Any number of frames sent back to back stay in step, whatever the loaded programs do to
   memory and however they grow the heap in between: each command takes exactly its own frame
   off the line and leaves its own file's image, whether or not that file is a program.
   */
  lemma {:induction false} SessionLoads(s: State, files: seq<File>, betweens: seq<Between>, rest: seq<byte>)
    requires s.Valid() && s.line == Line(files) + rest && |files| == |betweens|
    requires AllLoadable(files, betweens, s.heap.cur, s.heap.limit)
    ensures Session(s, betweens) == Expected(s, files, betweens, rest)
    decreases |files|
  {
    hide Session, Line, LoadCommand, LoadedMemory, LoadableAt, Frame, AllLoadable, Expected, AfterFile, OutcomeOf;
    if files == [] {
      NothingSent(s, rest);
    } else {
      var f := files[0].bytes;
      FilesStep(s, files, betweens, rest);
      FramedFileLoads(s, f, Line(files[1..]) + rest);
      SessionStep(s, betweens);
      SessionLoads(Resume(AfterFile(s, f, Line(files[1..]) + rest), betweens[0]), files[1..], betweens[1..], rest);
    }
  }

  lemma NothingSent(s: State, rest: seq<byte>)
    requires s.Valid()
    ensures AllLoadable([], [], s.heap.cur, s.heap.limit) && Session(s, []) == Expected(s, [], [], rest) == []
  {
  }
}
