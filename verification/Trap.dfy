/**
 The exception path: what the processor pushes, what the stubs push, the C handler with its
 hook, and the way back out through `iretq`.

 Memory here is 8-byte words at 8-byte-aligned addresses; a word never stored reads as 0.
 The general registers are a sequence in the order of `interrupt_frame_t`.
 */
module Trap {
  import opened Machine

  type Memory = map<int, u64>

  function Load(m: Memory, a: int): u64 {
    if a in m then m[a] else 0
  }

  /* Registers, by their place in the frame. */

  const R15: nat := 0
  const R14: nat := 1
  const R13: nat := 2
  const R12: nat := 3
  const R11: nat := 4
  const R10: nat := 5
  const R9: nat := 6
  const R8: nat := 7
  const RDI: nat := 8
  const RSI: nat := 9
  const RBP: nat := 10
  const RDX: nat := 11
  const RCX: nat := 12
  const RBX: nat := 13
  const RAX: nat := 14

  const GPRS: nat := 15

  /** The order in which `isr_common_stub` pushes them ... */
  const PUSH_ORDER: seq<nat> := [RAX, RBX, RCX, RDX, RBP, RSI, RDI, R8, R9, R10, R11, R12, R13, R14, R15]

  /** ... and pops them. */
  const POP_ORDER: seq<nat> := [R15, R14, R13, R12, R11, R10, R9, R8, RDI, RSI, RBP, RDX, RCX, RBX, RAX]

  type Gprs = g: seq<u64> | |g| == GPRS witness seq(GPRS, _ => 0)

  /** All the registers a trap saves and restores. */
  datatype Regs = Regs(gpr: Gprs, rip: u64, cs: u64, rflags: u64, rsp: u64, ss: u64)

  /** `interrupt_frame_t`. */
  datatype Frame = Frame(gpr: Gprs, vector: u64, errorCode: u64, rip: u64, cs: u64, rflags: u64, rsp: u64, ss: u64)

  function RegsOf(f: Frame): Regs {
    Regs(f.gpr, f.rip, f.cs, f.rflags, f.rsp, f.ss)
  }

  const FRAME_WORDS: nat := 22

  /** The frame the C handler sees through a pointer to `base`. */
  function FrameAt(m: Memory, base: int): Frame {
    Frame(seq(GPRS, i => Load(m, base + 8 * i)),
          Load(m, base + 8 * 15), Load(m, base + 8 * 16), Load(m, base + 8 * 17), Load(m, base + 8 * 18),
          Load(m, base + 8 * 19), Load(m, base + 8 * 20), Load(m, base + 8 * 21))
  }

  /** The vectors whose stub expects the processor to have pushed an error code. */
  predicate StubExpectsCode(vector: nat) {
    vector == 8 || 10 <= vector <= 14 || vector == 17 || vector == 30
  }

  lemma StubsExpecting(vector: nat)
    ensures StubExpectsCode(vector) <==> vector in [8, 10, 11, 12, 13, 14, 17, 30]
  {
  }

  const DOUBLE_FAULT: nat := 8
  const KERNEL_CS: u64 := 0x08

  /** IF set, and the bit that is always set. */
  const RESUME_FLAGS: u64 := 0x202

  /** `rsp & ~15`: the processor aligns the stack before it pushes. */
  function Align16(a: nat): (r: nat)
    ensures r % 16 == 0 && r <= a < r + 16
  {
    a / 16 * 16
  }

  /** Where the frame ends: the running stack, or the double fault's own. */
  function FrameTop(rsp: u64, ist1: u64, vector: nat): (top: nat)
    ensures top < U64 && top % 16 == 0
    ensures vector == 8 ==> top <= ist1 < top + 16
    ensures vector != 8 ==> top <= rsp < top + 16
  {
    Align16(if vector == DOUBLE_FAULT then ist1 else rsp)
  }

  function FrameBase(rsp: u64, ist1: u64, vector: nat): int {
    FrameTop(rsp, ist1, vector) - 8 * FRAME_WORDS
  }

  /** A hook, by the address of its code. */
  datatype Hook = Hook(code: u64)

  /**
   What a hook did when it was called. It answered the handler: where to resume and on which
   stack, a zero address meaning that it declines, and which hook it left installed. Or it never
   came back to the handler and carried on as the program, with these registers.
   */
  datatype HookRun = Answers(rip: u64, rsp: u64, leaves: Option<Hook>) | CarriesOn(regs: Regs)

  /** The handler removes the hook before it calls it; what is installed afterwards is the hook's doing. */
  function Left(run: HookRun): Option<Hook> {
    if run.Answers? then run.leaves else None
  }

  predicate Redirects(run: HookRun) {
    run.Answers? && run.rip != 0
  }

  /** The registers after a trap whose hook ran like this. */
  function Resume(r: Regs, run: HookRun): Regs {
    if run.CarriesOn? then run.regs
    else if Redirects(run) then r.(rip := run.rip, rsp := run.rsp, rflags := RESUME_FLAGS)
    else r
  }

  /** A declining hook changes nothing, an accepting one three registers. */
  lemma ResumeCases(r: Regs, run: HookRun)
    ensures run.Answers? && run.rip == 0 ==> Resume(r, run) == r
    ensures run.Answers? && run.rip != 0 ==> Resume(r, run) == r.(rip := run.rip, rsp := run.rsp, rflags := 0x202)
    ensures run.CarriesOn? ==> Resume(r, run) == run.regs
  {
  }

  /* Memory through a trap. */

  /** `ws` pushed one after the other from `top` down. */
  function Pushed(m: Memory, top: int, ws: seq<u64>): Memory
    decreases |ws|
  {
    if ws == [] then m else Pushed(m, top, ws[..|ws| - 1])[top - 8 * |ws| := ws[|ws| - 1]]
  }

  lemma {:induction false} PushedAppend(m: Memory, top: int, a: seq<u64>, b: seq<u64>)
    ensures Pushed(m, top, a + b) == Pushed(Pushed(m, top, a), top - 8 * |a|, b)
    decreases |b|
  {
    var all := a + b;
    if b == [] {
      assert all == a;
    } else {
      PushedAppend(m, top, a, b[..|b| - 1]);
      assert all[..|all| - 1] == a + b[..|b| - 1];
    }
  }

  /** One more push. */
  lemma PushedNext(m: Memory, top: int, ws: seq<u64>, j: nat)
    requires j < |ws|
    ensures Pushed(m, top, ws[..j + 1]) == Pushed(m, top, ws[..j])[top - 8 * j - 8 := ws[j]]
    ensures j == 0 ==> Pushed(m, top, ws[..j]) == m
  {
    assert ws[..j + 1][..j] == ws[..j];
  }

  /** Word `i` lies `i + 1` words below the top; nothing outside the pushed words changes. */
  lemma {:induction false} PushedLoads(m: Memory, top: int, ws: seq<u64>)
    ensures forall i :: 0 <= i < |ws| ==> Load(Pushed(m, top, ws), top - 8 * (i + 1)) == ws[i]
    ensures forall a :: a < top - 8 * |ws| || top <= a ==> Load(Pushed(m, top, ws), a) == Load(m, a)
    decreases |ws|
  {
    if ws == [] {
    } else {
      PushedLoads(m, top, ws[..|ws| - 1]);
    }
  }

  /** The processor's words, highest first. */
  function CpuWords(r: Regs, code: Option<u64>): seq<u64> {
    [r.ss, r.rsp, r.rflags, r.cs, r.rip] + if code.Some? then [code.value] else []
  }

  /** The stub's words before the registers: a zero for a missing code, then the vector. */
  function StubWords(vector: u64): seq<u64> {
    if StubExpectsCode(vector) then [vector] else [0, vector]
  }

  function InPushOrder(gpr: Gprs): (ws: seq<u64>)
    ensures |ws| == GPRS
  {
    seq(GPRS, j requires 0 <= j < GPRS => OrdersMatchFrame(j); gpr[PUSH_ORDER[j]])
  }

  function FrameWords(r: Regs, vector: u64, code: Option<u64>): seq<u64> {
    CpuWords(r, code) + StubWords(vector) + InPushOrder(r.gpr)
  }

  /** What the handler sees at the end of the pushed words. */
  lemma FrameLayout(m: Memory, top: int, r: Regs, vector: u64, code: Option<u64>)
    ensures var words := FrameWords(r, vector, code);
            var at := top - 8 * |words|;
            var frame := FrameAt(Pushed(m, top, words), at);
            && |CpuWords(r, code)| == (if code.Some? then 6 else 5)
            && (code.Some? == StubExpectsCode(vector) ==>
                  && |words| == FRAME_WORDS
                  && frame == Frame(r.gpr, vector, if code.Some? then code.value else 0, r.rip, r.cs, r.rflags, r.rsp, r.ss))
            && (code.Some? && !StubExpectsCode(vector) ==>
                  |words| == FRAME_WORDS + 1 && frame.errorCode == 0 && frame.rip == code.value)
            && (code.None? && StubExpectsCode(vector) ==>
                  |words| == FRAME_WORDS - 1 && frame.errorCode == r.rip && frame.rip == r.cs)
  {
    hide Pushed, Load, InPushOrder;
    var words, n := FrameWords(r, vector, code), |FrameWords(r, vector, code)|;
    var m' := Pushed(m, top, words);
    FrameGprs(m, top, r, vector, code);
    LoadFromBase(m, top, words, 15);
    LoadFromBase(m, top, words, 16);
    LoadFromBase(m, top, words, 17);
    LoadFromBase(m, top, words, 18);
    LoadFromBase(m, top, words, 19);
    if n > 20 {
      LoadFromBase(m, top, words, 20);
    }
    if n > 21 {
      LoadFromBase(m, top, words, 21);
    }
  }

  /** Pushed words, counted from the lowest. */
  lemma LoadFromBase(m: Memory, top: int, ws: seq<u64>, j: nat)
    requires j < |ws|
    ensures Load(Pushed(m, top, ws), top - 8 * |ws| + 8 * j) == ws[|ws| - 1 - j]
  {
    hide Pushed, Load;
    PushedLoads(m, top, ws);
    assert top - 8 * |ws| + 8 * j == top - 8 * (|ws| - 1 - j + 1);
  }

  lemma FrameGprs(m: Memory, top: int, r: Regs, vector: u64, code: Option<u64>)
    ensures var words := FrameWords(r, vector, code);
            |words| >= GPRS && FrameAt(Pushed(m, top, words), top - 8 * |words|).gpr == r.gpr
  {
    hide Pushed, Load, InPushOrder, CpuWords, StubWords;
    var words, n := FrameWords(r, vector, code), |FrameWords(r, vector, code)|;
    var gpr := FrameAt(Pushed(m, top, words), top - 8 * n).gpr;
    forall i: nat | i < GPRS
      ensures gpr[i] == r.gpr[i]
    {
      LoadFromBase(m, top, words, i);
      InOrder(r.gpr, i);
      assert words[n - 1 - i] == InPushOrder(r.gpr)[GPRS - 1 - i];
    }
  }

  lemma InOrder(gpr: Gprs, i: nat)
    requires i < GPRS
    ensures InPushOrder(gpr)[GPRS - 1 - i] == gpr[i]
  {
    OrdersMatchFrame(GPRS - 1 - i);
  }

  /** The frame at `f` sent on to `rip` with stack `rsp`. */
  function Redirected(m: Memory, f: int, rip: u64, rsp: u64): Memory {
    m[f + 8 * 17 := rip][f + 8 * 20 := rsp][f + 8 * 19 := RESUME_FLAGS]
  }

  /** The handler's writes: its own and the hook's (`scratch`), and the redirection in the frame at `f`. */
  function HandlerMemory(m: Memory, f: int, scratch: Memory, run: HookRun): Memory {
    if Redirects(run) then Redirected(m + scratch, f, run.rip, run.rsp) else m + scratch
  }

  lemma HandlerFrame(m: Memory, f: int, scratch: Memory, run: HookRun)
    requires forall a :: a in scratch ==> !(f <= a < f + 8 * FRAME_WORDS)
    ensures var was := FrameAt(m, f);
            FrameAt(HandlerMemory(m, f, scratch, run), f) ==
              if Redirects(run) then was.(rip := run.rip, rsp := run.rsp, rflags := RESUME_FLAGS) else was
  {
    var was, m1 := FrameAt(m, f), m + scratch;
    SameFrame(m, m1, f);
    assert FrameAt(HandlerMemory(m, f, scratch, run), f).gpr == FrameAt(m1, f).gpr;
  }

  /** Memory after a trap: the frame, the call of the handler, and what handler and hook wrote. */
  function TrapMemory(m: Memory, r: Regs, ist1: u64, vector: u64, code: Option<u64>, entry: u64, scratch: Memory,
                      run: HookRun): Memory
  {
    var top, base := FrameTop(r.rsp, ist1, vector), FrameBase(r.rsp, ist1, vector);
    HandlerMemory(Pushed(m, top, FrameWords(r, vector, code))[base - 8 := entry], base, scratch, run)
  }

  /** Outside the frame, the word below it and `scratch`, memory is as it was. */
  lemma TrapMemoryKeeps(m: Memory, r: Regs, ist1: u64, vector: u64, code: Option<u64>, entry: u64, scratch: Memory,
                        run: HookRun)
    requires code.Some? <==> vector in [8, 10, 11, 12, 13, 14, 17, 30]
    ensures forall a :: a !in scratch
                        && !(FrameBase(r.rsp, ist1, vector) - 8 <= a < FrameTop(r.rsp, ist1, vector)) ==>
                        Load(TrapMemory(m, r, ist1, vector, code, entry, scratch, run), a) == Load(m, a)
  {
    hide FrameTop, StubExpectsCode;
    StubsExpecting(vector);
    assert |FrameWords(r, vector, code)| == FRAME_WORDS;
    PushedLoads(m, FrameTop(r.rsp, ist1, vector), FrameWords(r, vector, code));
  }

  /** Where the handler's call leads: nowhere, back to the stub, or on in the hook. */
  datatype Way = Halts | Back | Away

  class Cpu {
    var gpr: Gprs
    var rip: u64
    var cs: u64
    var rflags: u64
    var rsp: int
    var ss: u64
    var mem: Memory
    var hook: Option<Hook>
    const ist1: u64

    constructor (r: Regs, mem: Memory, ist1: u64)
      ensures rip == r.rip && cs == r.cs && rflags == r.rflags && rsp == r.rsp && ss == r.ss && gpr == r.gpr
      ensures this.mem == mem && hook == None && this.ist1 == ist1
    {
      gpr, rip, cs, rflags, rsp, ss := r.gpr, r.rip, r.cs, r.rflags, r.rsp, r.ss;
      this.mem, hook, this.ist1 := mem, None, ist1;
    }

    method SetHook(h: Hook)
      modifies this`hook
      ensures hook == Some(h)
    {
      hook := Some(h);
    }

    method ClearHook()
      modifies this`hook
      ensures hook == None
    {
      hook := None;
    }

    method Push(v: u64)
      modifies this`rsp, this`mem
      ensures rsp == old(rsp) - 8 && mem == old(mem)[rsp := v]
    {
      rsp := rsp - 8;
      mem := mem[rsp := v];
    }

    /** Pushes one after the other, the first word highest. */
    method PushWords(ws: seq<u64>)
      modifies this`rsp, this`mem
      ensures rsp == old(rsp) - 8 * |ws| && mem == Pushed(old(mem), old(rsp), ws)
    {
      for j := 0 to |ws|
        invariant rsp == old(rsp) - 8 * j && mem == Pushed(old(mem), old(rsp), ws[..j])
      {
        PushedNext(old(mem), old(rsp), ws, j);
        Push(ws[j]);
      }
      assert ws[..|ws|] == ws;
    }

    method Pop() returns (v: u64)
      modifies this`rsp
      ensures rsp == old(rsp) + 8 && v == Load(mem, old(rsp))
    {
      v := Load(mem, rsp);
      rsp := rsp + 8;
    }

    /** The processor's part: switch stack for a double fault, align, push ss, rsp, rflags, cs, rip and any code. */
    method Enter(vector: nat, code: Option<u64>, entry: u64)
      requires 0 <= rsp < U64
      modifies this`rsp, this`mem, this`rip, this`cs, this`rflags
      ensures var top := FrameTop(old(rsp), ist1, vector);
              && rsp == top - 8 * (if code.Some? then 6 else 5) && rip == entry && cs == 0x08
              && mem == Pushed(old(mem), top, old(CpuWords(Running(), code)))
              && Load(mem, top - 8 * 1) == ss && Load(mem, top - 8 * 2) == old(rsp)
              && Load(mem, top - 8 * 3) == old(rflags) && Load(mem, top - 8 * 4) == old(cs)
              && Load(mem, top - 8 * 5) == old(rip) && (code.Some? ==> Load(mem, top - 8 * 6) == code.value)
    {
      hide FrameTop, Pushed, Load;
      var was: u64 := rsp;
      rsp := FrameTop(was, ist1, vector);
      var words := CpuWords(Regs(gpr, rip, cs, rflags, was, ss), code);
      PushedLoads(mem, rsp, words);
      assert words[0] == ss && words[1] == was && words[2] == rflags && words[3] == cs && words[4] == rip;
      assert code.Some? ==> words[5] == code.value;
      PushWords(words);
      rip, cs, rflags := entry, KERNEL_CS, 0x002;
    }

    /** The vector's stub up to the common part: a zero for a missing code, then the vector. */
    method StubHead(vector: u64)
      modifies this`rsp, this`mem
      ensures rsp == old(rsp) - 8 * |StubWords(vector)| && mem == Pushed(old(mem), old(rsp), StubWords(vector))
      ensures Load(mem, rsp) == vector && (!StubExpectsCode(vector) ==> Load(mem, rsp + 8) == 0)
    {
      assert [0, vector][..1] == [0] && [0][..0] == [vector][..0] == [];
      if !StubExpectsCode(vector) {
        Push(0);
      }
      Push(vector);
    }

    method PushAll()
      modifies this`rsp, this`mem
      ensures rsp == old(rsp) - 8 * GPRS && mem == Pushed(old(mem), old(rsp), InPushOrder(gpr))
      ensures forall i: nat :: i < GPRS ==> Load(mem, rsp + 8 * i) == gpr[i]
    {
      hide Load, Pushed;
      ghost var ws := InPushOrder(gpr);
      PushedNext(mem, rsp, ws, 0);
      for j := 0 to GPRS
        invariant rsp == old(rsp) - 8 * j && mem == Pushed(old(mem), old(rsp), ws[..j])
      {
        OrdersMatchFrame(j);
        PushedNext(old(mem), old(rsp), ws, j);
        Push(gpr[PUSH_ORDER[j]]);
      }
      assert ws[..GPRS] == ws;
      PushedLoads(old(mem), old(rsp), ws);
      forall i: nat | i < GPRS
        ensures Load(mem, rsp + 8 * i) == gpr[i]
      {
        InOrder(gpr, i);
        assert Load(mem, old(rsp) - 8 * (GPRS - 1 - i + 1)) == ws[GPRS - 1 - i];
      }
    }

    method PopAll()
      modifies this`rsp, this`gpr
      ensures rsp == old(rsp) + 8 * GPRS
      ensures forall i: nat :: i < GPRS ==> gpr[i] == Load(mem, old(rsp) + 8 * i)
    {
      for j := 0 to GPRS
        invariant rsp == old(rsp) + 8 * j
        invariant forall i: nat :: i < j ==> gpr[i] == Load(mem, old(rsp) + 8 * i)
      {
        OrdersMatchFrame(j);
        var v := Pop();
        gpr := gpr[POP_ORDER[j] := v];
      }
    }

    method Iretq()
      modifies this`rip, this`cs, this`rflags, this`rsp, this`ss
      ensures rip == Load(mem, old(rsp)) && cs == Load(mem, old(rsp) + 8) && rflags == Load(mem, old(rsp) + 16)
      ensures rsp == Load(mem, old(rsp) + 24) && ss == Load(mem, old(rsp) + 32)
    {
      rip := Pop();
      cs := Pop();
      rflags := Pop();
      var sp := Pop();
      ss := Pop();
      rsp := sp;
    }

    /** The handler's way out once the hook has answered it, through the frame at `f` as memory holds it. */
    method Answered(f: int, newRip: u64, newRsp: u64)
      modifies this`mem, this`gpr, this`rip, this`cs, this`rflags, this`rsp, this`ss
      ensures mem == if newRip != 0 then Redirected(old(mem), f, newRip, newRsp) else old(mem)
      ensures 0 <= rsp < U64 && Running() == RegsOf(FrameAt(mem, f))
    {
      hide FrameAt;
      if newRip != 0 {
        mem := mem[f + 8 * 17 := newRip][f + 8 * 20 := newRsp][f + 8 * 19 := RESUME_FLAGS];
      }
      rsp := f;
      Leave();
    }

    ghost function Running(): Regs
      requires 0 <= rsp < U64
      reads this
    {
      Regs(gpr, rip, cs, rflags, rsp, ss)
    }

    /**
     Everything up to the call of the handler. The frame is laid out as the handler reads it
     exactly when the stub expects a code iff the processor pushed one; otherwise it is a word
     off, and the handler takes the code for the faulting address or that address for the code.
     */
    method BuildFrame(vector: u64, code: Option<u64>, entry: u64)
      requires 0 <= rsp < U64
      modifies this`rsp, this`mem, this`rip, this`cs, this`rflags
      ensures var expects := StubExpectsCode(vector);
              var base, frame := FrameBase(old(rsp), ist1, vector), FrameAt(mem, rsp);
              && (code.Some? == expects ==>
                    && rsp == base
                    && frame == Frame(gpr, vector, if code.Some? then code.value else 0,
                                      old(rip), old(cs), old(rflags), old(rsp), ss))
              && (code.Some? && !expects ==> rsp == base - 8 && frame.errorCode == 0 && frame.rip == code.value)
              && (code.None? && expects ==> rsp == base + 8 && frame.errorCode == old(rip) && frame.rip == old(cs))
              && (forall a :: a < rsp || FrameTop(old(rsp), ist1, vector) <= a ==> Load(mem, a) == Load(old(mem), a))
      ensures mem == Pushed(old(mem), FrameTop(old(rsp), ist1, vector), old(FrameWords(Running(), vector, code)))
      ensures vector < 32 && (code.Some? <==> vector in [8, 10, 11, 12, 13, 14, 17, 30]) ==>
        && rsp == FrameTop(old(rsp), ist1, vector) - 176
        && FrameAt(mem, rsp) == Frame(gpr, vector, if code.Some? then code.value else 0,
                                      old(rip), old(cs), old(rflags), old(rsp), ss)
    {
      hide FrameTop, Pushed, CpuWords, InPushOrder, FrameAt, StubExpectsCode;
      StubsExpecting(vector);
      ghost var m, top, r := mem, FrameTop(rsp, ist1, vector), Running();
      ghost var cpuWords, stubWords := CpuWords(r, code), StubWords(vector);
      FrameLayout(m, top, r, vector, code);
      Enter(vector, code, entry);
      StubHead(vector);
      PushAll();
      PushedAppend(m, top, cpuWords, stubWords);
      PushedAppend(m, top, cpuWords + stubWords, InPushOrder(gpr));
      PushedLoads(m, top, FrameWords(r, vector, code));
    }

    /** The stub's way out: pop the registers, drop vector and code, `iretq`. */
    method Leave()
      modifies this`gpr, this`rip, this`cs, this`rflags, this`rsp, this`ss
      ensures 0 <= rsp < U64
      ensures Running() == RegsOf(FrameAt(mem, old(rsp)))
    {
      ghost var base := rsp;
      PopAll();
      assert gpr == FrameAt(mem, base).gpr;
      rsp := rsp + 16;
      Iretq();
    }

    /**
     A whole trap: processor, stub, handler, stub, `iretq`. The machine halts iff no hook is
     installed. If the hook declines, every register is as it was; if it accepts, only rip, rsp
     and rflags differ. The hook that was installed is gone; if one is installed afterwards, the
     hook did that. `scratch` is what the compiled handler and the hook write outside the frame.
     */
    method Trap(vector: u64, code: Option<u64>, entry: u64, clobber: Gprs, scratch: Memory, run: HookRun)
      returns (halted: bool)
      requires 0 <= rsp < U64
      requires code.Some? <==> vector in [8, 10, 11, 12, 13, 14, 17, 30]
      requires FrameBase(rsp, ist1, vector) >= 8
      requires forall a :: a in scratch ==>
                 !(FrameBase(rsp, ist1, vector) - 8 <= a < FrameTop(rsp, ist1, vector))
      modifies this
      ensures halted <==> old(hook) == None
      ensures halted ==> hook == None
      ensures !halted ==> 0 <= rsp < U64
      ensures old(hook).Some? && run.Answers? && run.rip == 0 ==> !halted && Running() == old(Running())
      ensures old(hook).Some? && run.Answers? && run.rip != 0 ==>
        !halted && Running() == old(Running()).(rip := run.rip, rsp := run.rsp, rflags := 0x202)
      ensures old(hook).Some? && run.CarriesOn? ==> !halted && Running() == run.regs
      ensures old(hook).Some? ==> hook == if run.Answers? then run.leaves else None
      ensures !halted ==> mem == TrapMemory(old(mem), old(Running()), ist1, vector, code, entry, scratch, run)
    {
      hide FrameTop, FrameAt, Pushed, FrameWords, StubExpectsCode;
      StubsExpecting(vector);
      BuildFrame(vector, code, entry);
      var f := rsp;
      ghost var before := mem;
      gpr := gpr[RDI := f];
      Push(entry);
      SameFrame(before, mem, f);
      halted := HandleAndLeave(f, clobber, scratch, run);
    }

    /** From the call of the handler on: nowhere, on in the hook, or out through the frame. */
    method HandleAndLeave(f: int, clobber: Gprs, scratch: Memory, run: HookRun) returns (halted: bool)
      requires rsp == f - 8 && forall a :: a in scratch ==> !(f <= a < f + 8 * FRAME_WORDS)
      modifies this
      ensures halted <==> old(hook) == None
      ensures hook == if halted || run.CarriesOn? then None else run.leaves
      ensures !halted ==> 0 <= rsp < U64 && mem == HandlerMemory(old(mem), f, scratch, run)
      ensures !halted && run.CarriesOn? ==> Running() == run.regs
      ensures !halted && run.Answers? ==>
        var was := FrameAt(old(mem), f);
        Running() == RegsOf(if run.rip != 0 then was.(rip := run.rip, rsp := run.rsp, rflags := 0x202) else was)
    {
      hide FrameAt, HandlerMemory;
      var way := ExceptionHandler(f, clobber, scratch, run);
      if way == Halts {
        return true;
      }
      if way == Away {
        gpr, rip, cs, rflags, rsp, ss := run.regs.gpr, run.regs.rip, run.regs.cs, run.regs.rflags, run.regs.rsp, run.regs.ss;
        return false;
      }
      rsp := rsp + 8;
      Leave();
      return false;
    }

    /**
     `exception_handler`. Its compiled body, and the hook it calls, may leave anything in the
     general registers (`clobber`) and in memory outside the frame (`scratch`).
     */
    method ExceptionHandler(f: int, clobber: Gprs, scratch: Memory, run: HookRun) returns (way: Way)
      requires forall a :: a in scratch ==> !(f <= a < f + 8 * FRAME_WORDS)
      modifies this`gpr, this`mem, this`hook
      ensures way == if old(hook) == None then Halts else if run.CarriesOn? then Away else Back
      ensures hook == if way == Back then run.leaves else None
      ensures way == Back ==>
        var was := FrameAt(old(mem), f);
        FrameAt(mem, f) == if run.rip != 0 then was.(rip := run.rip, rsp := run.rsp, rflags := 0x202) else was
      ensures way != Halts ==> mem == HandlerMemory(old(mem), f, scratch, run)
    {
      hide FrameAt;
      HandlerFrame(mem, f, scratch, run);
      gpr := clobber;
      mem := mem + scratch;
      if hook.None? {
        return Halts;
      }
      hook := None;
      // the hook runs; it may install another
      if run.CarriesOn? {
        return Away;
      }
      hook := run.leaves;
      if run.rip != 0 {
        mem := mem[f + 8 * 17 := run.rip][f + 8 * 20 := run.rsp][f + 8 * 19 := RESUME_FLAGS];
      }
      return Back;
    }
  }

  lemma SameFrame(m: Memory, m': Memory, base: int)
    requires forall a :: base <= a < base + 8 * FRAME_WORDS ==> Load(m, a) == Load(m', a)
    ensures FrameAt(m, base) == FrameAt(m', base)
  {
    hide Load;
    assert FrameAt(m, base).gpr == FrameAt(m', base).gpr;
  }

  /** Frame slot `i` is pushed 14 - i registers in, and popped `i` registers in. */
  lemma OrdersMatchFrame(j: nat)
    requires j < GPRS
    ensures PUSH_ORDER[j] == GPRS - 1 - j && POP_ORDER[j] == j
  {
  }
}
