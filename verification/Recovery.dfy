/**
 Running a program under an exception hook. `elf_exec` records its stack, installs the shell's
 hook, saves its context with `exc_save` and enters the program; if the program faults, the trap
 resumes at `exc_restore`, which makes `exc_save` return a second time.

 A program run is any sequence of events the program and the processor can produce, jumps to
 `exc_restore` and hooks of the program's own among them. What is asked of the program is that it
 leaves alone the saved context, the recorded stack pointer and the caller's stack, and that its
 stack leaves room for a trap frame clear of them.
 */
module Recovery {
  import opened Machine
  import opened Trap

  /* The two routines. */

  const SAVED_WORDS: nat := 8

  /** What `exc_save` stores, entered with its return address on top of the stack. */
  function Context(r: Regs, m: Memory): (c: seq<u64>)
    requires r.rsp + 8 < U64
    ensures |c| == SAVED_WORDS
  {
    [Load(m, r.rsp), r.rsp + 8, r.gpr[RBP], r.gpr[RBX], r.gpr[R12], r.gpr[R13], r.gpr[R14], r.gpr[R15]]
  }

  ghost predicate Holds(m: Memory, buf: int, c: seq<u64>)
    requires |c| == SAVED_WORDS
  {
    forall k: nat :: k < SAVED_WORDS ==> Load(m, buf + 8 * k) == c[k]
  }

  /** Memory with the context stored. */
  function Saved(m: Memory, buf: int, c: seq<u64>): (m': Memory)
    requires |c| == SAVED_WORDS
    ensures Holds(m', buf, c)
    ensures forall a :: !(buf <= a < buf + 8 * SAVED_WORDS) ==> Load(m', a) == Load(m, a)
  {
    m[buf := c[0]][buf + 8 := c[1]][buf + 16 := c[2]][buf + 24 := c[3]]
     [buf + 32 := c[4]][buf + 40 := c[5]][buf + 48 := c[6]][buf + 56 := c[7]]
  }

  /** The registers as `exc_save` returns the first time: 0, to its caller. */
  function SaveReturn(r: Regs, m: Memory, buf: u64): Regs
    requires r.rsp + 8 < U64
  {
    r.(gpr := r.gpr[RAX := Load(m, r.rsp)][RCX := buf][RAX := r.rsp + 8][RAX := 0], rip := Load(m, r.rsp), rsp := r.rsp + 8)
  }

  /** The registers as `exc_restore` jumps: 1, to where the buffer says, with what the buffer holds. */
  function Restored(r: Regs, m: Memory, buf: u64): Regs {
    r.(gpr := r.gpr[RAX := buf][RBP := Load(m, buf + 16)][RBX := Load(m, buf + 24)][R12 := Load(m, buf + 32)]
                   [R13 := Load(m, buf + 40)][R14 := Load(m, buf + 48)][R15 := Load(m, buf + 56)]
                   [RCX := Load(m, buf)][RAX := 1],
       rip := Load(m, buf), rsp := Load(m, buf + 8))
  }

  method ExcSave(cpu: Cpu, buf: u64)
    requires 0 <= cpu.rsp && cpu.rsp + 8 < U64
    requires !(buf <= cpu.rsp < buf + 8 * SAVED_WORDS)
    modifies cpu`gpr, cpu`mem, cpu`rip, cpu`rsp
    ensures 0 <= cpu.rsp < U64 && cpu.Running() == old(SaveReturn(cpu.Running(), cpu.mem, buf))
    ensures cpu.mem == old(Saved(cpu.mem, buf, Context(cpu.Running(), cpu.mem)))
  {
    hide Load;
    ghost var saved := Saved(cpu.mem, buf, Context(cpu.Running(), cpu.mem));
    var g, m, rsp := cpu.gpr, cpu.mem, cpu.rsp;
    g := g[RAX := Load(m, rsp)];
    g := g[RCX := buf];
    m := m[buf := g[RAX]];
    g := g[RAX := rsp + 8];
    m := m[buf + 8 := g[RAX]];
    m := m[buf + 16 := g[RBP]];
    m := m[buf + 24 := g[RBX]];
    m := m[buf + 32 := g[R12]];
    m := m[buf + 40 := g[R13]];
    m := m[buf + 48 := g[R14]];
    m := m[buf + 56 := g[R15]];
    g := g[RAX := 0];
    cpu.gpr, cpu.mem := g, m;
    assert m == saved;
    cpu.rip := cpu.Pop();
  }

  method ExcRestore(cpu: Cpu, buf: u64)
    requires 0 <= cpu.rsp < U64
    modifies cpu`gpr, cpu`rip, cpu`rsp
    ensures 0 <= cpu.rsp < U64 && cpu.Running() == old(Restored(cpu.Running(), cpu.mem, buf))
  {
    var g, m := cpu.gpr, cpu.mem;
    g := g[RAX := buf];
    cpu.rsp := Load(m, buf + 8);
    g := g[RBP := Load(m, buf + 16)];
    g := g[RBX := Load(m, buf + 24)];
    g := g[R12 := Load(m, buf + 32)];
    g := g[R13 := Load(m, buf + 40)];
    g := g[R14 := Load(m, buf + 48)];
    g := g[R15 := Load(m, buf + 56)];
    g := g[RCX := Load(m, buf)];
    g := g[RAX := 1];
    cpu.gpr, cpu.rip := g, g[RCX];
  }

  /** Back where `exc_save` returned to: same address, stack and preserved registers, result 1. */
  predicate SecondReturn(r: Regs, c: seq<u64>)
    requires |c| == SAVED_WORDS
  {
    && r.gpr[RAX] == 1 && r.rip == c[0] && r.rsp == c[1]
    && r.gpr[RBP] == c[2] && r.gpr[RBX] == c[3]
    && r.gpr[R12] == c[4] && r.gpr[R13] == c[5] && r.gpr[R14] == c[6] && r.gpr[R15] == c[7]
  }

  lemma RestoreReturns(r: Regs, m: Memory, buf: u64, c: seq<u64>)
    requires |c| == SAVED_WORDS && Holds(m, buf, c)
    ensures SecondReturn(Restored(r, m, buf), c)
  {
  }

  /** The registers a C function's caller finds unchanged. */
  const PRESERVED: seq<nat> := [RBP, RBX, R12, R13, R14, R15]

  /** The second return looks like the first: same address, stack and preserved registers -- but 1, not 0. */
  predicate ReturnsAgain(first: Regs, second: Regs) {
    && first.gpr[RAX] == 0 && second.gpr[RAX] == 1
    && second.rip == first.rip && second.rsp == first.rsp
    && forall i :: i in PRESERVED ==> i < GPRS && second.gpr[i] == first.gpr[i]
  }

  /** Whatever has become of every register, a kept buffer brings back what `exc_save` returned with -- except its result. */
  lemma SaveThenRestore(r: Regs, m: Memory, buf: u64, second: Regs)
    requires r.rsp + 8 < U64 && SecondReturn(second, Context(r, m))
    ensures ReturnsAgain(SaveReturn(r, m, buf), second)
  {
  }

  /* The protocol. */

  /**
   Where things are: the buffer, the static holding the recovery stack, `exc_restore`, where
   `elf_exec` has its calls of `exc_save` (`resume`) and of the program (`ret`) return to, the
   shell's hook, the double fault's stack, and the caller's stack.
   */
  datatype Env = Env(buf: u64, rspVar: int, restore: u64, resume: u64, ret: u64, hookFn: u64, ist1: u64, callerLow: int,
                     callerHigh: int) {
    predicate Valid() {
      && restore != 0 && restore != resume && restore != ret && resume != ret
      && !(buf <= rspVar < buf + 8 * SAVED_WORDS)
    }

    /** The words a well-behaved program leaves alone. */
    predicate Protects(a: int) {
      buf <= a < buf + 8 * SAVED_WORDS || a == rspVar || callerLow <= a < callerHigh
    }

    function ShellHook(): Hook {
      Hook(hookFn)
    }
  }

  /** `Strayed`: control is back in `elf_exec`, right after `exc_save`, by a jump of the program's own. */
  datatype Phase = Running | Returned | Recovered | Strayed | Halted

  /** What the shell's hook records for the report. */
  datatype Report = Report(vector: u64, rip: u64, code: u64)

  datatype Sys = Sys(phase: Phase, regs: Regs, mem: Memory, hook: Option<Hook>, report: Report)

  ghost predicate Keeps(env: Env, m: Memory, m': Memory) {
    forall a :: env.Protects(a) ==> Load(m', a) == Load(m, a)
  }

  /**
   What can happen while the program runs: it computes or jumps, installs or removes hooks,
   faults under some hook (or none), stops the machine -- `exit`, as every newlib program ends,
   `panic`, `abort` -- or returns to `elf_exec`. A hook of its own that carried on, and maybe
   faulted on the way, may yet answer the handler whose frame is at `frame`.
   */
  datatype Event =
    | Compute(regs: Regs, writes: Memory)
    | SetHook(hook: Hook)
    | ClearHook
    | Fault(vector: u64, code: Option<u64>, entry: u64, clobber: Gprs, scratch: Memory, run: HookRun)
    | Answer(frame: int, rip: u64, rsp: u64)
    | Stop
    | Return(back: Regs)

  function CodeOf(code: Option<u64>): u64 {
    if code.Some? then code.value else 0
  }

  /** What the shell's hook answers: `exc_restore`, on the recorded stack, leaving no hook. */
  function ShellAnswers(env: Env, m: Memory): HookRun {
    Answers(env.restore, Load(m, env.rspVar), None)
  }

  /**
   Execution that comes to `exc_restore`, however it gets there, goes through it; and at either
   of its return addresses it is `elf_exec` that goes on.
   */
  function Arrive(env: Env, s: Sys): Sys {
    if s.regs.rip == env.restore then s.(phase := Recovered, regs := Restored(s.regs, s.mem, env.buf))
    else if s.regs.rip == env.ret then s.(phase := Returned)
    else if s.regs.rip == env.resume then s.(phase := Strayed)
    else s
  }

  /** Memory once a hook has answered the handler with the frame at `frame`. */
  function AnsweredMemory(m: Memory, frame: int, rip: u64, rsp: u64): Memory {
    if rip != 0 then Redirected(m, frame, rip, rsp) else m
  }

  function Next(env: Env, s: Sys, e: Event): Sys {
    match e
    case Compute(regs, writes) => Arrive(env, s.(regs := regs, mem := s.mem + writes))
    case SetHook(h) => s.(hook := Some(h))
    case ClearHook => s.(hook := None)
    case Fault(vector, code, entry, _, scratch, run) =>
      if s.hook == None then s.(phase := Halted)
      else
        var shell := s.hook == Some(env.ShellHook());
        Arrive(env, Sys(s.phase, Resume(s.regs, run),
                        TrapMemory(s.mem, s.regs, env.ist1, vector, code, entry, scratch, run), Left(run),
                        if shell then Report(vector, s.regs.rip, CodeOf(code)) else s.report))
    case Answer(frame, rip, rsp) =>
      var m := AnsweredMemory(s.mem, frame, rip, rsp);
      Arrive(env, s.(regs := RegsOf(FrameAt(m, frame)), mem := m))
    case Stop => s.(phase := Halted)
    case Return(back) => Arrive(env, s.(regs := back.(rip := env.ret)))
  }

  /**
   What is asked of an event: the program and its hooks spare the protected words, a trap has
   room for its frame clear of them, and the shell's hook does what its code says.
   */
  ghost predicate Allowed(env: Env, s: Sys, e: Event) {
    match e
    case Compute(_, writes) => forall a :: a in writes ==> !env.Protects(a)
    case Fault(vector, code, _, _, scratch, run) =>
      var low, top := FrameBase(s.regs.rsp, env.ist1, vector) - 8, FrameTop(s.regs.rsp, env.ist1, vector);
      && (code.Some? <==> vector in [8, 10, 11, 12, 13, 14, 17, 30])
      && 0 <= low
      && (forall a :: low <= a < top ==> !env.Protects(a))
      && (forall a :: a in scratch ==> !env.Protects(a) && !(low <= a < top))
      && (s.hook == Some(env.ShellHook()) ==> run == ShellAnswers(env, s.mem))
    case Answer(frame, _, _) => forall a :: frame <= a < frame + 8 * FRAME_WORDS ==> !env.Protects(a)
    case _ => true
  }

  function After(env: Env, s: Sys, events: seq<Event>): Sys
    decreases |events|
  {
    if events == [] then s else Next(env, After(env, s, events[..|events| - 1]), events[|events| - 1])
  }

  /** Every event happens while the program runs, and is allowed. */
  ghost predicate Behaves(env: Env, s: Sys, events: seq<Event>)
    decreases |events|
  {
    events == [] ||
    (var before, e := After(env, s, events[..|events| - 1]), events[|events| - 1];
     Behaves(env, s, events[..|events| - 1]) && before.phase == Running && Allowed(env, before, e))
  }

  lemma {:induction false} BehavesPrefix(env: Env, s: Sys, events: seq<Event>, n: nat)
    requires Behaves(env, s, events) && n <= |events|
    ensures Behaves(env, s, events[..n])
    ensures n < |events| ==> After(env, s, events[..n]).phase == Running
                             && Allowed(env, After(env, s, events[..n]), events[n])
    decreases |events| - n
  {
    if n == |events| {
      assert events[..n] == events;
    } else {
      BehavesPrefix(env, s, events, n + 1);
      assert events[..n + 1][..n] == events[..n];
    }
  }

  /* What every run keeps. */

  ghost predicate Inv(env: Env, m: Memory, c: seq<u64>, s: Sys)
    requires |c| == SAVED_WORDS
  {
    && Keeps(env, m, s.mem)
    && (s.phase == Running ==> s.regs.rip != env.restore)
    && (s.phase == Recovered ==> SecondReturn(s.regs, c))
  }

  lemma KeptBuffer(env: Env, m: Memory, m': Memory, c: seq<u64>)
    requires |c| == SAVED_WORDS && Holds(m, env.buf, c) && Keeps(env, m, m')
    ensures Holds(m', env.buf, c)
  {
  }

  lemma ArriveKeepsInv(env: Env, m: Memory, c: seq<u64>, s: Sys)
    requires |c| == SAVED_WORDS && Holds(m, env.buf, c) && Keeps(env, m, s.mem) && s.phase == Running
    ensures Inv(env, m, c, Arrive(env, s))
  {
    hide Restored, SecondReturn, Holds, Keeps;
    KeptBuffer(env, m, s.mem, c);
    if s.regs.rip == env.restore {
      RestoreReturns(s.regs, s.mem, env.buf, c);
    }
  }

  /** A trap spares the protected words. */
  lemma TrapKeeps(env: Env, s: Sys, e: Event)
    requires e.Fault? && Allowed(env, s, e)
    ensures Keeps(env, s.mem, TrapMemory(s.mem, s.regs, env.ist1, e.vector, e.code, e.entry, e.scratch, e.run))
  {
    hide TrapMemory, FrameTop, Load;
    TrapMemoryKeeps(s.mem, s.regs, env.ist1, e.vector, e.code, e.entry, e.scratch, e.run);
  }

  lemma StepKeepsInv(env: Env, m: Memory, c: seq<u64>, s: Sys, e: Event)
    requires |c| == SAVED_WORDS && Holds(m, env.buf, c)
    requires Inv(env, m, c, s) && s.phase == Running && Allowed(env, s, e)
    ensures Inv(env, m, c, Next(env, s, e))
  {
    hide Arrive, Holds, SecondReturn, TrapMemory, FrameTop, Resume, FrameAt;
    match e
    case Compute(regs, writes) => ArriveKeepsInv(env, m, c, s.(regs := regs, mem := s.mem + writes));
    case Fault(vector, code, entry, _, scratch, run) =>
      if s.hook.Some? {
        TrapKeeps(env, s, e);
        var shell := s.hook == Some(env.ShellHook());
        ArriveKeepsInv(env, m, c, Sys(s.phase, Resume(s.regs, run),
                                      TrapMemory(s.mem, s.regs, env.ist1, vector, code, entry, scratch, run), Left(run),
                                      if shell then Report(vector, s.regs.rip, CodeOf(code)) else s.report));
      }
    case Answer(frame, rip, rsp) =>
      var m' := AnsweredMemory(s.mem, frame, rip, rsp);
      assert forall a :: !(frame <= a < frame + 8 * FRAME_WORDS) ==> Load(m', a) == Load(s.mem, a);
      ArriveKeepsInv(env, m, c, s.(regs := RegsOf(FrameAt(m', frame)), mem := m'));
    case SetHook(_) =>
    case ClearHook =>
    case Stop =>
    case Return(back) => ArriveKeepsInv(env, m, c, s.(regs := back.(rip := env.ret)));
  }

  /**
   Every run, hooks and jumps of the program's own included: the protected words stay as they
   were, and control that comes back through `exc_restore` finds the saved context, result 1.
   */
  lemma {:induction false} RunKeepsInv(env: Env, c: seq<u64>, m: Memory, start: Sys, events: seq<Event>)
    requires |c| == SAVED_WORDS && Holds(m, env.buf, c)
    requires Inv(env, m, c, start) && Behaves(env, start, events)
    ensures Inv(env, m, c, After(env, start, events))
    decreases |events|
  {
    hide Inv, Allowed, Next, Holds;
    if events == [] {
    } else {
      var n := |events| - 1;
      RunKeepsInv(env, c, m, start, events[..n]);
      StepKeepsInv(env, m, c, After(env, start, events[..n]), events[n]);
    }
  }

  /* Which hook is installed. */

  predicate Installs(e: Event) {
    e.SetHook? || (e.Fault? && Left(e.run).Some?)
  }

  predicate Removes(e: Event) {
    e.ClearHook? || (e.Fault? && Left(e.run).None?)
  }

  /** Some event removed the hook -- cleared it, or was a trap whose hook left none -- and none after it installed one. */
  ghost predicate HookGone(events: seq<Event>) {
    exists k :: 0 <= k < |events| && Removes(events[k]) && forall j :: k < j < |events| ==> !Installs(events[j])
  }

  lemma HookGoneStep(events: seq<Event>)
    requires events != []
    ensures var n := |events| - 1;
            HookGone(events) <==> Removes(events[n]) || (!Installs(events[n]) && HookGone(events[..n]))
  {
    var n := |events| - 1;
    var before := events[..n];
    assert forall j :: 0 <= j < n ==> before[j] == events[j];
    if HookGone(before) && !Installs(events[n]) {
      var k :| 0 <= k < n && Removes(before[k]) && forall j :: k < j < n ==> !Installs(before[j]);
      assert Removes(events[k]);
    }
    if HookGone(events) && !Removes(events[n]) {
      var k :| 0 <= k < |events| && Removes(events[k]) && forall j :: k < j < |events| ==> !Installs(events[j]);
      assert Removes(before[k]);
    }
  }

  /** Entered under a hook, at every moment of every run none is installed exactly when the run's events removed it last. */
  lemma {:induction false} HookHistory(env: Env, start: Sys, events: seq<Event>)
    requires start.hook.Some? && Behaves(env, start, events) && After(env, start, events).phase != Halted
    ensures After(env, start, events).hook == None <==> HookGone(events)
    decreases |events|
  {
    hide Allowed, Restored, TrapMemory, Resume, FrameAt, AnsweredMemory;
    if events == [] {
    } else {
      HookHistory(env, start, events[..|events| - 1]);
      HookGoneStep(events);
    }
  }

  /** The hook `elf_exec` leaves behind: it clears the hook on the way back from a return, and only there. */
  function HookOnExit(s: Sys): Option<Hook> {
    if s.phase == Returned then None else s.hook
  }

  /**
   Back in `elf_exec`, no hook is installed if and only if control came back by a return, by a
   trap whose hook left none, or some other way when the hook was already gone.
   */
  lemma NoHookOnExitIff(env: Env, start: Sys, events: seq<Event>)
    requires start.hook.Some? && start.phase == Running && Behaves(env, start, events)
    requires After(env, start, events).phase != Running && After(env, start, events).phase != Halted
    ensures events != []
    ensures var last, before := events[|events| - 1], events[..|events| - 1];
            HookOnExit(After(env, start, events)) == None <==>
              || After(env, start, events).phase == Returned
              || (if last.Fault? then Left(last.run) == None else HookGone(before))
  {
    hide Allowed, Restored, TrapMemory, FrameAt, HookGone;
    HookHistory(env, start, events);
    HookGoneStep(events);
  }

  /** A hook that installs itself again before it answers `exc_restore` is still installed on exit. */
  lemma RearmedHookStays(env: Env, start: Sys, own: Hook, sp: u64, entry: u64, clobber: Gprs)
    requires env.Valid() && start.phase == Running && own != env.ShellHook()
    requires var low, top := FrameBase(start.regs.rsp, env.ist1, 6) - 8, FrameTop(start.regs.rsp, env.ist1, 6);
             0 <= low && forall a :: low <= a < top ==> !env.Protects(a)
    ensures var events := [SetHook(own), Fault(6, None, entry, clobber, map[], Answers(env.restore, sp, Some(own)))];
            && Behaves(env, start, events)
            && After(env, start, events).phase == Recovered
            && HookOnExit(After(env, start, events)) == Some(own)
  {
    hide FrameTop, TrapMemory, Restored;
    var install, fault := SetHook(own), Fault(6, None, entry, clobber, map[], Answers(env.restore, sp, Some(own)));
    var events := [install, fault];
    assert events[..1] == [install] && [install][..0] == [];
    assert After(env, start, []) == start && After(env, start, [install]) == start.(hook := Some(own));
    assert Behaves(env, start, []) && Behaves(env, start, [install]);
  }

  /** A program that jumps to `exc_restore` is taken for one that faulted, with the hook it ran under still installed. */
  lemma JumpKeepsHook(env: Env, start: Sys, regs: Regs)
    requires start.phase == Running && regs.rip == env.restore
    ensures Behaves(env, start, [Compute(regs, map[])])
    ensures After(env, start, [Compute(regs, map[])]).phase == Recovered
    ensures HookOnExit(After(env, start, [Compute(regs, map[])])) == start.hook
  {
    assert [Compute(regs, map[])][..0] == [];
  }

  /* How runs end. */

  /** Where an event leaves execution, if it moves it at all. */
  function LandsAt(env: Env, before: Sys, e: Event): Option<u64> {
    match e
    case Compute(regs, _) => Some(regs.rip)
    case Fault(_, _, _, _, _, run) =>
      if before.hook == None then None
      else if run.CarriesOn? then Some(run.regs.rip)
      else if run.rip != 0 then Some(run.rip)
      else Some(before.regs.rip)
    case Answer(frame, rip, _) => Some(if rip != 0 then rip else Load(before.mem, frame + 136))
    case Return(_) => Some(env.ret)
    case _ => None
  }

  /**
   How each event leaves the run. `elf_exec` has a return exactly when the program returned or came
   to the address after its call; it recovers exactly when execution came to `exc_restore`.
   */
  lemma EventEnds(env: Env, s: Sys, e: Event)
    requires env.Valid() && s.phase == Running
    ensures var phase, at := Next(env, s, e).phase, LandsAt(env, s, e);
            && (phase == Returned <==> at == Some(env.ret))
            && (phase == Recovered <==> at == Some(env.restore))
            && (phase == Strayed <==> at == Some(env.resume))
            && (phase == Halted <==> e.Stop? || (e.Fault? && s.hook == None))
    ensures e.Return? ==>
      var s' := Next(env, s, e);
      && s'.regs == e.back.(rip := env.ret) && s'.mem == s.mem && s'.hook == s.hook
    ensures e.Compute? && Next(env, s, e).phase == Running ==>
              Next(env, s, e) == s.(regs := e.regs, mem := s.mem + e.writes)
    ensures e.SetHook? ==> Next(env, s, e) == s.(hook := Some(e.hook))
    ensures e.ClearHook? ==> Next(env, s, e) == s.(hook := None)
  {
    hide TrapMemory, Restored;
  }

  /** Over every run: the phase it ends in says how its last event left it. */
  lemma RunEnds(env: Env, start: Sys, events: seq<Event>)
    requires env.Valid() && start.phase == Running && Behaves(env, start, events) && events != []
    ensures var before, last := After(env, start, events[..|events| - 1]), events[|events| - 1];
            var s, at := After(env, start, events), LandsAt(env, before, last);
            && (s.phase == Returned <==> at == Some(env.ret))
            && (s.phase == Recovered <==> at == Some(env.restore))
            && (s.phase == Strayed <==> at == Some(env.resume))
            && (s.phase == Halted <==> last.Stop? || (last.Fault? && before.hook == None))
            && (last.Return? ==> s.phase == Returned && HookOnExit(s) == None && s.regs == last.back.(rip := env.ret))
  {
    hide Next, Allowed;
    EventEnds(env, After(env, start, events[..|events| - 1]), events[|events| - 1]);
  }

  lemma HaltsIffUnhooked(env: Env, s: Sys, e: Event)
    requires s.phase == Running && e.Fault?
    ensures Next(env, s, e).phase == Halted <==> s.hook == None
  {
  }

  /** The machine halts exactly when the last event stopped it or was a fault with the hook gone. */
  lemma HaltedIff(env: Env, start: Sys, events: seq<Event>)
    requires start.hook.Some? && start.phase == Running && Behaves(env, start, events)
    ensures After(env, start, events).phase == Halted <==>
              && events != []
              && var last, before := events[|events| - 1], events[..|events| - 1];
                 last.Stop? || (last.Fault? && HookGone(before))
  {
    hide Allowed, Restored, TrapMemory, HookGone;
    if events != [] {
      var before, last := events[..|events| - 1], events[|events| - 1];
      HookHistory(env, start, before);
      if last.Fault? {
        HaltsIffUnhooked(env, After(env, start, before), last);
      }
    }
  }

  /** A fault under the shell's hook is caught, and reported as it happened. */
  lemma FaultIsCaught(env: Env, s: Sys, e: Event)
    requires env.Valid() && e.Fault? && s.hook == Some(env.ShellHook()) && Allowed(env, s, e)
    ensures var s' := Next(env, s, e);
            && s'.phase == Recovered && s'.hook == None
            && s'.report == Report(e.vector, s.regs.rip, CodeOf(e.code))
  {
    hide FrameTop, TrapMemory, Restored;
  }

  predicate LeavesHooksAlone(e: Event) {
    !e.SetHook? && !e.ClearHook?
  }

  /**
   A program that leaves hooks alone halts the machine only by asking for it; a fault is its
   last event, is caught, and is reported as it happened, with no hook left.
   */
  lemma {:induction false} PoliteProgramIsCaught(env: Env, start: Sys, events: seq<Event>)
    requires env.Valid() && start.phase == Running && start.hook == Some(env.ShellHook())
    requires Behaves(env, start, events) && forall e :: e in events ==> LeavesHooksAlone(e)
    ensures var s := After(env, start, events);
            && (s.phase == Running ==> s.hook == Some(env.ShellHook()))
            && (s.phase == Halted <==> events != [] && events[|events| - 1].Stop?)
            && (events != [] && events[|events| - 1].Fault? ==>
                  var before, fault := After(env, start, events[..|events| - 1]), events[|events| - 1];
                  && s.phase == Recovered && s.hook == None
                  && s.report == Report(fault.vector, before.regs.rip, if fault.code.Some? then fault.code.value else 0))
    decreases |events|
  {
    hide Allowed, Restored, TrapMemory;
    if events == [] {
    } else {
      var n := |events| - 1;
      assert events[n] in events;
      PoliteProgramIsCaught(env, start, events[..n]);
      if events[n].Fault? {
        FaultIsCaught(env, After(env, start, events[..n]), events[n]);
      }
    }
  }

  /* `elf_exec`. */

  /** Registers and memory at the call of `exc_save`: the stack recorded, the return address pushed. */
  function AtSave(env: Env, r: Regs, m: Memory): (Regs, Memory)
    requires 8 <= r.rsp
  {
    (r.(rsp := r.rsp - 8), m[env.rspVar := r.rsp][r.rsp - 8 := env.resume])
  }

  /** The registers with which `exc_save` returns the first time. */
  function FirstReturn(env: Env, r: Regs, m: Memory): (first: Regs)
    requires 8 <= r.rsp
    ensures first.rsp == r.rsp
  {
    var (r1, m1) := AtSave(env, r, m);
    SaveReturn(r1, m1, env.buf)
  }

  /** The state in which the program is entered: by a call, under the shell's hook. */
  function Entered(env: Env, r: Regs, m: Memory, entry: u64, report: Report): Sys
    requires 8 <= r.rsp
  {
    var (r1, m1) := AtSave(env, r, m);
    var first := FirstReturn(env, r, m);
    Arrive(env, Sys(Running, first.(rsp := r.rsp - 8, rip := entry),
                    Saved(m1, env.buf, Context(r1, m1))[r.rsp - 8 := env.ret],
                    Some(env.ShellHook()), report))
  }

  /** The whole state, from the machine. */
  ghost function View(cpu: Cpu, phase: Phase, report: Report): Sys
    requires 0 <= cpu.rsp < U64
    reads cpu
  {
    Sys(phase, cpu.Running(), cpu.mem, cpu.hook, report)
  }

  /** Goes through `exc_restore` if execution has come to it, and stops where `elf_exec` goes on. */
  method GoOn(cpu: Cpu, env: Env, ghost report: Report) returns (phase: Phase)
    requires 0 <= cpu.rsp < U64
    modifies cpu`gpr, cpu`rip, cpu`rsp
    ensures 0 <= cpu.rsp < U64 && View(cpu, phase, report) == Arrive(env, old(View(cpu, Running, report)))
  {
    hide Restored;
    if cpu.rip == env.restore {
      ExcRestore(cpu, env.buf);
      return Recovered;
    }
    return if cpu.rip == env.ret then Returned else if cpu.rip == env.resume then Strayed else Running;
  }

  /** `exc_hook_fn`: records the fault and answers `exc_restore` with the recorded stack. */
  method ExcHookFn(cpu: Cpu, env: Env, vector: u64, rip: u64, code: u64) returns (run: HookRun, report: Report)
    ensures run == Answers(env.restore, Load(cpu.mem, env.rspVar), None) && report == Report(vector, rip, code)
  {
    report := Report(vector, rip, code);
    run := Answers(env.restore, Load(cpu.mem, env.rspVar), None);
  }

  /** A fault on the machine: trap, hook, `iretq`, and `exc_restore` if that is where it resumes. */
  method TakeFault(cpu: Cpu, env: Env, e: Event, report: Report) returns (phase: Phase, report': Report)
    requires 0 <= cpu.rsp < U64 && cpu.ist1 == env.ist1 && e.Fault? && Allowed(env, View(cpu, Running, report), e)
    modifies cpu
    ensures var s' := Next(env, old(View(cpu, Running, report)), e);
            && phase == s'.phase
            && (phase != Halted ==> 0 <= cpu.rsp < U64 && View(cpu, phase, report') == s')
  {
    hide FrameTop, Restored, TrapMemory, Resume;
    var run;
    run, report' := e.run, report;
    if cpu.hook == Some(env.ShellHook()) {
      run, report' := ExcHookFn(cpu, env, e.vector, cpu.rip, CodeOf(e.code));
    }
    ResumeCases(cpu.Running(), run);
    var halted := cpu.Trap(e.vector, e.code, e.entry, e.clobber, e.scratch, run);
    if halted {
      return Halted, report';
    }
    phase := GoOn(cpu, env, report');
  }

  /** One event of the program, on the machine. */
  method Perform(cpu: Cpu, env: Env, e: Event, report: Report) returns (phase: Phase, report': Report)
    requires 0 <= cpu.rsp < U64 && cpu.ist1 == env.ist1 && Allowed(env, View(cpu, Running, report), e)
    modifies cpu
    ensures var s' := Next(env, old(View(cpu, Running, report)), e);
            && phase == s'.phase
            && (phase != Halted ==> 0 <= cpu.rsp < U64 && View(cpu, phase, report') == s')
  {
    hide Restored, TrapMemory, Resume, Arrive, FrameAt;
    phase, report' := Running, report;
    match e
    case Compute(r, writes) =>
      cpu.gpr, cpu.rip, cpu.cs, cpu.rflags, cpu.rsp, cpu.ss := r.gpr, r.rip, r.cs, r.rflags, r.rsp, r.ss;
      cpu.mem := cpu.mem + writes;
      phase := GoOn(cpu, env, report);
    case SetHook(h) => cpu.SetHook(h);
    case ClearHook => cpu.ClearHook();
    case Fault(_, _, _, _, _, _) => phase, report' := TakeFault(cpu, env, e, report);
    case Answer(frame, rip, rsp) =>
      cpu.Answered(frame, rip, rsp);
      phase := GoOn(cpu, env, report);
    case Stop => phase := Halted;
    case Return(r) =>
      cpu.gpr, cpu.rip, cpu.cs, cpu.rflags, cpu.rsp, cpu.ss := r.gpr, env.ret, r.cs, r.rflags, r.rsp, r.ss;
      phase := GoOn(cpu, env, report);
  }

  /**
   `elf_exec` on the machine, up to its return or to where the program leaves it; the program is
   a list of events.
   */
  method ElfExec(cpu: Cpu, env: Env, entry: u64, program: seq<Event>, was: Report)
    returns (end: Phase, caught: bool, report: Report)
    requires env.Valid() && 8 <= cpu.rsp < U64 && cpu.ist1 == env.ist1 && !env.Protects(cpu.rsp - 8)
    requires Behaves(env, Entered(env, cpu.Running(), cpu.mem, entry, was), program)
    modifies cpu
    ensures var s := After(env, old(Entered(env, cpu.Running(), cpu.mem, entry, was)), program);
            && end == s.phase && (caught <==> end == Recovered)
            && (end != Halted ==> 0 <= cpu.rsp < U64 && View(cpu, end, report) == s.(hook := HookOnExit(s)))
    ensures end == Recovered ==> ReturnsAgain(old(FirstReturn(env, cpu.Running(), cpu.mem)), cpu.Running())
    ensures end == Returned ==> cpu.hook == None
    ensures program != [] && program[|program| - 1].Return? ==>
      end == Returned && !caught && cpu.hook == None
      && cpu.Running() == program[|program| - 1].back.(rip := env.ret)
  {
    hide Restored, Arrive, Next, Allowed, ReturnsAgain, Saved, SaveReturn, Context;
    ghost var r, m := cpu.Running(), cpu.mem;
    ghost var start := Entered(env, r, m, entry, was);
    caught, report := false, was;
    cpu.mem := cpu.mem[env.rspVar := cpu.rsp];
    cpu.SetHook(env.ShellHook());
    cpu.Push(env.resume);
    ExcSave(cpu, env.buf);
    // 0 from exc_save: call the program
    cpu.Push(env.ret);
    cpu.rip := entry;
    end := GoOn(cpu, env, report);
    for i := 0 to |program|
      invariant var s := After(env, start, program[..i]);
                && end == s.phase
                && (end != Halted ==> 0 <= cpu.rsp < U64 && View(cpu, end, report) == s)
    {
      BehavesPrefix(env, start, program, i);
      assert program[..i + 1][..i] == program[..i];
      end, report := Perform(cpu, env, program[i], report);
    }
    assert program[..|program|] == program;
    RecoveredAsSaved(env, r, m, entry, was, program);
    if program != [] {
      BehavesPrefix(env, start, program, 0);
      assert program[..0] == [];
      RunEnds(env, start, program);
    }
    if end == Returned {
      cpu.ClearHook();
    } else if end == Recovered {
      // 1 from exc_save
      caught := true;
    }
  }

  /** A word of the caller's stack that is neither the recorded stack pointer nor in the buffer. */
  predicate CallersOwn(env: Env, a: int) {
    env.callerLow <= a < env.callerHigh && a != env.rspVar && !(env.buf <= a < env.buf + 8 * SAVED_WORDS)
  }

  /**
   From the state in which `elf_exec` runs: whatever the program does, if control comes back
   through `exc_restore` then `exc_save` returns 1 with the stack and the preserved registers of
   its first return; and the recorded stack and the caller's stack are as they were.
   */
  lemma RecoveredAsSaved(env: Env, r: Regs, m: Memory, entry: u64, was: Report, program: seq<Event>)
    requires env.Valid() && 8 <= r.rsp && !env.Protects(r.rsp - 8)
    requires Behaves(env, Entered(env, r, m, entry, was), program)
    ensures var s := After(env, Entered(env, r, m, entry, was), program);
            && (s.phase == Recovered ==> ReturnsAgain(FirstReturn(env, r, m), s.regs))
            && Load(s.mem, env.rspVar) == r.rsp
            && forall a :: CallersOwn(env, a) ==> Load(s.mem, a) == Load(m, a)
  {
    hide Restored, Arrive, Next, Allowed, ReturnsAgain, SecondReturn, Saved, SaveReturn, Context, After, Behaves;
    var (r1, m1) := AtSave(env, r, m);
    var c, first := Context(r1, m1), FirstReturn(env, r, m);
    var m2 := Saved(m1, env.buf, c)[r.rsp - 8 := env.ret];
    assert Holds(m2, env.buf, c);
    ArriveKeepsInv(env, m2, c, Sys(Running, first.(rsp := r.rsp - 8, rip := entry), m2, Some(env.ShellHook()), was));
    ArriveKeepsMemory(env, Sys(Running, first.(rsp := r.rsp - 8, rip := entry), m2, Some(env.ShellHook()), was));
    var start := Entered(env, r, m, entry, was);
    RunKeepsInv(env, c, m2, start, program);
    var s := After(env, start, program);
    if s.phase == Recovered {
      SaveThenRestore(r1, m1, env.buf, s.regs);
    }
    assert Keeps(env, m2, s.mem) && env.Protects(env.rspVar) && env.rspVar != r.rsp - 8;
    assert Load(m1, env.rspVar) == r.rsp;
    forall a | CallersOwn(env, a)
      ensures Load(s.mem, a) == Load(m, a)
    {
      assert env.Protects(a) && a != r.rsp - 8;
      assert Load(m2, a) == Load(m1, a);
    }
  }

  lemma ArriveKeepsMemory(env: Env, s: Sys)
    ensures Arrive(env, s).mem == s.mem
  {
  }
}
