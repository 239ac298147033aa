/**
 The module registry: modules handed over by the boot loader are registered, the start-up
 ones are run in order, and one shell is entered last.

 C strings are sequences without their terminating zero. Entering a module is recorded in a
 log; the module's code itself is outside the model and returns.
 */
module Modules {
  import opened Machine
  import Multiboot

  const MAX_MODULES: nat := 16
  const CMDLINE_SIZE: nat := 64

  /** "COMMAND.KERN" */
  const COMMAND_KERN: seq<byte> := [0x43, 0x4F, 0x4D, 0x4D, 0x41, 0x4E, 0x44, 0x2E, 0x4B, 0x45, 0x52, 0x4E]

  /** "command.com" */
  const COMMAND_COM: seq<byte> := [0x63, 0x6F, 0x6D, 0x6D, 0x61, 0x6E, 0x64, 0x2E, 0x63, 0x6F, 0x6D]

  datatype Status = Loaded | Running | Failed

  /** The name field of a header whose magic number is right. */
  datatype Header = Header(name: seq<byte>)

  datatype Module = Module(start: nat, end: nat, cmdline: seq<byte>, status: Status, header: Option<Header>)

  /** `str_copy(dst, src, max)`: at most `max - 1` characters. */
  function StrCopy(src: seq<byte>, max: nat): seq<byte>
    requires max > 0
  {
    if |src| < max then src else src[..max - 1]
  }

  predicate NameEq(m: Module, name: seq<byte>) {
    m.cmdline == name || (m.header.Some? && m.header.value.name == name)
  }

  predicate IsShell(m: Module) {
    NameEq(m, COMMAND_KERN) || NameEq(m, COMMAND_COM)
  }

  /** A module as registered: failed, and without a header, iff its magic number is wrong. */
  function Registered(start: nat, end: nat, cmdline: seq<byte>, header: Option<Header>): Module {
    Module(start, end, StrCopy(cmdline, CMDLINE_SIZE), if header.Some? then Loaded else Failed, header)
  }

  /** A module `modules_run_all` enters. */
  predicate Starts(m: Module) {
    m.status == Loaded && m.header.Some? && !IsShell(m)
  }

  /** The indexes below `n` of the modules to start, in order. */
  function StartOrder(ms: seq<Module>, n: nat): seq<nat>
    requires n <= |ms|
  {
    if n == 0 then [] else StartOrder(ms, n - 1) + if Starts(ms[n - 1]) then [n - 1] else []
  }

  /** The first module with this name, from index `i` on. */
  function FindFrom(ms: seq<Module>, name: seq<byte>, i: nat): (r: Option<nat>)
    requires i <= |ms|
    ensures r.Some? ==> i <= r.value < |ms| && NameEq(ms[r.value], name)
    ensures r.Some? ==> forall j :: i <= j < r.value ==> !NameEq(ms[j], name)
    ensures r.None? ==> forall j :: i <= j < |ms| ==> !NameEq(ms[j], name)
    decreases |ms| - i
  {
    if i == |ms| then None else if NameEq(ms[i], name) then Some(i) else FindFrom(ms, name, i + 1)
  }

  /** The module launched for one candidate name: the first so named, if its header is valid. */
  function Candidate(ms: seq<Module>, name: seq<byte>): Option<nat> {
    var i := FindFrom(ms, name, 0);
    if i.Some? && ms[i.value].header.Some? then i else None
  }

  function LaunchTarget(ms: seq<Module>): Option<nat> {
    if Candidate(ms, COMMAND_KERN).Some? then Candidate(ms, COMMAND_KERN) else Candidate(ms, COMMAND_COM)
  }

  /** The modules after those at `indexes` were entered. */
  function Entered(ms: seq<Module>, indexes: seq<nat>): seq<Module> {
    seq(|ms|, i requires 0 <= i < |ms| => if i in indexes then ms[i].(status := Running) else ms[i])
  }

  class Registry {
    var modules: seq<Module>
    /** Which modules were entered, by index, oldest first. */
    var log: seq<nat>

    constructor ()
      ensures modules == [] && log == []
    {
      modules, log := [], [];
    }

    /** `header` is what lies at `start`, if its magic number is right. */
    method Register(start: nat, end: nat, cmdline: seq<byte>, header: Option<Header>)
      modifies this`modules
      ensures modules ==
              if |old(modules)| >= MAX_MODULES then old(modules)
              else old(modules) + [Registered(start, end, cmdline, header)]
    {
      if |modules| >= MAX_MODULES {
        return;
      }
      var m := Module(start, end, StrCopy(cmdline, CMDLINE_SIZE), Loaded, header);
      if header.None? {
        m := m.(status := Failed);
      }
      modules := modules + [m];
    }

    method Find(name: seq<byte>) returns (r: Option<nat>)
      ensures r == FindFrom(modules, name, 0)
    {
      var i := 0;
      while i < |modules|
        invariant 0 <= i <= |modules| && FindFrom(modules, name, i) == FindFrom(modules, name, 0)
      {
        if NameEq(modules[i], name) {
          return Some(i);
        }
        i := i + 1;
      }
      return None;
    }

    method RunAll()
      modifies this
      ensures log == old(log) + StartOrder(old(modules), |old(modules)|)
      ensures modules == Entered(old(modules), StartOrder(old(modules), |old(modules)|))
    {
      ghost var was := modules;
      for i := 0 to |modules|
        invariant |modules| == |was| && log == old(log) + StartOrder(was, i)
        invariant forall j :: i <= j < |was| ==> modules[j] == was[j]
        invariant forall j :: 0 <= j < i ==>
          modules[j] == if Starts(was[j]) then was[j].(status := Running) else was[j]
      {
        var m := modules[i];
        if m.status != Loaded || m.header == None {
          continue;
        }
        if IsShell(m) {
          continue;
        }
        modules := modules[i := m.(status := Running)];
        log := log + [i];
      }
      StartOrderIs(was, |was|);
    }

    method LaunchEntry() returns (launched: bool)
      modifies this
      ensures var target := LaunchTarget(old(modules));
              && launched == target.Some?
              && log == old(log) + (if target.Some? then [target.value] else [])
              && modules == Entered(old(modules), if target.Some? then [target.value] else [])
    {
      var candidates := [COMMAND_KERN, COMMAND_COM];
      for i := 0 to |candidates|
        invariant modules == old(modules) && log == old(log)
        invariant i > 0 ==> Candidate(modules, COMMAND_KERN) == None
        invariant i > 1 ==> Candidate(modules, COMMAND_COM) == None
      {
        var m := Find(candidates[i]);
        if m == None || modules[m.value].header == None {
          continue;
        }
        modules := modules[m.value := modules[m.value].(status := Running)];
        log := log + [m.value];
        return true;
      }
      return false;
    }
  }

  lemma {:induction false} StartOrderIs(ms: seq<Module>, n: nat)
    requires n <= |ms|
    ensures forall i: nat :: i in StartOrder(ms, n) <==> i < n && Starts(ms[i])
    ensures forall a, b :: 0 <= a < b < |StartOrder(ms, n)| ==> StartOrder(ms, n)[a] < StartOrder(ms, n)[b]
    decreases n
  {
    if n == 0 {
    } else {
      StartOrderIs(ms, n - 1);
      var before := StartOrder(ms, n - 1);
      assert forall a :: 0 <= a < |before| ==> before[a] in before;
    }
  }

  /* A whole boot. */

  /** What the boot loader handed over, with the headers found in memory, as the registry keeps it. */
  function RegisterAll(loads: seq<Multiboot.Loaded>, headers: map<nat, Header>): seq<Module>
  {
    if loads == [] then []
    else
      var k := |loads| - 1;
      var ms, l := RegisterAll(loads[..k], headers), loads[k];
      if |ms| >= MAX_MODULES then ms
      else ms + [Registered(l.start, l.end, l.cmdline, if l.start in headers then Some(headers[l.start]) else None)]
  }

  lemma RegisterNone(headers: map<nat, Header>)
    ensures RegisterAll([], headers) == []
  {
  }

  lemma RegisterNext(loads: seq<Multiboot.Loaded>, headers: map<nat, Header>, i: nat)
    requires i < |loads|
    ensures var ms, l := RegisterAll(loads[..i], headers), loads[i];
            RegisterAll(loads[..i + 1], headers) ==
              if |ms| >= MAX_MODULES then ms
              else ms + [Registered(l.start, l.end, l.cmdline, if l.start in headers then Some(headers[l.start]) else None)]
  {
    assert loads[..i + 1][..i] == loads[..i];
  }

  /** `hal_arch_init`'s registrations, then `modules_run_all`, then `modules_launch_entry`. */
  method BootModules(loads: seq<Multiboot.Loaded>, headers: map<nat, Header>) returns (r: Registry, launched: bool)
    ensures fresh(r)
    ensures r.log == BootLog(RegisterAll(loads, headers))
    ensures var ms := RegisterAll(loads, headers);
            && |r.modules| == |ms|
            && forall i :: 0 <= i < |ms| ==> r.modules[i] == if i in r.log then ms[i].(status := Running) else ms[i]
    ensures launched <==> LaunchTarget(RegisterAll(loads, headers)).Some?
  {
    hide StartOrder, IsShell, NameEq, LaunchTarget, Entered, RegisterAll, Registered;
    RegisterNone(headers);
    r := new Registry();
    for i := 0 to |loads|
      invariant fresh(r) && r.log == [] && r.modules == RegisterAll(loads[..i], headers)
    {
      var l := loads[i];
      RegisterNext(loads, headers, i);
      r.Register(l.start, l.end, l.cmdline, if l.start in headers then Some(headers[l.start]) else None);
    }
    assert loads[..|loads|] == loads;
    ghost var ms := r.modules;
    r.RunAll();
    EnteringKeepsNames(ms, StartOrder(ms, |ms|));
    launched := r.LaunchEntry();
    ghost var target := LaunchTarget(ms);
    EnteredTwice(ms, StartOrder(ms, |ms|), if target.Some? then [target.value] else []);
  }

  lemma EnteredTwice(ms: seq<Module>, first: seq<nat>, second: seq<nat>)
    ensures var both := Entered(Entered(ms, first), second);
            && |both| == |ms|
            && forall i :: 0 <= i < |ms| ==> both[i] == if i in first + second then ms[i].(status := Running) else ms[i]
  {
  }

  /** The modules entered in a boot, in order. */
  function BootLog(ms: seq<Module>): seq<nat> {
    var target := LaunchTarget(ms);
    StartOrder(ms, |ms|) + if target.Some? then [target.value] else []
  }

  /** Running modules does not change which one is launched. */
  lemma EnteringKeepsNames(ms: seq<Module>, indexes: seq<nat>)
    ensures LaunchTarget(Entered(ms, indexes)) == LaunchTarget(ms)
  {
    var after := Entered(ms, indexes);
    assert forall i, name :: 0 <= i < |ms| ==> NameEq(after[i], name) == NameEq(ms[i], name);
    SameFind(ms, after, COMMAND_KERN, 0);
    SameFind(ms, after, COMMAND_COM, 0);
  }

  lemma {:induction false} SameFind(ms: seq<Module>, ms': seq<Module>, name: seq<byte>, i: nat)
    requires |ms| == |ms'| && i <= |ms|
    requires forall j :: 0 <= j < |ms| ==> NameEq(ms'[j], name) == NameEq(ms[j], name)
    ensures FindFrom(ms', name, i) == FindFrom(ms, name, i)
    decreases |ms| - i
  {
  }

  /** At most 16 are kept, the first ones in order, and a module has failed exactly when it has no header. */
  lemma {:induction false} RegisteredModules(loads: seq<Multiboot.Loaded>, headers: map<nat, Header>)
    ensures var ms := RegisterAll(loads, headers);
            && |ms| == Min(|loads|, 16)
            && (forall i :: 0 <= i < |ms| ==>
                  && ms[i].start == loads[i].start && ms[i].end == loads[i].end
                  && ms[i].cmdline == (if |loads[i].cmdline| < 64 then loads[i].cmdline else loads[i].cmdline[..63])
                  && ms[i].header == (if loads[i].start in headers then Some(headers[loads[i].start]) else None)
                  && (ms[i].status == Failed <==> ms[i].header == None)
                  && (ms[i].status == Loaded <==> ms[i].header.Some?))
    decreases |loads|
  {
    if loads == [] {
    } else {
      RegisteredModules(loads[..|loads| - 1], headers);
    }
  }

  /** The module goes by this name: as its command line, or in its header. */
  predicate Called(m: Module, name: seq<byte>) {
    m.cmdline == name || (m.header.Some? && m.header.value.name == name)
  }

  predicate FirstCalled(ms: seq<Module>, name: seq<byte>, i: nat) {
    i < |ms| && Called(ms[i], name) && forall j :: 0 <= j < i ==> !Called(ms[j], name)
  }

  /** The first module of that name has a header. */
  ghost predicate Usable(ms: seq<Module>, name: seq<byte>) {
    exists i: nat :: FirstCalled(ms, name, i) && ms[i].header.Some?
  }

  lemma Spelled()
    ensures COMMAND_KERN == Ascii("COMMAND.KERN") && COMMAND_COM == Ascii("command.com")
  {
  }

  lemma ShellsAre(m: Module)
    ensures IsShell(m) <==> Called(m, Ascii("COMMAND.KERN")) || Called(m, Ascii("command.com"))
  {
    hide Ascii;
    Spelled();
  }

  lemma CandidateIs(ms: seq<Module>, name: seq<byte>)
    ensures forall i: nat :: Candidate(ms, name) == Some(i) <==> FirstCalled(ms, name, i) && ms[i].header.Some?
    ensures Candidate(ms, name) == None <==> !Usable(ms, name)
  {
    var found := FindFrom(ms, name, 0);
    if found.Some? {
      assert FirstCalled(ms, name, found.value);
    }
    forall i: nat | FirstCalled(ms, name, i)
      ensures found == Some(i)
    {
    }
  }

  /**
   Which shell a boot enters last: the first module called COMMAND.KERN, if it has a header; else
   the first one called command.com, if that has one; else none.
   */
  lemma ShellEntered(ms: seq<Module>, i: nat)
    ensures FirstCalled(ms, Ascii("COMMAND.KERN"), i) && ms[i].header.Some? ==>
              BootLog(ms) == StartOrder(ms, |ms|) + [i]
    ensures !Usable(ms, Ascii("COMMAND.KERN")) && FirstCalled(ms, Ascii("command.com"), i) && ms[i].header.Some? ==>
              BootLog(ms) == StartOrder(ms, |ms|) + [i]
    ensures !Usable(ms, Ascii("COMMAND.KERN")) && !Usable(ms, Ascii("command.com")) ==>
              BootLog(ms) == StartOrder(ms, |ms|)
  {
    hide Candidate, FirstCalled, Usable, StartOrder, Ascii;
    Spelled();
    CandidateIs(ms, COMMAND_KERN);
    CandidateIs(ms, COMMAND_COM);
  }

  lemma TargetIsShell(ms: seq<Module>)
    ensures LaunchTarget(ms).Some? ==>
      var i := LaunchTarget(ms).value;
      i < |ms| && IsShell(ms[i]) && ms[i].header.Some?
    ensures LaunchTarget(ms).Some? <==> Usable(ms, Ascii("COMMAND.KERN")) || Usable(ms, Ascii("command.com"))
  {
    hide FirstCalled, Ascii, Usable;
    Spelled();
    CandidateIs(ms, COMMAND_KERN);
    CandidateIs(ms, COMMAND_COM);
  }

  /**
   A boot enters every valid module that is no shell exactly once and in order, then at most one
   shell -- none exactly if the first module of each shell name is missing or has failed; no
   module is entered twice and none that failed.
   */
  lemma BootEntersRightly(loads: seq<Multiboot.Loaded>, headers: map<nat, Header>)
    ensures var ms := RegisterAll(loads, headers);
            var kern, com, log := Ascii("COMMAND.KERN"), Ascii("command.com"), BootLog(ms);
            && (forall a, b :: 0 <= a < b < |log| ==> log[a] != log[b])
            && (forall i :: i in log ==> i < |ms| && ms[i].status != Failed)
            && (forall i :: 0 <= i < |ms| ==>
                  (i in StartOrder(ms, |ms|) <==> ms[i].status != Failed && !Called(ms[i], kern) && !Called(ms[i], com)))
            && (forall a, b :: 0 <= a < b < |StartOrder(ms, |ms|)| ==> log[a] < log[b])
            && ((exists i :: i in log && (Called(ms[i], kern) || Called(ms[i], com))) <==>
                  Usable(ms, kern) || Usable(ms, com))
  {
    hide Usable, LaunchTarget, IsShell, StartOrder, RegisterAll, StrCopy, Called, Ascii;
    var ms := RegisterAll(loads, headers);
    RegisteredModules(loads, headers);
    StartOrderIs(ms, |ms|);
    TargetIsShell(ms);
    forall i | 0 <= i < |ms|
      ensures IsShell(ms[i]) <==> Called(ms[i], Ascii("COMMAND.KERN")) || Called(ms[i], Ascii("command.com"))
    {
      ShellsAre(ms[i]);
    }
    var order, log := StartOrder(ms, |ms|), BootLog(ms);
    assert forall a :: 0 <= a < |order| ==> log[a] == order[a] && order[a] in order;
  }

  /** Cutting the command line to 63 characters never makes or unmakes a shell. */
  lemma TruncationKeepsShells(start: nat, end: nat, cmdline: seq<byte>, header: Option<Header>)
    ensures IsShell(Registered(start, end, cmdline, header)) <==>
            IsShell(Module(start, end, cmdline, if header.Some? then Loaded else Failed, header))
  {
  }
}
