/**
 The kernel's start: boot information in, console chosen, memory and heap brought up, modules
 entered.
 */
module Kernel {
  import opened Machine
  import opened Multiboot
  import opened MultibootProps
  import opened Pmm
  import opened PmmProps
  import opened Heap
  import Modules

  const MULTIBOOT2_MAGIC := 0x36D7_6289

  /** `hal_mem_set_map` and `hal_mem_get_map`: at most 64 regions, the first ones. */
  function StoredMap(regions: seq<Region>): seq<Region> {
    Take(regions, MAX_REGIONS)
  }

  /** How the start went: the console, the heap's outcome if it got there, the modules entered if it got there. */
  datatype Start = Start(console: Walk<Console>, heap: Option<Outcome>, entered: Option<seq<nat>>)

  /**
   `kernel_main`, on whatever the boot loader left at `addr`. It gets as far as the heap when the
   magic number is right and both tag walks come to their end; the heap comes up exactly when the
   window after the kernel is free; then the modules handed over are run. If the boot information
   holds the tags `ts`, all that is said in their terms.
   */
  method KernelMain(magic: u64, addr: u64, info: seq<byte>, kernelEnd: u64, headers: map<nat, Modules.Header>,
                    pmm: FrameMap, heap: KernelHeap, ghost ts: seq<Tag>)
    returns (r: Start)
    requires pmm.Valid()
    modifies pmm, pmm.bitmap, heap
    ensures r.console == ConsoleOf(addr, info)
    ensures r.heap.Some? <==> r.console.Found? && magic == 0x36D7_6289 && BootOf(info).Found?
    ensures r.heap.Some? ==>
      var mm := BootOf(info).value.regions;
      && (r.heap.value == Ready <==>
            0 < PageUp(kernelEnd) && HeapWindowFree(InitialFree(mm, kernelEnd), TotalFrames(mm), kernelEnd))
      && (EndsBelow2To44(mm) ==> (r.heap.value == Ready <==> 0 < PageUp(kernelEnd) && HeapBacked(mm, kernelEnd)))
    ensures r.entered ==
            if r.heap == Some(Ready) then
              Some(Modules.BootLog(Modules.RegisterAll(BootOf(info).value.modules, headers)))
            else None
    ensures r.heap == Some(Ready) ==> pmm.Valid() && heap.Value().Valid()
    ensures HoldsTags(info, ts) ==>
      && BootOf(info) == Found(Boot(Take(AllRegions(ts), 64), AllModules(ts)))
      && r.console ==
         Found(if addr != 0 && AsksSerial(ts) then Serial else Vga)
  {
    hide BootOf, ConsoleOf, HoldsTags, AsksSerial, AllRegions, AllModules, FirstCmdline, HeapBacked, Modules.BootLog,
         Modules.RegisterAll;
    if HoldsTags(info, ts) {
      BootInformationReads(addr, info, ts);
    }
    var console := EarlyParseConsole(addr, info);
    r := Start(console, None, None);
    if !console.Found? || magic != MULTIBOOT2_MAGIC {
      return;
    }
    var boot := HalArchInit(info);
    if !boot.Found? {
      return;
    }
    StoredAll(info);
    var outcome := BootMemory(StoredMap(boot.value.regions), kernelEnd, pmm, heap);
    r := r.(heap := Some(outcome));
    if outcome != Ready {
      return;
    }
    var registry, _ := Modules.BootModules(boot.value.modules, headers);
    r := r.(entered := Some(registry.log));
  }

  /** The walk never finds more regions than the map has room for. */
  lemma StoredAll(info: seq<byte>)
    requires BootOf(info).Found?
    ensures StoredMap(BootOf(info).value.regions) == BootOf(info).value.regions
  {
  }
}
