# KDOS, modelled and proved in Dafny

KDOS is a small bare-metal x86-64 kernel with a command shell. This project models its stateful
parts and proves what they promise, from the boot loader's tags to a program that faults and is
caught. `dafny verify dfyconfig.toml` checks everything.

Each part has the same shape. Code that changes state in place is a method, usually of a class
with the source's own variables, proved against a specification function or predicate; the
promises themselves are lemmas about that specification, over all inputs or all runs. Machine
arithmetic that can wrap is written out (`Add64`, `Add32`, `Sub64`, `Trunc32`).

| files | part of KDOS |
|---|---|
| `Machine.dfy` | widths, page rounding, little-endian fields |
| `Pmm.dfy`, `PmmProps.dfy`, `Heap.dfy` | frame bitmap, first-fit search, kernel heap, boot-time memory |
| `Elf.dfy`, `ElfImage.dfy`, `ElfLayout.dfy`, `Transfer.dfy` | ELF loader, program files as they are written, the KELF transfer, the `load` command |
| `Vga.dfy`, `LineEdit.dfy`, `LineEditProps.dfy`, `Keyboard.dfy`, `Console.dfy` | screen, line editors, keyboard, and the three together |
| `Trap.dfy`, `Recovery.dfy` | exception frames, the handler and its hook, `exc_save`/`exc_restore`, `elf_exec` and program runs |
| `Multiboot.dfy`, `MultibootProps.dfy`, `Modules.dfy`, `Paging.dfy`, `Kernel.dfy` | tag walks, module registry, page tables, the start of the kernel |

Four modelling choices matter for reading the results.

* Memory for loading is one array of 128 MB, the identity-mapped range, in which the received file
  also lies. Touching a byte above it is a page fault and an outcome of its own. The loader reads the
  file header from that array on every turn, and a program header once more after its own copy, as
  the source does through its pointers.
* The screen refines a tape: one cursor position, no rows, no scrolling. Cells that scroll off stay
  on the tape, which is how the model can say that they never change again.
* A trap is the processor's pushes, the stub's pushes, the C handler, the pops and `iretq`, over
  8-byte words. The compiled handler, with the hook it calls, may leave anything in the registers and
  in memory outside the frame.
* A program run is any sequence of computing, jumping (to `exc_restore` and into `elf_exec` too),
  setting and clearing hooks, faulting, stopping the machine and returning. A hook of the program's
  own may answer anything, leave any hook installed, write memory, fault itself, and come back to the
  handler later or never. The program
  is asked to leave the saved context, the recorded stack pointer and the caller's stack alone, and
  to keep its stack where a trap frame fits clear of them.

Some of what one would like to be true holds only under a condition. The model keeps the code as it
is and proves the condition:

* A region's rounded start and its end can wrap 64 bits (`WrappedStartFails`, `WrappedEndFails`), and
  frame indexes are cut to 32. `InitIsExactIff` says for which maps the free set is right all the
  same, `FreeBelowTotalIff` for which the allocator searches all of it, `InitBelow2To44` that ends
  below 2^44 suffice for both, `EndAt2To44Fails` that 2^44 itself does not.
* `e_phoff + i * e_phentsize + 56` can wrap. `HeaderReadInsideIff` says when a header is read inside
  the file; `WrappedHeaderIsReadBeforeFile` shows what is loaded when it is not.
* A segment may overwrite its own header, and the zero fill then goes by the new one, anywhere in
  memory (`RewrittenHeaderZeroesLow`). `LoadKeepsLowIff` says exactly when memory below 1 MB is
  kept; segments clear of the file header and the header table suffice (`LoadKeepsLow`).
* `PROG_LOAD_MAX - p_vaddr` can wrap and `p_filesz <= p_memsz` is not checked. `LoadFaultsIff` says
  exactly which accepted segments then fault, for segments clear of the headers, and
  `EveryLoadFaultsIff` for every file which turns do.
* With both shift keys down, releasing either one ends the shift (`BothShiftsConfuse`).
  `DecodeEncodeIff` says for which movements of the keys the text typed is the text decoded.
* A hook outlives the program if a hook installs one on its way to `exc_restore`
  (`RearmedHookStays`) or the program jumps there itself (`JumpKeepsHook`). `NoHookOnExitIff` says
  exactly when none is left.
* The machine halts if the program asks for it, which every newlib program does when it ends
  (newlib/arch/x86_64/crt.S:54-55), or faults with no hook: `HaltedIff`.
* A frame refused for lack of heap leaves its body on the line (`FullHeapLosesFraming`).
* The echo stays in step with the screen exactly for editors that stop at 1920 characters
  (`FaithfulIff`). `readline` stops at 127; `read` stops at the length its caller passes.
* The stub for a vector must expect an error code iff the processor pushes one (`BuildFrame`). The
  stubs for vectors 20 to 29 expect none, so a processor that raises #CP (vector 21) with its code
  would get a frame one word off.

Where the repository's documents and its code disagree, the code is modelled: `doc/newlib` calls
`read` a stub, but it edits lines; `doc/kernel` gives `getchar` a -1 answer that no driver produces.

## Model

| member | source | states |
|---|---|---|
| Pmm.FrameMap.SetUsed | kernel/arch/x86_64/pmm.c:13 | exactly one frame leaves the free set |
| Pmm.FrameMap.SetFree | kernel/arch/x86_64/pmm.c:14 | exactly one frame joins the free set |
| Pmm.FrameMap.IsFree | kernel/arch/x86_64/pmm.c:15 | a clear bit is membership in the free set |
| Pmm.FrameMap.FillUsed | kernel/arch/x86_64/pmm.c:21-23 | afterwards no frame is free |
| Pmm.FrameMap.HighestEnd | kernel/arch/x86_64/pmm.c:25-32 | the highest end of a usable region, sums in 64 bits |
| Pmm.FrameMap.FreeRegion | kernel/arch/x86_64/pmm.c:37-45 | adds exactly the frames that some whole page of the region truncates to |
| Pmm.FrameMap.Reserve | kernel/arch/x86_64/pmm.c:47-52 | removes exactly the frames below the rounded kernel end |
| Pmm.FrameMap.Init | kernel/arch/x86_64/pmm.c:17-53 | the free set and the frame total the memory map determines |
| Pmm.FrameMap.AllocPages | kernel/arch/x86_64/pmm.c:55-72 | the one-pass scan finds the least window of free frames and takes exactly it, or answers 0 and leaves every bit alone iff there is none |
| Pmm.FrameMap.MarkUsed | kernel/arch/x86_64/pmm.c:62-63 | exactly the window's frames leave the free set |
| Pmm.FrameMap.FreePages | kernel/arch/x86_64/pmm.c:74-80 | frees the frames of the 32-bit range below the bitmap's end |
| Pmm.TopIsMaximum | kernel/arch/x86_64/pmm.c:26-32 | the top is an upper bound that some usable region reaches |
| PmmProps.VisitsPerRegion | kernel/arch/x86_64/pmm.c:39-41 | which pages one region's loop visits: its own, all below its wrapped end when the rounded start wraps, none when only the end wraps |
| PmmProps.InitIsExactIff | kernel/arch/x86_64/pmm.c:36-52 | for every map, the free set is exactly the frames inside one usable region and past the kernel iff neither the 64-bit wraps nor the 32-bit cut do harm: loops stray only to frames the map offers anyway, and skipped regions' frames are reached otherwise |
| PmmProps.NoOverflowLeavesAliases | kernel/arch/x86_64/pmm.c:36-45 | when no usable region wraps, only page indexes above 32 bits can do harm |
| PmmProps.WrappedStartFails | kernel/arch/x86_64/pmm.c:39 | a 16-byte region in the last page frees frames no region holds |
| PmmProps.WrappedEndFails | kernel/arch/x86_64/pmm.c:40 | a region that reaches past 2^64 has none of its frames freed |
| PmmProps.InitBelow2To44 | kernel/arch/x86_64/pmm.c:25-52 | for regions ending below 2^44, in any order and overlap, the free set is exact and below the total the allocator searches |
| PmmProps.StopsShortIff | kernel/arch/x86_64/pmm.c:37-44 | one region's loop clears no frame from `lo` on, truncated indexes included, iff it ends before the first page that would |
| PmmProps.FreeBelowTotalIff | kernel/arch/x86_64/pmm.c:33-52 | for every map, the allocator's search range covers all free frames iff each usable region ends before its first page whose index truncates past it |
| PmmProps.EndAt2To44Fails | kernel/arch/x86_64/pmm.c:33-34 | with a region ending at 2^44 a frame is free though the total is 0 |
| PmmProps.ZeroMeansNoWindow | kernel/arch/x86_64/pmm.c:55-72 | with frame 0 taken, the answer 0 means no window and nothing else |
| PmmProps.AllocIsFirstFit | kernel/arch/x86_64/pmm.c:55-72 | the answer is the least page from which n frames below the total are all free, those are taken and no other; 0 iff there is no such page |
| PmmProps.ReleasedIs | kernel/arch/x86_64/pmm.c:74-80 | a release clears exactly the frames asked for, below 512 MB; one whose end passes 2^32 clears none |
| PmmProps.StepKeepsPartition | kernel/arch/x86_64/pmm.c:55-80 | one allocation or release of a live block keeps free frames and live blocks a partition |
| PmmProps.RunKeepsPartition | kernel/arch/x86_64/pmm.c:55-80 | over every run, live blocks are disjoint and with the free frames make up the initial free set |
| PmmProps.RunSparesKernel | kernel/arch/x86_64/pmm.c:17-80 | no run after init hands out frame 0 or a kernel frame |
| Heap.KernelHeap.Init | kernel/heap.c:21-32 | which panic is taken, or the reserved window and the three pointers, as a property of the free set |
| Heap.KernelHeap.Sbrk | kernel/heap.c:34-45 | refines the arithmetic of a bounded bump pointer, without wrap for every 64-bit request |
| Heap.SbrkAnswers | kernel/heap.c:34-45 | 0 answers the top, a negative or too big request is refused with -1, any other gets the old top |
| Heap.FirstFitAfterKernel | kernel/heap.c:24-28 | first fit is the page after the kernel exactly when its window is free |
| Heap.WindowFreeIffBacked | kernel/heap.c:13-17 | the window is free exactly when the memory map backs those 4 MB |
| Heap.BootMemory | kernel/kernel.c:17-18 | memory bring-up avoids both panics iff the window after the kernel is free, and so iff the memory map backs it |
| Heap.GrantsTileHeap | kernel/heap.c:34-45 | over every run of requests the grants tile [base, cur) without gap, below the limit |
| Heap.TilesAreDisjoint | kernel/heap.c:34-45 | tiling grants are ordered and never overlap |
| Elf.KmMemcpy | kernel/elf.c:43-48 | ascending byte copy, overlap included, to the first fault |
| Elf.KmMemset | kernel/elf.c:50-53 | ascending zero fill to the first fault |
| ElfImage.CopyEffect | kernel/elf.c:43-48 | a copy between ranges apart moves every byte whose target is mapped, also when it faults on the way |
| ElfImage.CopyRepeats | kernel/elf.c:43-48 | bytes go up one by one: a copy onto the next byte repeats the first one all the way |
| Elf.PlaceSegment | kernel/elf.c:88-94 | file bytes by the header, then the zero tail by the header as it reads after the copy |
| Elf.ElfLoad | kernel/elf.c:57-99 | memory and answer equal the loader's specification, header re-reading within and between turns and wrap-around included |
| ElfImage.FitsIff | kernel/elf.c:83-86 | which accepted segments stay in the mapped window; the gABI's own rule is enough |
| ElfImage.PlaceSparingHeader | kernel/elf.c:88-94 | a copy that spares its own header leaves the zero fill as that header says |
| ElfImage.PlaceIsImage | kernel/elf.c:88-94 | a segment clear of the file puts its file bytes and zeros, as far as memory is mapped, and nothing else; it faults iff it does not fit |
| ElfImage.PlaceByWrites | kernel/elf.c:88-94 | whatever it overlaps, a segment writes only where it covers, and faults iff it does not fit |
| ElfImage.LoadPlacesAll | kernel/elf.c:73-98 | the header loop places the file's segments in order, up to a fault |
| ElfImage.LoadLeavesImage | kernel/elf.c:57-99 | with segments clear of the file, loading leaves exactly the pure image of all of them, or up to the first that does not fit, where it faults; also when a later header is rejected |
| ElfImage.LoadIsImage | kernel/elf.c:57-99 | when all segments fit: the image of all of them over old memory, and the file's answer |
| ElfImage.ImageIsLastCovering | kernel/elf.c:76-96 | an address holds the byte of the highest-index segment covering it |
| ElfImage.ImageKeepsUncovered | kernel/elf.c:76-96 | every other address keeps its byte |
| ElfImage.OrderIrrelevant | kernel/elf.c:76-96 | the same pairwise disjoint segments in any order have the same image, from files that agree on their bytes |
| ElfImage.SegmentsAreHeaders | kernel/elf.c:76-86 | of an accepted table exactly the loadable headers become segments |
| ElfImage.TableOrderIrrelevant | kernel/elf.c:57-99 | loading two files with the same headers in any order gives the same memory outside the file and the same answer, if the segments are disjoint |
| ElfImage.LoadFromBelow | kernel/elf.c:76-98 | whatever the file, a byte below 1 MB ends as 0 if a turn's zero fill covers it, else as it was; turns that spare their header cover none |
| ElfImage.LoadKeepsLowIff | kernel/elf.c:83-94 | memory below 1 MB is kept iff no turn's zero fill covers a byte there that is not already 0 |
| ElfImage.SparingLoad | kernel/elf.c:73-98 | when segments spare the file header and the header table, the load goes by the headers as they are in the file, to the end |
| ElfImage.LoadKeepsLow | kernel/elf.c:83-94 | memory below 1 MB is kept for every file whose segments spare its file header and header table, faults and rejections included |
| ElfImage.LoadFaultsIff | kernel/elf.c:83-94 | for such files the load faults exactly when an accepted non-empty segment passes 128 MB by address or file size |
| ElfImage.EveryLoadFaultsIff | kernel/elf.c:73-98 | for every file, self-overwriting ones included, the load faults exactly when a turn's header, copy or fill leaves the map |
| ElfImage.ConformingFileLoads | kernel/elf.c:57-99 | files with p_vaddr in range and p_filesz <= p_memsz never fault and leave their image |
| ElfImage.HeaderReadInsideIff | kernel/elf.c:77-80 | a header passed by the size check lies inside the file iff its end does not wrap |
| ElfImage.WrappedHeaderIsReadBeforeFile | kernel/elf.c:77-80 | a wrapping table makes the loader act on a header before the file, when its segment leaves that header and the file alone |
| ElfLayout.PackedField | kernel/elf.c:9-35 | in a packed structure every field is read back at the sum of the widths before it |
| ElfLayout.EhdrRead | kernel/elf.c:9-71 | a file header written in declaration order is accepted iff its fields name a program for this machine; entry, count and table position are read back |
| ElfLayout.PhdrRead | kernel/elf.c:26-35 | a program header written in declaration order is read back |
| ElfLayout.WrittenFileReads | kernel/elf.c:57-86 | round trip: of a written program file, wherever its table lies and however wide its entries, the loader sees exactly its loadable headers, in order, and its entry |
| ElfLayout.AcceptsIff | kernel/elf.c:83-86 | the loader's three checks in plain arithmetic: from 1 MB, ending by 128 MB or wrapping past it, file bytes in the file |
| ElfLayout.WrittenProgramLoads | kernel/elf.c:57-99 | a written program whose loadable headers lie in 1 MB to 128 MB, with p_filesz <= p_memsz and file bytes in the file, is loaded: memory is the image of the headers as written, the answer its entry |
| ElfLayout.BadProgramRefused | kernel/elf.c:83-86 | one with a loadable header below 1 MB, ending past 128 MB or with file bytes outside the file answers 0, or faults if another header does not conform |
| ElfLayout.RewrittenHeaderZeroesLow | kernel/elf.c:88-94 | a 176-byte file, all of whose checks pass, that zeroes the first page of memory |
| Transfer.Com2.RecvByte | command_kern/transfer.c:35-38 | takes the next byte of the line |
| Transfer.Com2.RecvBuf | command_kern/transfer.c:40-43 | moves exactly n bytes of the line into the buffer, or all there are |
| Transfer.Com2.TransferRecvElf | command_kern/transfer.c:45-75 | line, memory, heap and answer after a transfer, refusals included |
| Transfer.FrameIsReceived | command_kern/transfer.c:48-74 | a sendable frame is consumed whole and no byte after it, the heap moves by its size, memory holds the file |
| Transfer.BadMagicRefused | command_kern/transfer.c:48-52 | four bytes that are not "KELF" are taken off the line, no more, and nothing else changes |
| Transfer.BadSizeRefused | command_kern/transfer.c:54-62 | a size of 0 or above 2 MB is taken off with its magic, no more |
| Transfer.ShortFrameWaits | command_kern/transfer.c:35-43 | a line that ends inside a frame leaves the receiver waiting, with what came of the body in memory |
| Transfer.FullHeapLosesFraming | command_kern/transfer.c:65-67 | a frame too big for the heap is refused with its body left on the line |
| Transfer.ReceivedIffFramed | command_kern/transfer.c:48-67 | exactly the lines that begin with a sendable frame that fits are accepted |
| Transfer.CmdLoad | command_kern/main.c:115-133 | transfer, then load, to the entry point or one of the failures |
| Transfer.CommandReports | command_kern/main.c:118-137 | which transfer and load outcome gives which report |
| Transfer.FramedFileLoads | command_kern/main.c:118-133 | end to end: frame in, exactly 8 + size bytes consumed, heap moved by the size, memory the image over the buffer |
| Transfer.SessionLoads | command_kern/main.c:115-153 | any number of frames sent back to back stay in step, whatever the programs run in between do to memory and however they grow the heap |
| Vga.EntryColour | kernel/arch/x86_64/vga.c:29-31 | the cell keeps the character, and the colour asked for exactly for ASCII characters or white on white |
| Vga.ClearedIs | kernel/arch/x86_64/vga.c:41-50 | 2000 spaces in the colour, the cursor on the first |
| Vga.PutMoves | kernel/arch/x86_64/vga.c:74-104 | by character code: newline to the next multiple of 80, return to the last, tab to the next multiple of 4, backspace one back, anything else one on |
| Vga.PutWrites | kernel/arch/x86_64/vga.c:57-104 | only a printing character writes, under the cursor; one row of blanks comes up exactly when the cursor passes the last row |
| Vga.Screen.constructor | kernel/arch/x86_64/vga.c:33-39 | a cleared white-on-black screen |
| Vga.Screen.Clear | kernel/arch/x86_64/vga.c:41-50 | all 2000 cells blank, cursor home |
| Vga.Screen.Scroll | kernel/arch/x86_64/vga.c:57-71 | every row moves up one, the last is blank |
| Vga.Screen.PutChar | kernel/arch/x86_64/vga.c:73-105 | cells, cursor and display position refine one step of the tape |
| Vga.Screen.Settle | kernel/arch/x86_64/vga.c:95-104 | edge wrap and scroll are a move on the tape |
| Vga.Screen.Print | kernel/arch/x86_64/vga.c:107-111 | a string is the tape steps of its characters |
| Vga.PutInRows | kernel/arch/x86_64/vga.c:74-93 | newline, tab, return and backspace by row and column agree with the tape's position arithmetic |
| Vga.ScrolledRowsAreFrozen | kernel/arch/x86_64/vga.c:73-105 | whatever is printed, the cursor stays in the window, the window never moves back and rows that left it never change |
| LineEdit.ReadLine | command_kern/main.c:18-37 | buffer, keys left and screen after `readline`, for every key stream |
| LineEdit.ReadStdin | newlib/newlib.c:44-72 | buffer, count as an `int` or error, keys left and screen after `read(0, ...)` |
| LineEdit.Read | newlib/newlib.c:34-72 | the errors without a services table and on other files, which touch nothing, and else the line |
| LineEditProps.CapUnreached | command_kern/main.c:32-35 | a line that never passes the cap is the plain reduction of its keys |
| LineEditProps.ReadLineKey | command_kern/main.c:23-35 | each key of `readline` by its code: end, text up to 127, erase with "\b \b", or nothing |
| LineEditProps.ReadKey | newlib/newlib.c:51-69 | each key of `read` by its code, errors included |
| LineEditProps.TextIsDelivered | command_kern/main.c:18-37 | printable characters then return or newline: `readline` delivers exactly the first 127, `read` all and a newline, or as many as its buffer holds with the rest left |
| LineEditProps.TakenBack | command_kern/main.c:28-31 | a character typed and taken back by 0x08 or 0x7F leaves either line as it was |
| LineEditProps.ReadLineSteps | command_kern/main.c:20-36 | keys without a newline only edit the line and echo |
| LineEditProps.ReadSteps | newlib/newlib.c:50-70 | the same for `read` while the line is shorter than the buffer |
| LineEditProps.EditorsAgree | newlib/newlib.c:46-71 | both editors deliver the same reduction of the keys with the same echo |
| LineEditProps.ReadDeliversLineIff | newlib/newlib.c:50-71 | `read` delivers the whole line and newline iff the edited line always stays shorter than the buffer |
| LineEditProps.ShowsTyped | kernel/arch/x86_64/vga.c:89-102 | a typed character keeps screen and line in step through wrap and scroll |
| LineEditProps.ShowsErased | command_kern/main.c:28-30 | "\b \b" takes the last character off the screen, across rows too |
| LineEditProps.EchoShowsLine | command_kern/main.c:18-37 | after any keys the screen holds exactly the line being edited, blanks after it, the rest untouched |
| LineEditProps.PrintKeepsReady | kernel/arch/x86_64/vga.c:73-111 | printing that never moves back leaves the screen blank from the cursor on |
| LineEditProps.SessionShowsLine | command_kern/main.c:190-199 | from a cleared screen, through any number of lines and outputs, the screen shows the line being edited where its prompt ended |
| LineEditProps.LongLineLosesStart | newlib/newlib.c:66-69 | with a cap above 1920 there is a line whose echo falls out of step |
| LineEditProps.FaithfulIff | command_kern/main.c:16-37 | the echo is faithful for all starts and keys iff the cap is at most 1920 |
| Keyboard.Keyboard.KbdProcess | kernel/arch/x86_64/keyboard.c:54-79 | flags and character after one scancode |
| Keyboard.Keyboard.GetChar | kernel/arch/x86_64/keyboard.c:81-92 | successive calls deliver exactly the characters the stream decodes to |
| Keyboard.KeyForIsRight | kernel/arch/x86_64/keyboard.c:14-41 | every printable character, newline, tab and backspace has a key in the two tables |
| Keyboard.KeyTops | kernel/arch/x86_64/keyboard.c:14-41 | both tables row by row as the key tops read, keypad and odd keys included; every other key has no character |
| Keyboard.EventDecodes | kernel/arch/x86_64/keyboard.c:54-79 | a key going down or up, or an 0xE0 pair, gives its character by the last movement of a shift key and leaves no prefix pending |
| Keyboard.DecodeEvents | kernel/arch/x86_64/keyboard.c:54-92 | any movements of any keys, overlapping and repeated, decode to what the key tops say by the last movement of a shift key |
| Keyboard.DecodeEncodeIff | kernel/arch/x86_64/keyboard.c:54-92 | round trip: whatever keys move in whatever order, the text typed is the text decoded iff no key with two characters is struck while one shift key is held after the other's release; flags end clear with both up |
| Keyboard.OneShiftIsClear | kernel/arch/x86_64/keyboard.c:66-69 | so it is decoded whenever no shift key comes up while the other is down |
| Keyboard.BothShiftsConfuse | kernel/arch/x86_64/keyboard.c:66-69 | with one of two held shift keys released, the A key gives an unshifted letter |
| Keyboard.EveryTextDecodes | kernel/arch/x86_64/keyboard.c:14-92 | every text over printable ASCII, newline, tab and backspace can be typed and is then what is decoded |
| Console.TypedLineIsReadAndShown | command_kern/main.c:18-37 | from scancodes to the shell's line and the screen: all three are the reduction of what was typed, whatever keys moved, unless the shift keys confuse the keyboard |
| Trap.Cpu.SetHook | kernel/arch/x86_64/idt.c:62 | the hook is installed |
| Trap.Cpu.ClearHook | kernel/arch/x86_64/idt.c:63 | the hook is gone |
| Trap.PushedLoads | kernel/arch/x86_64/isr.S:15-80 | what pushes put where, and that they touch nothing else |
| Trap.FrameLayout | kernel/arch/x86_64/idt.h:8-19 | the pushed words read as the frame when stub and processor agree on the code, and a word off when they do not |
| Trap.Cpu.Enter | kernel/arch/x86_64/idt.h:13-18 | the processor's words, at the aligned top of the running stack or the double fault's own |
| Trap.StubsExpecting | kernel/arch/x86_64/isr.S:29-60 | the stubs that expect a code are those of vectors 8, 10 to 14, 17 and 30 |
| Trap.Cpu.StubHead | kernel/arch/x86_64/isr.S:12-26 | vector on top, a zero below it for vectors without a code |
| Trap.Cpu.PushAll | kernel/arch/x86_64/isr.S:65-80 | register i lands in slot i of the frame |
| Trap.Cpu.PopAll | kernel/arch/x86_64/isr.S:85-99 | register i comes back from slot i |
| Trap.Cpu.Iretq | kernel/arch/x86_64/isr.S:102 | rip, cs, rflags, rsp, ss from the five words |
| Trap.Cpu.BuildFrame | kernel/arch/x86_64/isr.S:12-83 | the frame is laid out as `interrupt_frame_t` when stub and processor agree on the code -- as they do when just vectors 8, 10 to 14, 17 and 30 push one -- and a word off when they do not |
| Trap.Cpu.ExceptionHandler | kernel/arch/x86_64/idt.c:125-138 | the hook removed before it is called, so afterwards the one it left; frame unchanged or redirected in exactly three fields, or control gone with the hook, or the machine halted |
| Trap.Cpu.Leave | kernel/arch/x86_64/isr.S:85-102 | the registers are exactly the frame's |
| Trap.Cpu.Answered | kernel/arch/x86_64/idt.c:131-137 | a hook's answer after anything else has happened leaves through the frame as memory holds it |
| Trap.ResumeCases | kernel/arch/x86_64/idt.c:130-136 | a hook that answers 0 changes no register, any other answer rip, rsp and rflags 0x202 |
| Trap.Cpu.HandleAndLeave | kernel/arch/x86_64/isr.S:82-102 | from the handler's call on: halted without a hook, else out through the frame, redirected iff the answer is not 0 |
| Trap.Cpu.Trap | kernel/arch/x86_64/idt.c:125-138 | a declined trap is the identity on all registers, an accepted one changes rip, rsp and rflags only; memory and hook afterwards exactly |
| Trap.TrapMemoryKeeps | kernel/arch/x86_64/isr.S:12-102 | outside the frame, the call's word and what handler and hook write, a trap leaves memory alone |
| Trap.OrdersMatchFrame | kernel/arch/x86_64/idt.h:9-10 | push and pop orders both agree with the frame's field order |
| Recovery.ExcSave | command_kern/recover.S:33-46 | eight words saved, 0 returned, nothing else touched |
| Recovery.ExcRestore | command_kern/recover.S:52-66 | registers reloaded from the buffer |
| Recovery.RestoreReturns | command_kern/recover.S:52-66 | a kept buffer gives the saved address, stack and preserved registers with result 1 |
| Recovery.SaveThenRestore | command_kern/recover.S:33-66 | whatever happened in between, the second return equals the first except for its result |
| Recovery.EventEnds | command_kern/main.c:94-100 | where each event leaves the run: returned, recovered, strayed or halted by where execution landed, and what it changes |
| Recovery.TakeFault | kernel/arch/x86_64/idt.c:125-138 | trap, hook, `iretq` and `exc_restore` on the machine are one step of the protocol, for every hook |
| Recovery.Perform | command_kern/main.c:95 | every event of the program on the machine is one step of the protocol, a hook that answers the handler late included |
| Recovery.ElfExec | command_kern/main.c:84-101 | the whole function on the machine: after any program, registers, memory, hook and caught flag; a return clears the hook and is not caught; after `exc_restore` the registers of `exc_save`'s first return with result 1 |
| Recovery.RecoveredAsSaved | command_kern/main.c:84-101 | from the state `elf_exec` runs in, whatever the program does: back through `exc_restore`, address, stack and preserved registers are those of the first return, and the caller's stack is as it was |
| Recovery.StepKeepsInv | command_kern/main.c:84-101 | every event keeps the protected words, and finds the saved context if it ends in `exc_restore` |
| Recovery.RunKeepsInv | command_kern/main.c:84-101 | so does every run, re-arming hooks, jumps and hooks that never return included |
| Recovery.HookHistory | kernel/arch/x86_64/idt.c:62-63 | at every moment of every run no hook is installed iff an event removed it and none after that installed one |
| Recovery.NoHookOnExitIff | command_kern/main.c:94-100 | back in `elf_exec` no hook is left iff control came by a return, a trap whose hook left none, or some other way with the hook already gone |
| Recovery.RearmedHookStays | kernel/arch/x86_64/idt.c:128-131 | a hook that installs itself again before answering `exc_restore` is left installed |
| Recovery.JumpKeepsHook | command_kern/main.c:97-99 | a program that jumps to `exc_restore` leaves its hook installed |
| Recovery.RunEnds | command_kern/main.c:94-100 | a run is back by a return iff its last event returned or came to the address after the call, by `exc_restore` iff it came there; a return leaves no hook and the program's registers |
| Recovery.HaltedIff | kernel/modules.c:57-60 | a run ends halted iff its last event was an exit or panic, or a fault after the hook was removed |
| Recovery.PoliteProgramIsCaught | command_kern/main.c:69-101 | a program that leaves hooks alone halts the machine only by asking; its fault is its last event, caught, and reported with vector, address and code |
| Multiboot.CmdlineHas | kernel/arch/x86_64/hal.c:14-22 | true iff the needle occurs |
| Multiboot.EarlyParseConsole | kernel/arch/x86_64/hal.c:24-40 | the console walk, including no boot information, running off the end and a size-0 tag |
| Multiboot.MmapEntries | kernel/arch/x86_64/hal.c:150-164 | the entries of one tag, as far as 64 regions go |
| Multiboot.HalArchInit | kernel/arch/x86_64/hal.c:143-176 | the boot walk, including running off the end and a size-0 tag |
| MultibootProps.TagHeader | kernel/arch/x86_64/multiboot2.h:60-61 | a written tag is read with its kind and size, and the stride leads to the next |
| MultibootProps.EntriesRead | kernel/arch/x86_64/hal.c:150-164 | written entries of any entry size are read back, cut at the room left |
| MultibootProps.EntryWhileLeft | kernel/arch/x86_64/hal.c:156-163 | an entry is read while any byte of the tag is left and there is room; with entry size 0 the same one again and again |
| MultibootProps.TagAdds | kernel/arch/x86_64/hal.c:150-171 | what each kind of tag contributes |
| MultibootProps.BootWalkReads | kernel/arch/x86_64/hal.c:149-174 | the first 64 regions over all tags and every module in order |
| MultibootProps.ConsoleWalkReads | kernel/arch/x86_64/hal.c:30-39 | serial iff the first command line contains "console=serial" |
| MultibootProps.BootInformationReads | kernel/arch/x86_64/hal.c:24-177 | round trip of a whole boot information structure |
| MultibootProps.ContainsIff | kernel/arch/x86_64/hal.c:14-22 | a text contains a needle exactly if it splits around it |
| MultibootProps.UnendedBootWalk | kernel/arch/x86_64/hal.c:149-174 | without an end tag the walk runs off the bytes there are; a tag of size 0 holds it for ever |
| MultibootProps.UnendedConsoleWalk | kernel/arch/x86_64/hal.c:30-39 | the same for the console walk, if no command line comes first |
| Modules.Registry.Register | kernel/modules.c:134-157 | at most 16 kept, failed and headerless on a wrong magic number |
| Modules.Registry.Find | kernel/modules.c:209-215 | the first module of that name |
| Modules.Registry.RunAll | kernel/modules.c:159-180 | enters the start-up modules in order and marks only them |
| Modules.Registry.LaunchEntry | kernel/modules.c:182-203 | enters the first candidate whose first namesake is valid |
| Modules.StartOrderIs | kernel/modules.c:160-166 | the start order lists exactly the loaded, valid, non-shell modules, increasing |
| Modules.EnteringKeepsNames | kernel/modules.c:182-188 | running modules does not change which one is launched |
| Modules.RegisteredModules | kernel/modules.c:134-157 | the first 16 in order; failed exactly when there is no header |
| Modules.BootModules | kernel/kernel.c:52-53 | the log of a boot over the modules handed over, and which modules are running after it |
| Modules.ShellEntered | kernel/modules.c:182-203 | the first module called COMMAND.KERN, by command line or header, is entered last if it has a header; else the first one called command.com; else no shell |
| Modules.BootEntersRightly | kernel/modules.c:159-203 | every valid module of neither shell name once and in order, at most one shell and none iff no candidate is usable, nothing twice, nothing failed |
| Modules.TruncationKeepsShells | kernel/modules.c:113-132 | cutting the command line to 63 characters never makes or unmakes a shell |
| Paging.SetupPageTables | kernel/arch/x86_64/boot.S:111-136 | the three tables' entries and no other word |
| Paging.IdentityMapped | kernel/arch/x86_64/boot.S:111-136 | below 128 MB every address translates to itself, writable; from there to 2^48 none translates |
| Kernel.KernelMain | kernel/kernel.c:7-53 | for any boot information: the console, whether the heap comes up, and which modules are entered; in terms of the tags if it holds tags |

## Left out

- Transfer.Com2.TransferRecvElf: asks that the heap lies in the identity-mapped 128 MB, which the linker script's kernel address gives but no code checks.
- Elf.ElfLoad: takes every byte below 128 MB as present; on a machine with less memory than that a mapped byte may have nothing behind it.
- ElfImage.LoadIsImage: says nothing of segments that overwrite the file being loaded; `Elf.Load` still defines what then happens, and `LoadKeepsLowIff` holds.
- Trap.Cpu.Trap: asks for room for the frame above address 0, and that the frame's stack is mapped; the hook leaves the frame itself alone.
- Recovery.ElfExec: ends where a program jumps to the return address of `exc_save` itself (`Strayed`); what `elf_exec` makes of the registers it then finds is not followed.
- Recovery.RecoveredAsSaved: takes a return from the program at its word; that a returning program restores the preserved registers is its own duty under the ABI.
- Recovery.Perform: what a hook of the program's own writes while it runs counts as one write, unless it carries on as the program.
- Modules.Registry.RunAll: module code returns; one that calls exit or panics ends the run there.
- LineEdit.ReadLine: a key stream that ends is a reader still waiting; the polling itself is not modelled.
- External interrupts: none arrive. The kernel starts with them off, but a redirected trap resumes with them on, and nothing masks the interrupt controller.
- Port I/O, the UART and display-controller registers, and busy-wait loops: replaced by byte streams and by the cursor position last sent.
- The serial console: it only forwards bytes.
- Panic and exception messages, and decimal and hexadecimal printing: ends of the line without further state.
- GDT, TSS and IDT loading, the switch to 64-bit mode, BSS zeroing and the C start-up code: processor plumbing.
- The stub system calls (open, close, lseek, fstat, getpid) and newlib's wrappers other than `read`: constant answers.
- `kst_write`, and `kst_read` on the console: byte forwarding.
- Compiler freedom: the C is read as written, so byte loops copy in ascending order and headers are re-read through memory.
