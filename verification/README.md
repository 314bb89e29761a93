# Chromatic: verified models of the native binding layer

Chromatic is an in-process instrumentation engine. Its C++ binding layer rewrites code, plants traps, watches
pages and scans memory. This project models the parts of that layer that hold an algorithm or a protocol and
proves what each promises, over all inputs and over all runs. `dafny verify dfyconfig.toml` checks everything.

## What is modelled

Everything shares one idea of memory: a map from addresses to bytes, read with 64-bit wrap-around
(`X86Machine.dfy`, `Words.dfy`).

- **Relocating copier and hook** (`CodeRelocator.dfy`, `Trampoline.dfy`, `TrampolineArm.dfy`, `HookTransparency.dfy`,
  `AttachedCode.dfy`).
  A byte-level decoder reads `FF 25 00000000 + quad`, `0F 8x rel32`, `E9 rel32`, `EB rel8` and `7x rel8`; every
  other instruction has a length and an effect that are parameters. The copier is a small binary-to-binary
  compiler, and its theorem is preservation of meaning. The trampoline is proved for the System V and Microsoft
  conventions on x86-64 and for ARM64, with callbacks that use the stack. The pieces are joined into one statement
  about a hooked function, and the registries' operations are shown to bring its situation about.
- **Code memory** (`CodePatches.dfy`, `PatchRegistry.dfy`, `CodeMemory.dfy`, `Interceptor.dfy`,
  `SoftwareBreakpoint.dfy`, `TrapHandlers.dfy`, `SharedCode.dfy`). Saved and overwritten bytes, overlapping or not, two
  indexes over one set of entries, and JIT blocks with owners.
- **Debug registers** (`DebugRegisters.dfy`, `HardwareBreakpoint.dfy`). DR7 bit packing and the slot bitmask, in
  agreement with the registry (Intel SDM Volume 3B, section 17.2.4).
- **Exception handlers** (`ExceptionHandlers.dfy`, `HandlerOwners.dfy`). The enabled flag, the shared reference
  count, the saved signal dispositions and the callback list.
- **Memory access monitor** (`MonitorState.dfy`, `MonitorRuns.dfy`, `AccessMonitor.dfy`, `EventRing.dfy`,
  `PendingRing.dfy`, `QuietRing.dfy`, `PageCover.dfy`). One-shot page traps as a state machine over pages; the event
  ring as a queue for uninterrupted code, as a system of atomic steps with any number of interrupted producers, and
  as runs of whole handlers and drains that may overfill it.
- **Scanning** (`PatternScan.dfy`, `ModuleScan.dfy`, `ExportTable.dfy`, `LinearSweep.dfy`). Horspool search with
  wildcards, the fold of map lines into modules, symbol counts from a GNU hash table, bounded linear sweeps.
- **Strings** (`HexText.dfy`, `Utf8Strings.dfy`). Ids as hexadecimal text, and the UTF-16 to UTF-8 encoder
  (RFC 3629, section 3).
- **The whole engine** (`SystemRuns.dfy`, `SystemCleanup.dfy`, `NestedPatches.dfy`, `Runtime.dfy`). All subsystems as
  one state, every call as a step, an invariant of every run, and the outcome of cleanup.

Objects that the engine updates in place are classes whose methods are proved against functions on values; the
functions then carry the theorems about runs.

## Where the code falls short of its promise

Each of these is a lemma: the exact condition under which the promise is kept, and an input or a run that breaks it.

- A closing `disable()` brings back the original signal dispositions exactly when no earlier `disable()` came while
  handlers were enabled and a subsystem held a reference (`ExceptionHandlers.RestoredIff`; `LostExample` is a run
  that loses them; `SystemCleanup.CleanupRestores` says the same of cleanup).
- The comment in `refDisable` speaks of removing handlers; the code never does. Without a `disable()`, the originals
  are current exactly when nobody ever asked for the handlers (`ExceptionHandlers.LettingGoRestoresNothing`;
  `LetGoExample` is a run with no reference left and the handlers still in).
- An exception nobody claims is forwarded to the original disposition exactly when the handlers were never installed
  while already current; a `disable()` in use followed by an `enable()` makes the engine forward to its own handler
  (`ExceptionHandlers.UnclaimedGoesToOriginalIff`; `ForwardsToItselfExample` is such a run).
- The second handler of each hardware-breakpoint installation is never removed (`SystemCleanup.StraysStay`); cleanup
  leaves exactly those (`SystemCleanup.CleanupLeavesStrays`).
- After a range fires, other unfired ranges on its pages no longer see accesses, although the header promises one
  recorded access per range (`MonitorRuns.FiringKeepsExactIff`; `MonitorRuns.SecondRangeGoesBlind` is an instance).
- On POSIX the monitor gives pages back as read-write, whatever they were (`MonitorRuns.RestoredIff`;
  `MonitorRuns.ReadOnlyPageBecomesWritable` is an instance).
- The ring's producer never tests for fullness. Every event is delivered, in order, exactly when none is recorded while
  256 are outstanding (`QuietRing.DeliversAllIff`). One event too many takes over the oldest one's slot
  (`PendingRing.ClaimTakesFreeSlotIff`, `PendingRing.OverrunLosesOldest`), and after the next drain the ring is out of
  step for good: the reader waits at an empty slot (`QuietRing.OverrunJams`), no drain delivers any of the next 255
  events (`QuietRing.JamHoldsBack`), and the 256th releases them all in the wrong order and leaves the ring as it
  was (`QuietRing.JamReleasesRotated`). With at most 256 watched ranges none of this happens, however late the drain
  (`MonitorRuns.FewRangesAlwaysFit`).
- Overlapping patches are taken out correctly exactly when, on every byte, the patch put back last had saved the
  original value (`CodePatches.AnyStackRestoresIff`; for whole runs and cleanup, `SystemCleanup.CleanupRestores`). A
  hook attached over a live breakpoint breaks this: cleanup leaves the trap instruction in the code
  (`CodePatches.TrapStaysUnderHook`, `SystemCleanup.TrapOutlivesCleanup`). Putting each patch back only while no later
  one overlaps it is enough (`NestedPatches.NestedCleanupRestores`).
- The copy of an unconditional jump goes to the target from every processor state exactly for `E9 rel32`; a relocated
  short `EB` jumps only when the overflow flag is set (`CodeRelocator.JumpCopyGoesIff`, `CodeRelocator.ShortJumpCopy`).
- A GNU hash table whose chains are empty yields no symbols, so exports before the hashed part are missed
  (`ExportTable.GnuExportsComplete`; `ExportTable.UnhashedExportMissed` is an instance).
- Lone surrogates are encoded to bytes that are not UTF-8 (`Utf8Strings.Utf8RoundTrip`;
  `Utf8Strings.LoneSurrogateIsNotUtf8` is an instance).
- The header and the API reference say that the size of an execute breakpoint is ignored. The code packs it into LEN,
  which the processor wants to be 0: it is, exactly for sizes other than 2, 4 and 8
  (`DebugRegisters.ExecuteLengthIsZeroIff`; `ExecuteLengthExample` is an instance).
- The path of a mapped file is read in full exactly when it has no blank and at most 511 characters; files whose paths
  agree up to a blank become one module (`ModuleScan.PathReadIff`; `ModuleScan.BlankMergesFiles` is the instance).

## Model

| member | source | states |
|---|---|---|
| CodeRelocator.BuildRelocatedCode | src/core/bindings/internal/code_relocator.cc:116-232 | the copying loop emits, for the x86-64 branch, the pieces of the recursive specification and the jump back, and fails where it fails |
| CodeRelocator.BytesConsumed | src/core/bindings/internal/code_relocator.cc:170-225 | with boundaries that are sums of decoded instruction sizes: the copy succeeds exactly when decoding from the start meets an instruction at every boundary until one reaches `minBytes`, and fails at the first address that is null or where nothing decodes; the bytes consumed are the least such boundary |
| CodeRelocator.SizeExact | src/core/bindings/internal/code_relocator.cc:170-174 | the size asked of the disassembler is that of the instruction decoded at the address, and 0 exactly at null or where nothing decodes |
| CodeRelocator.OrdinaryIsCopied | src/core/bindings/internal/code_relocator.cc:170-225 | a block made only of position-independent instructions, `E9` jumps and conditional jumps, at non-null addresses, is always copied, and is one of those whose meaning is preserved |
| CodeRelocator.CallPiece | src/core/bindings/internal/code_relocator.cc:187-193 | a relative call becomes `FF 15` with displacement 2, whose quad is the target literal if the unbound jump takes two bytes |
| CodeRelocator.NegatedCondition | src/core/bindings/internal/code_relocator.cc:196-204 | `cc ^ 1` negates each of the sixteen conditions for all flags |
| X86Machine.NearJumpGoes | src/core/bindings/internal/code_relocator.cc:183-193 | the machine the copies run on takes `E9` with any signed 32-bit displacement, counted from the end of the instruction |
| X86Machine.ShortJumpGoes | src/core/bindings/internal/code_relocator.cc:194-208 | the same for `EB` with a signed 8-bit displacement |
| X86Machine.ShortBranchGoes | src/core/bindings/internal/code_relocator.cc:194-208 | `7x` goes by its signed 8-bit displacement exactly when the condition holds |
| X86Machine.NearBranchGoes | src/core/bindings/internal/code_relocator.cc:194-208 | `0F 8x` goes by its signed 32-bit displacement exactly when the condition holds |
| X86Machine.ConditionsCompare | src/core/bindings/internal/code_relocator.cc:196-204 | after a comparison of two 64-bit words, ten of the conditions are equality and the signed and unsigned orders of the words |
| X86Machine.OtherDecodes | src/core/bindings/native_disassembler.cc:157-171 | any other instruction is what the decoder says of the 16 bytes at the address |
| CodeRelocator.AbsoluteJumpGoes | src/core/bindings/internal/code_relocator.cc:105-110 | the fourteen bytes decode as a jump to their literal, for every target |
| CodeRelocator.ConditionalJumpGoes | src/core/bindings/internal/code_relocator.cc:202-208 | the rewritten branch reaches the target if the condition holds and the byte after jump and literal otherwise: the skip of 14 lands there |
| CodeRelocator.CopyActs | src/core/bindings/internal/code_relocator.cc:209-214 | an instruction copied verbatim decodes and acts at its new place as at its old one |
| CodeRelocator.PieceMeaning | src/core/bindings/internal/code_relocator.cc:179-214 | each emitted piece does what its instruction did: same processor state, same branch target or the end of the piece |
| CodeRelocator.RelocationPreservesMeaning | src/core/bindings/internal/code_relocator.cc:170-225 | from every processor state the emitted bytes leave the block in the state, and at the address, where the original leaves it |
| CodeRelocator.ShortJumpCopy | src/core/bindings/internal/code_relocator.cc:194-208 | from one processor state: a short `JMP EB` always jumps, and its copy exactly with OF set; `JumpCopyGoesIff` quantifies over the states |
| CodeRelocator.JumpCopyGoesIff | src/core/bindings/internal/code_relocator.cc:183-208 | the copy of an unconditional jump goes to its target from every processor state exactly when the original starts with E9, or its target is the very end of the copy |
| CodeRelocator.GeneratePatchBytes | src/core/bindings/internal/code_relocator.cc:94-112 | the patch buffer gets the fourteen jump bytes and nothing behind them changes |
| Trampoline.BuildTrampoline | src/core/bindings/internal/code_relocator.cc:299-382 | the emission produces the specified program, for both conventions, with and without a second callback |
| Trampoline.TrampolineDispatches | src/core/bindings/internal/code_relocator.cc:301-352 | with callbacks that, in the calls made, return with their stack pointer and write only given addresses, their own frames among them: both get the address of the snapshot, 128 bytes under the entry stack pointer, and the user data, in RDI and RSI (System V) or in RCX and RDX with a home area of 32 bytes (Microsoft); the snapshot holds every register and the flags, and RSP is 0 mod 16 at the call if it was 8 mod 16 on entry |
| Trampoline.SnapshotLayout | src/core/bindings/internal/code_relocator.cc:302-320 | the snapshot from its address up: R15 to R8, RDI, RSI, RBP, RBX, RDX, RCX, RAX, flags |
| Trampoline.TrampolineRestores | src/core/bindings/internal/code_relocator.cc:354-382 | with such callbacks every register and the flags are reloaded from the snapshot as they left it; the stack pointer is back; control leaves for the relocated code; memory outside the snapshot and the given addresses is unchanged |
| Trampoline.TrampolineTransparent | src/core/bindings/internal/code_relocator.cc:299-382 | callbacks that leave the snapshot alone leave all registers and flags unchanged, and all memory but the snapshot and what they write |
| Trampoline.OneSlotWritten | src/core/bindings/internal/code_relocator.cc:301-382 | a callback that, in the call it gets, writes one quad of the snapshot and given addresses elsewhere changes exactly the register, or the flags, saved there |
| Trampoline.FitFromEverywhere | src/core/bindings/internal/code_relocator.cc:335-352 | callbacks that keep to the given addresses whenever they get the trampoline's arguments and stack do so in the calls it makes |
| Trampoline.PushingCallbackIsFit | src/core/bindings/internal/code_relocator.cc:335-352 | a callback that pushes a return address below its stack pointer is one of those, with the pushed quad as the addresses it writes |
| TrampolineArm.BuildTrampoline | src/core/bindings/internal/code_relocator.cc:242-296 | the two loops and the rest emit the specified ARM64 program |
| TrampolineArm.TrampolineDispatches | src/core/bindings/internal/code_relocator.cc:248-277 | with callbacks that, in the calls made, return with their stack pointer and write only given addresses: both get the same snapshot pointer in X0 and user data in X1, and the snapshot holds all registers, the stack pointer and the flags |
| TrampolineArm.SnapshotLayout | src/core/bindings/internal/code_relocator.cc:248-262 | the snapshot lies 272 bytes under the entry stack pointer, which keeps the stack aligned: X0 to X30, that stack pointer, the flags |
| TrampolineArm.TrampolineRestores | src/core/bindings/internal/code_relocator.cc:279-296 | every register but X16 and the flags are reloaded from the snapshot; X16 carries the address of the relocated code; memory outside the snapshot and the given addresses is unchanged |
| TrampolineArm.TrampolineTransparent | src/core/bindings/internal/code_relocator.cc:242-296 | with callbacks that leave the snapshot alone only X16 differs at the exit |
| TrampolineArm.OneSlotWritten | src/core/bindings/internal/code_relocator.cc:248-296 | a callback that, in the call it gets, writes one quad of the snapshot and given addresses elsewhere changes exactly the register, or the flags, saved there; the quads of X16 and of the stack pointer change nothing |
| TrampolineArm.FitFromEverywhere | src/core/bindings/internal/code_relocator.cc:264-277 | the same on ARM64 |
| TrampolineArm.PushingCallbackIsFit | src/core/bindings/internal/code_relocator.cc:264-277 | a callback that stores its link register below its stack pointer is one of those |
| HookTransparency.ExitAgrees | src/core/bindings/internal/code_relocator.cc:170-225 | processors that differ only at given addresses leave a block alike, and differ only at those addresses the block did not write, if the block does not read one of them before writing it |
| HookTransparency.StaleShrinks | src/core/bindings/internal/code_relocator.cc:170-225 | the addresses that differ when a block is left are among those that differed when it was entered |
| HookTransparency.HookTransparent | src/core/bindings/native_interceptor.cc:108-140 | a thread at a hooked target goes through patch, trampoline and relocated block and arrives where the unhooked function would, with equal registers and flags, and with equal memory but for the snapshot and what the callbacks wrote and the block did not |
| HookTransparency.TrampolineThenBlock | src/core/bindings/internal/code_relocator.cc:170-382 | the same from the trampoline on, for any number of moved bytes: what a breakpoint hit runs through |
| HookTransparency.PatchInstallsHook | src/core/bindings/native_interceptor.cc:136-140 | writing the patch over a target whose relocated block is in place establishes exactly the situation of the transparency theorem, and changes no other byte |
| HookTransparency.LoadsCanBeHooked | src/core/bindings/native_interceptor.cc:108-140 | a function that starts by loading bytes from the heap, with callbacks that push onto the stack, meets every assumption of the transparency theorem, for every target, block, trampoline and processor state with room on the stack |
| HookTransparency.FallThroughIsOutside | src/core/bindings/native_interceptor.cc:113-117 | the fall-through address of a relocated block lies outside the patched bytes |
| HookTransparency.OutsideRunsAgree | src/core/bindings/native_interceptor.cc:136-140 | code none of whose executed bytes was changed runs the same with and without the hook |
| HookTransparency.DecodesAlike | src/core/bindings/internal/code_relocator.cc:170-174 | two windows that agree on the bytes of an instruction decode to it, so only executed bytes matter |
| HookTransparency.HookedRunFollows | src/core/bindings/native_interceptor.cc:136-140 | from states that agree but for given addresses, the hooked process follows the unhooked one step by step, while no executed byte was changed and no instruction reads such an address before it was written |
| HookTransparency.HookedFunctionFollows | src/core/bindings/native_interceptor.cc:91-148 | the hooked function as a whole: whatever state the unhooked one reaches after its patched instructions, the hooked one reaches too, but for what hooking wrote; stated for any change of code memory, so also for patch and block together |
| HookTransparency.RedirectedFollows | src/core/bindings/native_breakpoint.cc:146-184 | the same from the trampoline on, for any number of moved bytes: a function with a breakpoint in it, as a whole |
| AttachedCode.Attach | src/core/bindings/native_interceptor.cc:91-148 | a target that has no hook gets one exactly when the decoding does not get stuck, at null or where nothing decodes, before 14 bytes, and both blocks are there; then, in one code memory, patch and relocated block are as `HookedFunctionFollows` asks and nothing but their bytes has changed |
| AttachedCode.Replace | src/core/bindings/native_interceptor.cc:189-230 | the same with the replacement as target; the address returned is the relocated original |
| AttachedCode.SetSoftware | src/core/bindings/native_breakpoint.cc:125-197 | the trap is at the address, a hit goes to the trampoline, the block in place is the one relocated from the instructions under the trap, and nothing else has changed: the situation of `RedirectedFollows` |
| AttachedCode.SetHardware | src/core/bindings/native_hw_breakpoint.cc:495-592 | the three words, the address and the limit of 4 are checked in this order; an execute breakpoint that is set sends a hit to the trampoline, and its block is the one relocated from the instruction at the address |
| HexText.HexRoundTrip | src/core/bindings/native_interceptor.cc:18-26 | every id, written as text and parsed, is the same id |
| HexText.HexTextInjective | src/core/bindings/native_interceptor.cc:22-26 | different ids have different text |
| HexText.HexTextExact | src/core/bindings/native_interceptor.cc:22-26 | the text of an id is `0x` and its digits in base 16, lower case, without leading zeros |
| HexText.ScanExact | src/core/bindings/native_interceptor.cc:18-20 | the scanner reads exactly the notations of base 16: blanks, a sign, an optional `0x` or `0X`, digits of either case, anything behind them |
| HexText.ParseHexAddrExact | src/core/bindings/native_interceptor.cc:18-20 | parsing yields the value of the notation whatever the case of its digits, negated modulo 2^64 behind a minus sign, out of range from 2^64 on, and an invalid argument exactly for texts in no notation |
| HexText.ParseHexIntExact | src/core/bindings/native_memory.cc:106-120 | the same for 32-bit ints, with their range |
| HexText.SpacesExact | src/core/bindings/native_memory.cc:106-120 | blanks are the six of the C locale |
| PageCover.MaskIsRoundDown | src/core/bindings/native_memory_access_monitor.cc:214 | for every power-of-two page size the mask form equals rounding down by division |
| PageCover.WatchedSpanIsLeastCover | src/core/bindings/native_memory_access_monitor.cc:213-216 | the watched span is the smallest page-aligned interval containing the range |
| PageCover.PatchSpanIsTight | src/core/bindings/native_memory.cc:326-328 | the span made writable starts on the page of the first byte and ends with the last one |
| CodePatches.PokeUndo | src/core/bindings/internal/code_relocator.cc:65 | writing back the saved bytes undoes a patch |
| CodePatches.InstallConserves | src/core/bindings/native_interceptor.cc:108-140 | a patch that overlaps no live one keeps memory equal to pristine memory under the live patches, and what it saved is pristine |
| CodePatches.RemoveConserves | src/core/bindings/native_interceptor.cc:161-163 | taking one patch out leaves pristine memory under the others |
| CodePatches.AnyOrderRestores | src/core/bindings/native_interceptor.cc:177-184 | non-overlapping patches may be taken out in any order |
| CodePatches.LastInFirstOutRestores | src/core/bindings/native_interceptor.cc:108-163 | overlapping patches taken out last-in first-out give back the original memory |
| CodePatches.FirstInFirstOutRestoresIff | src/core/bindings/native_interceptor.cc:108-163 | two patches taken out first-in first-out restore memory exactly when the first wrote, on the shared bytes, what was there: the smallest case of `AnyStackRestoresIff` |
| CodePatches.AnyStackRestoresIff | src/core/bindings/native_interceptor.cc:108-187 | however patches were laid over one another and in whatever order they are put back, memory is restored exactly when, on every byte, the one put back last had saved the original value |
| CodePatches.SavedByte | src/core/bindings/native_interceptor.cc:108-111 | what a patch saved: what the topmost patch under it wrote there, or the original byte |
| CodePatches.TrapStaysUnderHook | src/core/bindings/native_breakpoint.cc:186-188 | a breakpoint taken out from under a hook: removing the hook afterwards writes the trap instruction back |
| PatchRegistry.AddedBijective | src/core/bindings/native_interceptor.cc:142-145 | a new id keeps both maps holding the same entries, one per address |
| PatchRegistry.DroppedBijective | src/core/bindings/native_interceptor.cc:169-170 | so does a removal |
| PatchRegistry.OneIdPerAddress | src/core/bindings/native_interceptor.cc:248-254 | a live address belongs to exactly one id, so the search in revert finds that one |
| PatchRegistry.AddedOwns | src/core/bindings/native_interceptor.cc:113-134 | fresh blocks stay owned by one entry each, and the owned blocks grow by exactly those |
| PatchRegistry.DroppedOwns | src/core/bindings/native_interceptor.cc:165-167 | releasing one entry's blocks takes away no other entry's |
| PatchRegistry.ClearConserves | src/core/bindings/native_breakpoint.cc:228-236 | removing one registry's entries, in whatever order its map is walked, leaves exactly the other registries' patches |
| CodeMemory.CodeSpace.ReleaseCode | src/core/bindings/internal/code_relocator.cc:393-396 | releases a block that is allocated, or nothing for null |
| Interceptor.NativeInterceptor.Attach | src/core/bindings/native_interceptor.cc:91-148 | given the code generators' answers: success adds one entry under a fresh id with the bytes it covered, writes the jump and owns both blocks; every failure changes nothing and leaks no block. `AttachedCode.Attach` computes the answers |
| Interceptor.NativeInterceptor.Replace | src/core/bindings/native_interceptor.cc:189-230 | the same with the replacement as jump target and one block; returns the relocated original |
| Interceptor.NativeInterceptor.Detach | src/core/bindings/native_interceptor.cc:150-172 | parses the id, restores the bytes, releases the blocks and updates both maps; unknown ids change nothing |
| Interceptor.NativeInterceptor.Revert | src/core/bindings/native_interceptor.cc:232-257 | detaches the one hook at the address, if there is one |
| Interceptor.NativeInterceptor.DetachAll | src/core/bindings/native_interceptor.cc:174-187 | restores all entries in some order of the map, releases exactly their blocks and empties both maps |
| SoftwareBreakpoint.NativeSoftwareBreakpoint.Set | src/core/bindings/native_breakpoint.cc:125-197 | given the code generators' answers: installs the handler first; success adds an entry and writes the trap; a failing code generator leaves the handler installed and all else unchanged |
| SoftwareBreakpoint.NativeSoftwareBreakpoint.Remove | src/core/bindings/native_breakpoint.cc:199-223 | restores the bytes, releases the blocks, and uninstalls the handler with the last entry |
| SoftwareBreakpoint.NativeSoftwareBreakpoint.RemoveAll | src/core/bindings/native_breakpoint.cc:225-239 | restores and releases all entries in some order and uninstalls the handler |
| SoftwareBreakpoint.NativeSoftwareBreakpoint.SigtrapHandler | src/core/bindings/native_breakpoint.cc:76-99 | a trap at a live breakpoint resumes in that breakpoint's trampoline, any other is passed on |
| SoftwareBreakpoint.TrapFindsItsBreakpoint | src/core/bindings/native_breakpoint.cc:79-82 | the address reported after INT3 leads back to the breakpoint, across the address wrap too |
| SoftwareBreakpoint.TrapWords | src/core/bindings/native_breakpoint.cc:180-188 | the trap is the byte CC, or the word D4200020 low byte first |
| SharedCode.ThreeAdd | src/core/bindings/internal/code_relocator.cc:227-231 | a new entry of one registry disturbs none of the others, and every allocated block keeps exactly one owner |
| SharedCode.ThreeDrop | src/core/bindings/internal/code_relocator.cc:393-396 | so does a removal: each block is released once, by its owner |
| SharedCode.OverlaidClear | src/core/bindings/native_interceptor.cc:174-187 | clearing one registry leaves memory pristine under the other's patches |
| DebugRegisters.PackedFields | src/core/bindings/native_hw_breakpoint.cc:203-250 | setting a slot enables it, makes it trap on exactly the accesses its kind is for (0 fetches, 1 writes, 3 reads and writes), gives it the length and changes no bit outside the slot |
| DebugRegisters.UnpackedFields | src/core/bindings/native_hw_breakpoint.cc:263-264 | clearing a slot clears its enable bit and no other |
| DebugRegisters.OtherSlotsKept | src/core/bindings/native_hw_breakpoint.cc:225-248 | setting or clearing one slot disturbs no field of another |
| DebugRegisters.LenValue | src/core/bindings/native_hw_breakpoint.cc:228-246 | LEN means the given size exactly for sizes 1, 2, 4 and 8 |
| DebugRegisters.ExecuteLengthIsZeroIff | src/core/bindings/native_hw_breakpoint.cc:228-248 | LEN of an execute breakpoint, documented as ignored, is 0 exactly for sizes other than 2, 4 and 8 |
| DebugRegisters.ExecuteLengthExample | src/core/bindings/native_hw_breakpoint.cc:228-248 | an execute breakpoint of size 4 gets LEN 3 |
| DebugRegisters.MarkBits | src/core/bindings/native_hw_breakpoint.cc:171-177 | the bitmask expressions set, clear and test one slot's bit |
| DebugRegisters.FindFreeSlot | src/core/bindings/native_hw_breakpoint.cc:171-177 | the lowest free slot, or -1 when there is none |
| HardwareBreakpoint.SetAgrees | src/core/bindings/native_hw_breakpoint.cc:558-588 | after set, a slot is enabled and marked used exactly when one live entry owns it, with its address and length, and traps on exactly the accesses of its kind |
| HardwareBreakpoint.TypeNamed | src/core/bindings/native_hw_breakpoint.cc:48-57 | "execute", "write" and "readwrite" are the words accepted, for fetches, for writes, and for reads and writes |
| HardwareBreakpoint.ClearAgrees | src/core/bindings/native_hw_breakpoint.cc:605-619 | the same after remove |
| HardwareBreakpoint.AllClearedAgrees | src/core/bindings/native_hw_breakpoint.cc:625-646 | clearing the owned slots leaves no slot enabled and none in use |
| HardwareBreakpoint.SlotIsFree | src/core/bindings/native_hw_breakpoint.cc:512-515 | below the limit a slot is free, so "no free slots" cannot be reported |
| HardwareBreakpoint.NativeHardwareBreakpoint.Set | src/core/bindings/native_hw_breakpoint.cc:495-592 | given the code generators' answers: the three words, the address and the limit of 4 are checked in this order; success takes the lowest free slot, which then watches the address for exactly the accesses the word names; a failing code generator leaves registry, registers and blocks unchanged |
| HardwareBreakpoint.NativeHardwareBreakpoint.Remove | src/core/bindings/native_hw_breakpoint.cc:594-623 | clears the entry's slot, releases its blocks and uninstalls the handler with the last entry |
| HardwareBreakpoint.NativeHardwareBreakpoint.RemoveAll | src/core/bindings/native_hw_breakpoint.cc:625-646 | clears the enable bit, the use bit and the address register of exactly the owned slots and changes no other bit of DR7, empties both maps and releases exactly the owned blocks |
| HardwareBreakpoint.NativeHardwareBreakpoint.SigtrapHandler | src/core/bindings/native_hw_breakpoint.cc:390-463 | an execute breakpoint resumes in its trampoline; otherwise the lowest slot reported in DR6 that a live entry owns is notified |
| ExceptionHandlers.WithoutExact | src/core/bindings/native_exception_handler.cc:447-453 | unregistering removes exactly the handlers with the id |
| ExceptionHandlers.ExceptionHandler.UnregisterHandler | src/core/bindings/native_exception_handler.cc:447-453 | the removal loop keeps all other handlers in order |
| ExceptionHandlers.ExceptionHandler.RefEnable | src/core/bindings/native_exception_handler.cc:455-462 | installs only on the first reference and only when not enabled |
| ExceptionHandlers.ExceptionHandler.Disable | src/core/bindings/native_exception_handler.cc:386-392 | clears the flag, and puts the saved dispositions back only with no reference held |
| ExceptionHandlers.ExceptionHandler.Dispatch | src/core/bindings/native_exception_handler.cc:104-258 | the first callback registered for what the signal reports that claims it wins; an unclaimed SIGSEGV, SIGBUS, SIGTRAP or SIGILL goes to what was saved for that signal |
| ExceptionHandlers.FaithfulOrLost | src/core/bindings/native_exception_handler.cc:264-293 | on every run, saved dispositions are the true originals exactly until a disable() in use; after it they are lost for good |
| ExceptionHandlers.RestoredIff | src/core/bindings/native_exception_handler.cc:386-392 | the closing disable() restores the originals exactly on runs without a disable() in use |
| ExceptionHandlers.CurrentWhenNeeded | src/core/bindings/native_exception_handler.cc:455-462 | while referenced or enabled, the engine's handler is current, on every run |
| ExceptionHandlers.LostExample | src/core/bindings/native_exception_handler.cc:386-392 | a three-call run that loses the originals |
| ExceptionHandlers.LettingGoRestoresNothing | src/core/bindings/native_exception_handler.cc:464-471 | without a disable(), the originals are current exactly when nobody ever asked for the handlers, however few references are left |
| ExceptionHandlers.LetGoExample | src/core/bindings/native_exception_handler.cc:464-471 | the only reference is taken and let go, and the handlers stay |
| ExceptionHandlers.UnclaimedGoesToOriginalIff | src/core/bindings/native_exception_handler.cc:226-293 | when the engine's handler is current, the dispositions forwarded to are, signal by signal, the original ones exactly when the handlers were never installed while already current, and otherwise the engine itself |
| ExceptionHandlers.UnclaimedGoesToOriginal | src/core/bindings/native_exception_handler.cc:226-258 | on every run without a disable() in use each signal's saved disposition is its original one |
| ExceptionHandlers.ForwardsToItselfExample | src/core/bindings/native_exception_handler.cc:386-392 | a three-call run after which the engine forwards to its own handler |
| HandlerOwners.OwnersUnregister | src/core/bindings/native_exception_handler.cc:447-453 | taking out some owners' handlers takes out no other owner's and no single-step handler |
| EventRing.PendingEvents.Record | src/core/bindings/native_memory_access_monitor.cc:164-174 | takes the next slot, whatever it held; while there is room this appends one event to the outstanding queue |
| EventRing.PendingEvents.Front | src/core/bindings/native_memory_access_monitor.cc:310-316 | the test of indices and flag finds the oldest event exactly when there is one |
| EventRing.PendingEvents.Release | src/core/bindings/native_memory_access_monitor.cc:333-335 | hands the oldest slot back, also across the 32-bit wrap |
| EventRing.AdvanceShifts | src/core/bindings/native_memory_access_monitor.cc:165-167 | slots keep their meaning when the index wraps, because 256 divides 2^32 |
| EventRing.QuietRingIsQueue | src/core/bindings/native_memory_access_monitor.cc:73-86 | whenever no handler and no drain is in progress, the interrupted ring is that queue: the ready slots are the outstanding claims, oldest first, with their own fields |
| PendingRing.StepKeepsInv | src/core/bindings/native_memory_access_monitor.cc:73-86 | every atomic step of any producer or the consumer keeps the protocol invariant while at most 256 claims are outstanding |
| PendingRing.IndexTestIsExact | src/core/bindings/native_memory_access_monitor.cc:307-310 | the 32-bit comparison tells exactly whether everything seen was delivered |
| PendingRing.RingSafety | src/core/bindings/native_memory_access_monitor.cc:305-340 | on every interleaving, events are delivered in claim order, each once and with its own fields, and every other claim is still being written or published intact |
| PendingRing.ClaimTakesFreeSlotIff | src/core/bindings/native_memory_access_monitor.cc:164-167 | the next claim takes a slot no outstanding claim uses exactly when fewer than 256 are outstanding |
| PendingRing.RecordEffect | src/core/bindings/native_memory_access_monitor.cc:164-174 | a handler that is not interrupted claims, fills and publishes one slot |
| PendingRing.DrainDeliversAll | src/core/bindings/native_memory_access_monitor.cc:305-340 | with no handler in progress and at most 256 outstanding, draining delivers everything claimed; `QuietRing.DeliversAllIff` has the exact condition for whole runs |
| PendingRing.OverrunLosesOldest | src/core/bindings/native_memory_access_monitor.cc:164-174 | with 256 outstanding, one more event is delivered in the oldest one's place; the `QuietRing` rows say what the ring does from then on |
| PendingRing.FullRingReachable | src/core/bindings/native_memory_access_monitor.cc:164-174 | that situation is reachable |
| QuietRing.MovesAreSteps | src/core/bindings/native_memory_access_monitor.cc:164-174 | every run of whole handlers and drains is a run of the atomic steps |
| QuietRing.DeliversAllIff | src/core/bindings/native_memory_access_monitor.cc:305-340 | after any such run a closing drain has delivered every event, in order, exactly when none was recorded while 256 were outstanding |
| QuietRing.OverrunJams | src/core/bindings/native_memory_access_monitor.cc:164-174 | after an event too many and a full drain the indices differ, the reader's slot is empty, and the oldest event is gone |
| QuietRing.JamHoldsBack | src/core/bindings/native_memory_access_monitor.cc:305-340 | then no drain delivers any of the next 255 events |
| QuietRing.JamReleasesRotated | src/core/bindings/native_memory_access_monitor.cc:305-340 | the 256th releases them, itself first, and leaves the ring just as far out of step |
| MonitorRuns.DrainLosesNothing | src/core/bindings/native_memory_access_monitor.cc:318-331 | while the pending events fit the ring, the lookup of the monitor never fails for one, so no event is dropped |
| MonitorRuns.StepKeeps | src/core/bindings/native_memory_access_monitor.cc:131-303 | every call, and every fault that finds room in the ring, keeps the invariant of events, fired flags and page protections |
| MonitorRuns.MonitorSafety | src/core/bindings/native_memory_access_monitor.cc:131-303 | on every run that meets no full ring each range is reported at most once, is fired exactly when reported, pending events belong to active monitors, and a page the engine closed belongs to an unfired range |
| MonitorRuns.InaccessibleIffWatched | src/core/bindings/native_memory_access_monitor.cc:137-181 | on every run with page-disjoint ranges, a page is inaccessible exactly when an unfired range of an active monitor contains it |
| MonitorRuns.EnableClosesExactly | src/core/bindings/native_memory_access_monitor.cc:205-232 | enabling closes exactly the pages that some watched byte lies on, and leaves every other page as it was |
| MonitorRuns.FiringKeepsExactIff | src/core/bindings/native_memory_access_monitor.cc:143-145 | handling a fault leaves every watched page closed exactly when no other unfired range shares a page with the fired one |
| MonitorRuns.DisablingKeepsExactIff | src/core/bindings/native_memory_access_monitor.cc:269-274 | the same for disabling a monitor |
| MonitorRuns.SecondRangeGoesBlind | src/core/bindings/native_memory_access_monitor.cc:143-145 | two ranges on one page: after the first is hit the second is unfired but its page is open |
| MonitorRuns.DisableTouchesOnlyItsOwn | src/core/bindings/native_memory_access_monitor.cc:255-283 | on such runs disabling delivers what is pending, reopens the monitor's unfired pages, and changes no other page or monitor |
| MonitorRuns.RestoredIff | src/core/bindings/native_memory_access_monitor.cc:227-241 | after disableAll, protections are the original ones exactly when every page ever watched was read-write at first |
| MonitorRuns.ReadOnlyPageBecomesWritable | src/core/bindings/native_memory_access_monitor.cc:227-241 | a read-only page that was watched for a while is writable afterwards |
| MonitorRuns.FaultIsResolved | src/core/bindings/native_memory_access_monitor.cc:141-178 | an access anywhere on a page the engine closed is claimed, and whichever range is picked, the page is open afterwards |
| MonitorRuns.RoomForEveryFault | src/core/bindings/native_memory_access_monitor.cc:165-167 | with at most 256 watched ranges a claimed fault always finds a free slot |
| MonitorRuns.FewRangesAlwaysFit | src/core/bindings/native_memory_access_monitor.cc:165-167 | runs whose active monitors never watch more than 256 ranges in all meet no full ring, however late they drain |
| AccessMonitor.NativeMemoryAccessMonitor.Enable | src/core/bindings/native_memory_access_monitor.cc:190-253 | lists of different length change nothing; otherwise all ranges are set up and closed, one reference is taken and two handlers are registered |
| AccessMonitor.NativeMemoryAccessMonitor.Disable | src/core/bindings/native_memory_access_monitor.cc:255-283 | drains first, even for an id that does not parse; an active monitor is taken out with its handlers and reference |
| AccessMonitor.NativeMemoryAccessMonitor.DisableAll | src/core/bindings/native_memory_access_monitor.cc:285-303 | drains and takes out every monitor, in any order of the map, with the same outcome |
| AccessMonitor.NativeMemoryAccessMonitor.DrainPending | src/core/bindings/native_memory_access_monitor.cc:305-340 | calls back for the events of active monitors, oldest first, and counts every slot handed back; every call of an active monitor, in every state, is about an address on the pages of the range it names |
| AccessMonitor.NativeMemoryAccessMonitor.FaultThenDrain | src/core/bindings/native_memory_access_monitor.cc:131-184 | a watched access, with room in the ring, and the next drain: the monitor's script is told the address, the page base and index of the range, and "read", "write", "execute" or "unknown", after everything pending before |
| AccessMonitor.NativeMemoryAccessMonitor.SegvHandler | src/core/bindings/native_memory_access_monitor.cc:131-184 | claims a fault exactly when it lies on the pages of an unfired range, fires the first such range of one monitor, reopens its pages and puts one event into the next slot, full ring or not; with room this is a fired step and the invariant is kept |
| PatternScan.ParsePattern | src/core/bindings/native_memory.cc:106-120 | the token loop computes the specified parse, failing on the first token that is not hexadecimal or too large |
| PatternScan.ParseExact | src/core/bindings/native_memory.cc:106-120 | a text parses to a pattern exactly when it notates it: tokens between any blanks, `?` or `??` for any byte, digits of either case with an optional prefix and sign for a fixed one |
| PatternScan.RenderParses | src/core/bindings/native_memory.cc:106-120 | parsing inverts the rendering of hex bytes and `??` |
| PatternScan.NaiveScanExact | src/core/bindings/native_memory.cc:122-124 | the reference scan lists, in ascending order, exactly the offsets at which every byte the pattern fixes is there |
| PatternScan.SkippedCannotMatch | src/core/bindings/native_memory.cc:167-189 | no alignment passed over by a safe shift can match |
| PatternScan.BuildShiftTable | src/core/bindings/native_memory.cc:132-165 | every entry of the table is a safe shift: the largest one where the pattern's last byte is fixed, 1 where it is a wildcard |
| PatternScan.BmhScan | src/core/bindings/native_memory.cc:125-191 | the fast search terminates and returns exactly the reference scan's matches, overlaps included |
| PatternScan.ScanMemory | src/core/bindings/native_memory.cc:363-370 | a text that notates no pattern is an error; otherwise the answer lists, ascending and with the pattern's length, exactly the addresses at which the notated pattern fits |
| ModuleScan.EnumerateModules | src/core/bindings/native_process.cc:155-209 | the fold yields one module per file path in order of first mention, with its bounds and segments |
| ModuleScan.FilePathsExact | src/core/bindings/native_process.cc:182-200 | the module paths are the file paths of the map lines, each once |
| ModuleScan.BoundsExact | src/core/bindings/native_process.cc:184-187 | base is the least start and end the greatest end of the path's mappings |
| ModuleScan.BaseNameExact | src/core/bindings/native_process.cc:194-200 | a module's name is what follows the last slash of its path |
| ModuleScan.SegmentsExact | src/core/bindings/native_process.cc:188 | the segments are exactly the path's mappings, each with its start and its length |
| ModuleScan.PseudoPathsAreNoModules | src/core/bindings/native_process.cc:179-193 | bracketed pseudo paths found no module, and every module has a segment |
| ModuleScan.PathReadIff | src/core/bindings/native_process.cc:173-178 | the path field holds the whole path of a mapped file exactly when that has no blank and at most 511 characters |
| ModuleScan.BlankMergesFiles | src/core/bindings/native_process.cc:173-193 | two files whose paths agree up to a blank become one module |
| ModuleScan.ScanModule | src/core/bindings/native_memory.cc:373-396 | the first module of the name is scanned segment by segment, or as one range without segments; unknown modules and bad patterns are errors |
| ModuleScan.ModuleHitsExact | src/core/bindings/native_memory.cc:389-395 | the hits are exactly the places wholly inside some segment at which memory holds every byte the pattern fixes |
| ModuleScan.InfoSize | src/core/bindings/native_process.cc:204-209 | the reported size is the extent cut to a 32-bit int: the extent itself below 2^31 |
| ModuleScan.ScanModuleOfMap | src/core/bindings/native_memory.cc:373-396 | for any map lines: the scan of the enumerated modules reports exactly the places, inside some mapping of the first file of that name, at which memory holds the bytes the text's pattern fixes, and is not found exactly when no mapped file has it |
| ExportTable.LargestChainEndsLast | src/core/bindings/native_process.cc:651-663 | the chain of the largest bucket ends with the last symbol |
| ExportTable.CountSymbols | src/core/bindings/native_process.cc:648-664 | the walk terminates for every well-formed table and yields the specified count |
| ExportTable.EnumerateExports | src/core/bindings/native_process.cc:666-680 | the filter loop returns the specified list |
| ExportTable.ExportsExact | src/core/bindings/native_process.cc:666-680 | the list holds exactly the defined, named, nonzero-valued global or weak symbols, each with its name, its relocated address and "function" or "variable" |
| ExportTable.GnuExportsComplete | src/core/bindings/native_process.cc:648-664 | the count from the GNU table loses no export exactly when some symbol is hashed or there is none to lose |
| ExportTable.UnhashedExportMissed | src/core/bindings/native_process.cc:648-664 | a table with one export and no hashed symbol yields an empty list |
| LinearSweep.SweepIsTiled | src/core/bindings/native_disassembler.cc:269-297 | for every decoder that stays within its bytes, the sweep's instructions ascend, do not overlap and lie inside the range |
| LinearSweep.SweepVisits | src/core/bindings/native_disassembler.cc:269-297 | the swept instructions are those decoded, from at most 16 bytes, at the offsets visited: past each instruction, or the skip further where nothing decodes, until the range is left |
| LinearSweep.FindXrefs | src/core/bindings/native_disassembler.cc:256-300 | the loop terminates and returns the references of the recursive sweep; null addresses and empty ranges give none |
| LinearSweep.XrefsExact | src/core/bindings/native_disassembler.cc:287-293 | these are exactly the instructions, decoded at the offsets a sweep visits, whose target matches, ascending and inside the range |
| LinearSweep.FilterInstructions | src/core/bindings/native_disassembler.cc:325-356 | the loop computes what the filter keeps of the specified listing; null addresses and counts up to 0 give nothing |
| LinearSweep.FilteredExact | src/core/bindings/native_disassembler.cc:325-356 | the listing is instructions decoded from 16 bytes each, one right behind the other, as many as asked for unless nothing decodes behind the last; the result is exactly the accepted ones, in order |
| Utf8Strings.AllocUtf8String | src/core/typescript/src/memory.ts:28-48 | the loop emits the encoding of the string's code points and one NUL |
| Utf8Strings.PairsConsumedOnce | src/core/typescript/src/memory.ts:30-41 | the code points read determine the string: every surrogate pair is consumed once |
| Utf8Strings.EncodedAllDecodes | src/core/typescript/src/memory.ts:32-39 | an RFC 3629 decoder recovers the code points exactly when all are scalar values |
| Utf8Strings.Utf8RoundTrip | src/core/typescript/src/memory.ts:28-48 | decoding recovers the code points exactly for well-formed UTF-16 |
| Utf8Strings.LoneSurrogateIsNotUtf8 | src/core/typescript/src/memory.ts:32-39 | a lone D800 becomes ED A0 80, which no UTF-8 decoder accepts |
| Utf8Strings.PrefixFree | src/core/typescript/src/memory.ts:32-39 | no code point's encoding is a prefix of another's |
| Utf8Strings.OnlyTerminatorIsNul | src/core/typescript/src/memory.ts:43 | a zero byte before the terminator comes only from a zero in the string |
| SystemRuns.StepKeeps | src/core/script.cc:20-28 | every call of every subsystem, and every fault that finds room in the ring, keeps the invariant of the whole engine: reference count, handlers, registries, blocks, debug registers, monitors |
| SystemRuns.FewRangesFaultsPossible | src/core/bindings/native_memory_access_monitor.cc:165-167 | while at most 256 ranges are watched, every fault the handler can meet is one of these steps |
| SystemCleanup.ReferencesConserved | src/core/bindings/native_exception_handler.cc:455-471 | in every reachable state the reference count is the installed trap handlers plus the active monitors, every subsystem in use has its handler registered, and the engine's handler is current while needed |
| SystemCleanup.StraysStay | src/core/bindings/native_hw_breakpoint.cc:474-476 | no call ever removes the single-step handler of a hardware installation |
| SystemCleanup.InstallationAddsStray | src/core/bindings/native_hw_breakpoint.cc:468-478 | every installation adds one |
| SystemCleanup.RunConserves | src/core/bindings/native_interceptor.cc:91-257 | on every run without overlapping patches, code memory is pristine memory under the live patches of hooks and software breakpoints |
| SystemCleanup.RunTraced | src/core/bindings/native_interceptor.cc:91-257 | overlapping or not, on every run a byte under no live patch holds what the patches put back so far have left there |
| SystemCleanup.CleanupEndsClean | src/core/script.cc:20-28 | from every state of every run that meets no full ring, cleanup leaves all registries and slots empty, no JIT block, no pending event, reference count 0 and handlers disabled |
| SystemCleanup.CleanupLeavesStrays | src/core/script.cc:20-28 | the handlers left are exactly the stray single-step ones |
| SystemCleanup.CleanupRestores | src/core/script.cc:20-28 | after any run and cleanup: original dispositions exactly without a disable() in use, original page protections exactly when only read-write pages were watched, original code bytes exactly when on every byte the patch put back last had saved the original value, so always without overlaps |
| SystemCleanup.TrapOutlivesCleanup | src/core/script.cc:20-28 | a run of two calls, a breakpoint and a hook over it, after which cleanup leaves the trap instruction in the code |
| NestedPatches.TakeOut | src/core/bindings/native_interceptor.cc:161-163 | a patch that no later one overlaps can be taken out of the middle of a stack as if it were the last |
| NestedPatches.NestedRunStacked | src/core/bindings/native_interceptor.cc:91-257 | with installs and removals in any interleaving, if each removal takes a patch no later one overlaps, code memory is pristine memory under the stack of live patches |
| NestedPatches.NestedCleanupRestores | src/core/script.cc:20-28 | on such runs, if cleanup too finds each patch uncovered, the code bytes are the original ones, overlaps or not |
| NestedPatches.HookComesOffFirst | src/core/bindings/native_interceptor.cc:174-187 | with a hook over a breakpoint, the hook first meets that condition and the breakpoint first does not |
| Runtime.Runtime.Attach | src/core/bindings/native_interceptor.cc:91-148 | the call is the attach step of the runs, on the shared state |
| Runtime.Runtime.SetSoftware | src/core/bindings/native_breakpoint.cc:125-197 | the call is the set step of the runs |
| Runtime.Runtime.SetHardware | src/core/bindings/native_hw_breakpoint.cc:495-592 | the call is the set step of the runs, in the lowest free slot |
| Runtime.Runtime.EnableMonitor | src/core/bindings/native_memory_access_monitor.cc:190-253 | the call is the enable step of the runs, or nothing for lists of different length |
| Runtime.Runtime.OnFault | src/core/bindings/native_memory_access_monitor.cc:131-184 | handling a fault is the fault step of the runs while the ring has room; on a full ring the fault is claimed all the same and its event takes the next slot |
| Runtime.Runtime.Cleanup | src/core/script.cc:20-28 | the teardown sequence, over the objects, ends in the state of the cleanup theorem and is clean |

## Left out

- `CALL rel32`, `LOOP`, `JCXZ` and `JMP [RIP+d]` in relocated blocks: `CodeRelocator.Relocatable` excludes them; the code jumps to a label it never binds, or takes them for a conditional jump.
- RIP-relative operands in relocated blocks: the code copies them verbatim, so they mean something else at the new place; an instruction's effect in the model gets no address, which is what rules them out.
- ARM64 relocation (`code_relocator.cc:125-165`): conditional and literal forms are copied verbatim, so only the x86-64 copier is modelled.
- asmjit and Capstone: the decoder is a parameter (size, branch and target facts), and asmjit's `jmp [rip]` is the six bytes the code documents. The trampoline is modelled as instructions, not bytes.
- HookTransparency.HookTransparent: code and data are separate memories, so self-modifying code is not captured; FP and SIMD registers, the red zone and instruction-cache flushing are not part of the state.
- HookTransparency.HookTransparent: the moved instructions do not read, before writing it, a byte of the trampoline's snapshot or an address the callbacks write; whether the function minds what its callbacks write is for the function.
- Interceptor.NativeInterceptor.Attach: the code generators' answers are parameters; `AttachedCode.Attach` computes the copier's and states what the block holds. That the trampoline's block holds the emitted program is not stated, because asmjit encodes it.
- Interceptor.NativeInterceptor.Replace: the code generator's answer is a parameter; `AttachedCode.Replace` computes it.
- SoftwareBreakpoint.NativeSoftwareBreakpoint.Set: the code generators' answers are parameters; `AttachedCode.SetSoftware` computes the copier's.
- HardwareBreakpoint.NativeHardwareBreakpoint.Set: the code generators' answers are parameters; `AttachedCode.SetHardware` computes the copier's.
- The meaning of position-independent instructions is a parameter that depends on their own bytes, the registers, the flags and memory.
- Operating-system calls (`mprotect`, `vm_protect`, `sigaction`, `thread_set_state`) are updates that succeed; a page change affects every mapped page of its range.
- Windows: vectored handlers, and `VirtualProtect` reporting the previous protection of a watched range.
- HardwareBreakpoint.NativeHardwareBreakpoint.constructor: the thread's four slots are free at first; registers programmed by other code are not captured.
- Linux and ARM64 hardware breakpoints (`perf_event_open`), and threads other than the one whose debug registers are modelled.
- `forwardToOriginal`: modelled up to the choice of the saved disposition; what a foreign handler or the default action then does is not.
- PendingRing.RingSafety: one consumer, sequentially consistent steps, and at most 256 outstanding claims; beyond that the `QuietRing` rows apply, for handlers and drains that are not interrupted.
- Data races on `range.fired` and the lock-free reads of `g_monitors` and `g_bpByAddress`: one fault is handled at a time; only the ring is interleaved.
- AccessMonitor.NativeMemoryAccessMonitor.SegvHandler: after a fault on a full ring only the slots and the page state are stated; the calls that follow are left to `QuietRing`.
- AccessMonitor.NativeMemoryAccessMonitor.DrainPending: callbacks are recorded, not run; they do not touch watched pages or call back into the engine.
- MonitorRuns.EnableClosesExactly: sizes above 0 and ranges that end below the top of the address space; for others, what is watched is what `MonitorState.NewRange` computes.
- AccessMonitor.NativeMemoryAccessMonitor.FaultThenDrain: the ring has room; a fault on a full one is left to `QuietRing`.
- MonitorRuns.MonitorSafety: runs on which a claimed fault meets a full ring are left to `QuietRing`; `FewRangesAlwaysFit` gives runs on which that never happens.
- Id counters and the reference count are unbounded integers; the texts of errors are error values.
- Script callbacks of exceptions (`addCallback`): the engine stores and clears them and never calls them.
- CodePatches.AnyOrderRestores: JIT blocks and the patched code do not overlap.
- ModuleScan.EnumerateModules: the numbers of a map line are taken as parsed; its path is what `ModuleScan.PathField` says sscanf stores.
- ExportTable.CountSymbols: the table is well formed (chains end, and every hashed symbol is on a chain); nothing is said of corrupted tables.
- LinearSweep.FindXrefs: the decoder returns sizes between 1 and the bytes offered.
- `safeReadMemory`, libffi marshalling, `CModule`, the configuration loader, the file watcher, async variants, console output, hexdump, generated bindings and the 64-bit integer wrappers: foreign code, plumbing, or only easy members.
