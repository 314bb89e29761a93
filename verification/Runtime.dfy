/** The script runtime of script.cc over the objects of all subsystems: every call of a script is a step of the
    runs of SystemRuns, and cleanup is the sequence whose outcome SystemCleanup states. */
module Runtime {
  import opened Results
  import opened Words
  import opened HexText
  import opened X86Machine
  import opened CodePatches
  import opened PatchRegistry
  import opened CodeMemory
  import opened DebugRegisters
  import opened SharedCode
  import opened TrapHandlers
  import opened SystemRuns
  import opened SystemCleanup
  import EventRing
  import Interceptor
  import CodeRelocator
  import EH = ExceptionHandlers
  import MS = MonitorState
  import MR = MonitorRuns
  import AM = AccessMonitor
  import SB = SoftwareBreakpoint
  import HB = HardwareBreakpoint

  class Runtime {
    const space: CodeSpace
    const exceptions: EH.ExceptionHandler
    const monitor: AM.NativeMemoryAccessMonitor
    const hardware: HB.NativeHardwareBreakpoint
    const software: SB.NativeSoftwareBreakpoint
    const interceptor: Interceptor.NativeInterceptor

    function Constants(): Platform {
      Platform(software.instruction, monitor.pageSize)
    }

    ghost function Objects(): set<object> {
      {space, exceptions, monitor, monitor.pending, monitor.pending.entries, hardware, software, interceptor}
    }

    /** The state of all subsystems. */
    ghost function Value(): System
      requires monitor.pending.Valid()
      reads space, exceptions, monitor, monitor.pending, monitor.pending.entries, hardware, software, interceptor
    {
      System(exceptions.Value(), space.mem, space.jit, interceptor.Hooks(), software.Breakpoints(),
        Trap(software.handlerInstalled, software.sigtrapHandlerId), hardware.Breakpoints(), hardware.SlotsValue(),
        Trap(hardware.handlerInstalled, hardware.handlerId), monitor.Value())
    }

    ghost predicate Wired() {
      && interceptor.space == space && software.space == space && hardware.space == space
      && software.exceptions == exceptions && hardware.exceptions == exceptions && monitor.exceptions == exceptions
      && PlatformOk(Constants())
    }

    ghost predicate Valid()
      reads space, exceptions, monitor, monitor.pending, monitor.pending.entries, hardware, software, interceptor
    {
      Wired() && monitor.Valid() && Inv(Value(), monitor.original)
    }

    /** The invariant of the whole gives each object's own. */
    lemma PartsValid()
      requires Valid()
      ensures interceptor.Valid() && software.Valid() && hardware.Valid()
    {
      hide MS.Inv, HB.Agree, HB.NoBytes, HandlersOk, Three, RegistryOk;
      var s := Value();
      ThreeRegistries(s.hooks, s.soft, s.hard, s.mem, s.jit);
    }

    constructor (original: EH.Dispositions, mem: Memory, dr: seq<u64>, dr7: Word, pages: map<nat, MS.Prot>,
        instruction: seq<byte>, pcAdvances: bool, pageSize: u64)
      requires |dr| == SLOTS && (forall k :: 0 <= k < SLOTS ==> !IsEnabled(dr7, k))
      requires instruction in {SB.INT3, SB.BRK} && pageSize > 0
      ensures Valid()
      ensures exists slots :: HB.Agree(map[], slots) && Value() == Init(original, mem, slots, pages)
    {
      hide Inv, MS.Inv, HB.Agree, HB.NoBytes, RegistryOk, Three, IsEnabled;
      var code := new CodeSpace(mem);
      var handlers := new EH.ExceptionHandler(original);
      var watcher := new AM.NativeMemoryAccessMonitor(handlers, pages, pageSize);
      var watchpoints := new HB.NativeHardwareBreakpoint(code, handlers, dr, dr7);
      var breakpoints := new SB.NativeSoftwareBreakpoint(code, handlers, instruction, pcAdvances);
      var hooks := new Interceptor.NativeInterceptor(code);
      InitInv(original, mem, watchpoints.SlotsValue(), pages);
      space, exceptions, monitor := code, handlers, watcher;
      hardware, software, interceptor := watchpoints, breakpoints, hooks;
      new;
      assert Value() == Init(original, mem, watchpoints.SlotsValue(), pages);
    }

    method Attach(target: u64, relocated: Option<u64>, trampoline: Option<u64>)
      returns (r: Result<string, Interceptor.HookError>)
      requires Valid() && IsMapped(space.mem, target, CodeRelocator.PATCH_SIZE) &&
                 TwoFresh(space.jit, relocated, trampoline)
      modifies Objects()
      ensures Valid() && StepsTo(old(Value()), Constants(), Op.Attach(target, relocated, trampoline), Value())
    {
      hide Inv, RegistryOk, IsMapped, Poke, CodeRelocator.AbsoluteJump, NewEntry, Added, StepsTo;
      PartsValid();
      ghost var s := Value();
      ghost var op := Op.Attach(target, relocated, trampoline);
      AttachSteps(s, Constants(), op);
      r := interceptor.Attach(target, relocated, trampoline);
      StepsKeep(s, Constants(), op, Value(), monitor.original);
    }

    method Replace(target: u64, replacement: u64, relocated: Option<u64>)
      returns (r: Result<u64, Interceptor.HookError>)
      requires Valid() && IsMapped(space.mem, target, CodeRelocator.PATCH_SIZE) && Fresh(space.jit, relocated)
      modifies Objects()
      ensures Valid() && StepsTo(old(Value()), Constants(), Op.Replace(target, replacement, relocated), Value())
    {
      hide Inv, RegistryOk, IsMapped, Poke, CodeRelocator.AbsoluteJump, NewEntry, Added, StepsTo;
      PartsValid();
      ghost var s := Value();
      ghost var op := Op.Replace(target, replacement, relocated);
      ReplaceSteps(s, Constants(), op);
      r := interceptor.Replace(target, replacement, relocated);
      StepsKeep(s, Constants(), op, Value(), monitor.original);
    }

    method Detach(hookIdStr: string) returns (r: Result<(), Interceptor.HookError>)
      requires Valid()
      modifies Objects()
      ensures Valid()
      ensures match ParseHexAddr(hookIdStr)
              case Failure(_) => Value() == old(Value())
              case Success(id) => StepsTo(old(Value()), Constants(), Op.Detach(id), Value())
    {
      hide Inv, RegistryOk, Poke, Dropped, StepsTo, ParseHexAddr, Blocks;
      PartsValid();
      ghost var s := Value();
      var parsed := ParseHexAddr(hookIdStr);
      r := interceptor.Detach(hookIdStr);
      if parsed.Success? {
        DetachSteps(s, Constants(), parsed.value);
        StepsKeep(s, Constants(), Op.Detach(parsed.value), Value(), monitor.original);
      }
    }

    /** Reverting a target is detaching the hook it has. */
    method Revert(target: u64)
      requires Valid()
      modifies Objects()
      ensures Valid()
      ensures if target in old(interceptor.hooksByTarget)
              then exists id :: id in old(interceptor.hooksById) && old(interceptor.hooksById)[id].address == target &&
                     StepsTo(old(Value()), Constants(), Op.Detach(id), Value())
              else Value() == old(Value())
    {
      hide Inv, RegistryOk, Poke, Dropped, StepsTo, Blocks;
      PartsValid();
      ghost var s := Value();
      interceptor.Revert(target);
      if target in s.hooks.byAddress {
        ghost var id :| id in s.hooks.byId && s.hooks.byId[id].address == target &&
          interceptor.DroppedFrom(id, s.hooks, s.mem, s.jit);
        DetachSteps(s, Constants(), id);
        StepsKeep(s, Constants(), Op.Detach(id), Value(), monitor.original);
      }
    }

    method DetachAll() returns (ghost order: seq<nat>)
      requires Valid()
      modifies Objects()
      ensures Valid() && StepsTo(old(Value()), Constants(), Op.DetachAll(order), Value())
    {
      hide Inv, RegistryOk, RestoreAll, PatchesIn, AllBlocks, StepsTo;
      PartsValid();
      ghost var s := Value();
      order := interceptor.DetachAll();
      DetachAllSteps(s, Constants(), order);
      StepsKeep(s, Constants(), Op.DetachAll(order), Value(), monitor.original);
    }

    method SetSoftware(address: u64, relocated: Option<u64>, trampoline: Option<u64>)
      returns (r: Result<string, SB.BreakpointError>)
      requires Valid() && IsMapped(space.mem, address, |software.instruction|) &&
                 TwoFresh(space.jit, relocated, trampoline)
      modifies Objects()
      ensures Valid() && StepsTo(old(Value()), Constants(), Op.SetSoftware(address, relocated, trampoline), Value())
    {
      hide Inv, RegistryOk, IsMapped, Poke, NewEntry, Added, StepsTo, SB.Ensured, ToHexAddr;
      PartsValid();
      ghost var s := Value();
      ghost var op := Op.SetSoftware(address, relocated, trampoline);
      SetSoftwareSteps(s, Constants(), op);
      r := software.Set(address, relocated, trampoline);
      StepsKeep(s, Constants(), op, Value(), monitor.original);
    }

    method RemoveSoftware(breakpointIdStr: string) returns (r: Result<(), SB.BreakpointError>)
      requires Valid()
      modifies Objects()
      ensures Valid()
      ensures match ParseHexAddr(breakpointIdStr)
              case Failure(_) => Value() == old(Value())
              case Success(id) => StepsTo(old(Value()), Constants(), Op.RemoveSoftware(id), Value())
    {
      hide Inv, RegistryOk, Poke, Dropped, StepsTo, MaybeRemoved, ParseHexAddr, Blocks;
      PartsValid();
      ghost var s := Value();
      var parsed := ParseHexAddr(breakpointIdStr);
      r := software.Remove(breakpointIdStr);
      if parsed.Success? {
        RemoveSoftwareSteps(s, Constants(), parsed.value);
        StepsKeep(s, Constants(), Op.RemoveSoftware(parsed.value), Value(), monitor.original);
      }
    }

    method RemoveAllSoftware() returns (ghost order: seq<nat>)
      requires Valid()
      modifies Objects()
      ensures Valid() && StepsTo(old(Value()), Constants(), Op.RemoveAllSoftware(order), Value())
    {
      hide Inv, RegistryOk, RestoreAll, PatchesIn, AllBlocks, StepsTo, MaybeRemoved;
      PartsValid();
      ghost var s := Value();
      order := software.RemoveAll();
      RemoveAllSoftwareSteps(s, Constants(), order);
      StepsKeep(s, Constants(), Op.RemoveAllSoftware(order), Value(), monitor.original);
    }

    method SetHardware(address: u64, typeStr: string, size: int, relocated: Option<u64>, trampoline: Option<u64>)
      returns (r: Result<string, HB.HardwareError>, ghost slot: nat)
      requires Valid() && TwoFresh(space.jit, relocated, trampoline)
      modifies Objects()
      ensures Valid()
      ensures match HB.ParseType(typeStr)
              case None => Value() == old(Value())
              case Some(kind) =>
                StepsTo(old(Value()), Constants(), Op.SetHardware(address, kind, size, slot, relocated, trampoline),
                  Value())
    {
      hide Inv, RegistryOk, Added, StepsTo, HB.Ensured, HB.SetSlot, HB.NewBreakpoint, HB.ParseType, HB.Agree,
        HB.NoBytes, HB.View, HB.Guards, HB.Names, HB.DebugRegisters.Wants, ToHexAddr, Blocks, MS.Inv;
      HB.TypeNamed(typeStr);
      PartsValid();
      ghost var s := Value();
      slot := 0;
      if !HardRefused(s, address) {
        slot := FirstFree(s, monitor.original);
      }
      var kind := HB.ParseType(typeStr);
      r := hardware.Set(address, typeStr, size, relocated, trampoline);
      if kind.Some? {
        ghost var op := Op.SetHardware(address, kind.value, size, slot, relocated, trampoline);
        SetHardwareSteps(s, Constants(), op);
        StepsKeep(s, Constants(), op, Value(), monitor.original);
      }
    }

    method RemoveHardware(breakpointIdStr: string) returns (r: Result<(), HB.HardwareError>)
      requires Valid()
      modifies Objects()
      ensures Valid()
      ensures match ParseHexAddr(breakpointIdStr)
              case Failure(_) => Value() == old(Value())
              case Success(id) => StepsTo(old(Value()), Constants(), Op.RemoveHardware(id), Value())
    {
      hide Inv, RegistryOk, Dropped, StepsTo, MaybeRemoved, HB.ClearSlot, HB.Agree, HB.NoBytes, ParseHexAddr, Blocks;
      PartsValid();
      ghost var s := Value();
      var parsed := ParseHexAddr(breakpointIdStr);
      r := hardware.Remove(breakpointIdStr);
      if parsed.Success? {
        RemoveHardwareSteps(s, Constants(), parsed.value, monitor.original);
        StepsKeep(s, Constants(), Op.RemoveHardware(parsed.value), Value(), monitor.original);
      }
    }

    method RemoveAllHardware()
      requires Valid()
      modifies Objects()
      ensures Valid() && StepsTo(old(Value()), Constants(), Op.RemoveAllHardware, Value())
    {
      hide Inv, RegistryOk, AllBlocks, StepsTo, MaybeRemoved, HB.Agree, HB.NoBytes, HB.View, HB.ClearOwned,
        HB.OwnedSlots;
      PartsValid();
      ghost var s := Value();
      hardware.RemoveAll();
      RemoveAllHardwareSteps(s, Constants());
      StepsKeep(s, Constants(), Op.RemoveAllHardware, Value(), monitor.original);
    }

    method EnableMonitor(addresses: seq<u64>, sizes: seq<int>) returns (r: Result<string, AM.MonitorError>)
      requires Valid()
      modifies Objects()
      ensures Valid()
      ensures if |addresses| != |sizes| then Value() == old(Value())
              else StepsTo(old(Value()), Constants(), Op.EnableMonitor(addresses, sizes), Value())
    {
      hide Inv, StepsTo, MS.Enabled, MS.NewRanges, AM.EnabledHandlers, MS.Inv;
      ghost var s := Value();
      r := monitor.Enable(addresses, sizes);
      if |addresses| == |sizes| {
        EnableMonitorSteps(s, Constants(), addresses, sizes);
        StepsKeep(s, Constants(), Op.EnableMonitor(addresses, sizes), Value(), monitor.original);
      }
    }

    /** A monitor id that does not parse still drains. */
    method DisableMonitor(monitorIdStr: string) returns (r: Result<(), AM.MonitorError>)
      requires Valid()
      modifies Objects()
      ensures Valid()
      ensures var op := match ParseHexAddr(monitorIdStr)
                        case Failure(_) => Op.Drain
                        case Success(id) => Op.DisableMonitor(id);
              StepsTo(old(Value()), Constants(), op, Value())
    {
      hide Inv, StepsTo, MS.Disabled, MS.Drained, AM.DisabledHandlers, MS.Inv, ParseHexAddr;
      ghost var s := Value();
      var parsed := ParseHexAddr(monitorIdStr);
      ghost var op := if parsed.Failure? then Op.Drain else Op.DisableMonitor(parsed.value);
      r := monitor.Disable(monitorIdStr);
      DisableMonitorSteps(s, Constants(), op);
      StepsKeep(s, Constants(), op, Value(), monitor.original);
    }

    method DisableAllMonitors()
      requires Valid()
      modifies Objects()
      ensures Valid() && StepsTo(old(Value()), Constants(), Op.DisableAllMonitors, Value())
    {
      hide Inv, StepsTo, MS.AllDisabled, AM.AllDisabledHandlers, MS.Inv;
      ghost var s := Value();
      monitor.DisableAll();
      DisableAllMonitorsSteps(s, Constants());
      StepsKeep(s, Constants(), Op.DisableAllMonitors, Value(), monitor.original);
    }

    method DrainPending() returns (count: nat)
      requires Valid()
      modifies Objects()
      ensures Valid() && StepsTo(old(Value()), Constants(), Op.Drain, Value())
      ensures count == |old(Value()).monitor.pending|
    {
      hide Inv, StepsTo, MS.Drained, MS.Inv;
      ghost var s := Value();
      count := monitor.DrainPending();
      DisableMonitorSteps(s, Constants(), Op.Drain);
      StepsKeep(s, Constants(), Op.Drain, Value(), monitor.original);
    }

    /** A fault, as the monitor's handler sees it.  With room in the ring, or nothing to record, it is a step of the
        runs; on a full ring it is claimed all the same, and its event takes the next slot. */
    method OnFault(faultAddr: u64, accessType: MS.AccessType) returns (handled: bool, ghost hit: Option<(nat, nat)>)
      requires Valid()
      modifies monitor`pages, monitor`monitors, monitor.pending`writeIdx, monitor.pending.entries
      ensures (handled <==> hit.Some?) && (handled <==> MS.Watched(old(monitor.monitors), faultAddr))
      ensures !handled || old(|monitor.pending.Pending()|) < EventRing.CAPACITY ==>
                Valid() && StepsTo(old(Value()), Constants(), Op.Fault(faultAddr, MS.AccessCode(accessType), hit),
                  Value())
      ensures handled ==>
                MS.Hits(old(Value()).monitor, faultAddr, hit.value.0, hit.value.1) &&
                var fired := MS.Fired(old(Value()).monitor, hit.value.0, hit.value.1, faultAddr,
                  MS.AccessCode(accessType));
                && monitor.monitors == fired.monitors && monitor.pages == fired.pages
                && monitor.pending.entries[..] == old(monitor.pending.entries[..])[
                     old(monitor.pending.writeIdx) % EventRing.CAPACITY :=
                     EventRing.Slot(true, fired.pending[|fired.pending| - 1])]
    {
      hide Inv, StepsTo, MS.Fired, MS.Inv, MS.Watched, MS.Hits;
      ghost var s := Value();
      ghost var pair;
      handled, pair := monitor.SegvHandler(faultAddr, accessType);
      hit := if handled then Some(pair) else None;
      if !handled || |s.monitor.pending| < EventRing.CAPACITY {
        ghost var op := Op.Fault(faultAddr, MS.AccessCode(accessType), hit);
        FaultSteps(s, Constants(), op);
        StepsKeep(s, Constants(), op, Value(), monitor.original);
      }
    }

    method EnableExceptions()
      requires Valid()
      modifies Objects()
      ensures Valid() && StepsTo(old(Value()), Constants(), Op.EnableExceptions, Value())
    {
      hide Inv, StepsTo, MS.Inv, EH.Enabled;
      ghost var s := Value();
      exceptions.Enable();
      ExceptionsStep(s, Constants());
      StepsKeep(s, Constants(), Op.EnableExceptions, Value(), monitor.original);
    }

    method DisableExceptions()
      requires Valid()
      modifies Objects()
      ensures Valid() && StepsTo(old(Value()), Constants(), Op.DisableExceptions, Value())
    {
      hide Inv, StepsTo, MS.Inv, EH.Disabled;
      ghost var s := Value();
      exceptions.Disable();
      ExceptionsStep(s, Constants());
      StepsKeep(s, Constants(), Op.DisableExceptions, Value(), monitor.original);
    }

    /** The teardown when a script context is disposed. */
    method Cleanup() returns (ghost w: Walk)
      requires Valid()
      modifies Objects()
      ensures Valid() && CleansUpTo(old(Value()), Constants(), w, Value()) && Clean(Value())
    {
      hide Inv, MS.Inv, StepsTo, CleansUpTo, Clean;
      ghost var s := Value();
      DisableAllMonitors();
      ghost var s1 := Value();
      RemoveAllHardware();
      ghost var s2 := Value();
      ghost var softOrder := RemoveAllSoftware();
      ghost var s3 := Value();
      ghost var hookOrder := DetachAll();
      ghost var s4 := Value();
      DisableExceptions();
      w := Walk(softOrder, hookOrder);
      CleanupInSteps(s, s1, s2, s3, s4, Value(), Constants(), w, monitor.original);
    }
  }

  // ---------- What a step comes to ----------

  lemma AttachSteps(s: System, c: Platform, op: Op)
    requires PlatformOk(c) && op.Attach?
    requires IsMapped(s.mem, op.target, CodeRelocator.PATCH_SIZE) && TwoFresh(s.jit, op.relocated, op.trampoline)
    ensures StepsTo(s, c, op,
              if op.target in s.hooks.byAddress || op.relocated.None? || op.trampoline.None? then s
              else
                var patch := CodeRelocator.AbsoluteJump(op.trampoline.value);
                s.(hooks := Added(s.hooks, NewEntry(s.mem, op.target, op.trampoline.value, op.relocated.value, patch)),
                   mem := Poke(s.mem, op.target, patch),
                   jit := s.jit + {op.relocated.value, op.trampoline.value}))
  {
    hide Poke, ReadBytes, CodeRelocator.AbsoluteJump, Added, IsMapped;
  }

  lemma ReplaceSteps(s: System, c: Platform, op: Op)
    requires PlatformOk(c) && op.Replace?
    requires IsMapped(s.mem, op.target, CodeRelocator.PATCH_SIZE) && Fresh(s.jit, op.relocated)
    ensures StepsTo(s, c, op,
              if op.target in s.hooks.byAddress || op.relocated.None? then s
              else
                var patch := CodeRelocator.AbsoluteJump(op.replacement);
                s.(hooks := Added(s.hooks, NewEntry(s.mem, op.target, 0, op.relocated.value, patch)),
                   mem := Poke(s.mem, op.target, patch),
                   jit := s.jit + {op.relocated.value}))
  {
    hide Poke, ReadBytes, CodeRelocator.AbsoluteJump, Added, IsMapped;
  }

  lemma DetachSteps(s: System, c: Platform, id: nat)
    requires PlatformOk(c)
    ensures StepsTo(s, c, Op.Detach(id), DetachStep(s, id))
  {
  }

  lemma DetachAllSteps(s: System, c: Platform, order: seq<nat>)
    requires PlatformOk(c) && Enumerates(s.hooks.byId, order)
    ensures StepsTo(s, c, Op.DetachAll(order),
              s.(hooks := Cleared(s.hooks), mem := RestoreAll(s.mem, PatchesIn(s.hooks.byId, order)),
                 jit := s.jit - AllBlocks(s.hooks.byId)))
  {
    hide RestoreAll, AllBlocks;
  }

  lemma SetSoftwareSteps(s: System, c: Platform, op: Op)
    requires PlatformOk(c) && op.SetSoftware?
    requires IsMapped(s.mem, op.address, |c.instruction|) && TwoFresh(s.jit, op.relocated, op.trampoline)
    ensures StepsTo(s, c, op,
              if op.address in s.soft.byAddress then s
              else
                var t := SB.Ensured(TrapState(s.softTrap, s.exceptions));
                var u := s.(softTrap := t.trap, exceptions := t.exceptions);
                if op.relocated.None? || op.trampoline.None? then u
                else u.(soft := Added(s.soft,
                          NewEntry(s.mem, op.address, op.trampoline.value, op.relocated.value, c.instruction)),
                        mem := Poke(s.mem, op.address, c.instruction),
                        jit := s.jit + {op.relocated.value, op.trampoline.value}))
  {
    hide Poke, ReadBytes, Added, IsMapped, SB.Ensured;
  }

  lemma RemoveSoftwareSteps(s: System, c: Platform, id: nat)
    requires PlatformOk(c)
    ensures StepsTo(s, c, Op.RemoveSoftware(id),
              if id !in s.soft.byId then s
              else
                var e := s.soft.byId[id];
                var left := Dropped(s.soft, id);
                var t := MaybeRemoved(TrapState(s.softTrap, s.exceptions), left.byAddress == map[]);
                s.(soft := left, mem := Poke(s.mem, e.address, e.original), jit := s.jit - Blocks(e),
                   softTrap := t.trap, exceptions := t.exceptions))
  {
    hide Poke, Dropped, MaybeRemoved, Blocks;
  }

  lemma RemoveAllSoftwareSteps(s: System, c: Platform, order: seq<nat>)
    requires PlatformOk(c) && Enumerates(s.soft.byId, order)
    ensures StepsTo(s, c, Op.RemoveAllSoftware(order),
              var t := MaybeRemoved(TrapState(s.softTrap, s.exceptions), true);
              s.(soft := Cleared(s.soft), mem := RestoreAll(s.mem, PatchesIn(s.soft.byId, order)),
                 jit := s.jit - AllBlocks(s.soft.byId), softTrap := t.trap, exceptions := t.exceptions))
  {
    hide RestoreAll, AllBlocks, MaybeRemoved;
  }

  lemma SetHardwareSteps(s: System, c: Platform, op: Op)
    requires PlatformOk(c) && op.SetHardware? && TwoFresh(s.jit, op.relocated, op.trampoline)
    requires !HardRefused(s, op.address) ==> LowestFree(s, op.slot)
    ensures !HardRefused(s, op.address) ==> HB.SlotsOk(s.slots) && op.slot < SLOTS
    ensures StepsTo(s, c, op,
              if HardRefused(s, op.address) then s
              else
                var t := HB.Ensured(TrapState(s.hardTrap, s.exceptions));
                var u := s.(hardTrap := t.trap, exceptions := t.exceptions);
                if CodeMissing(op.kind, op.relocated, op.trampoline) then u
                else
                  var e := HB.NewBreakpoint(op.address, op.kind, op.size, op.slot, op.relocated, op.trampoline);
                  u.(hard := Added(s.hard, e), slots := HB.SetSlot(s.slots, op.slot, op.address, op.kind, op.size),
                     jit := s.jit + Blocks(e)))
  {
    hide Added, HB.Ensured, HB.SetSlot, Blocks;
  }

  /** A slot for the next hardware breakpoint exists whenever the table is not full. */
  lemma FirstFree(s: System, pages: map<nat, MS.Prot>) returns (slot: nat)
    requires Inv(s, pages) && |s.hard.byAddress| < HB.MAX_BREAKPOINTS
    ensures LowestFree(s, slot)
  {
    hide RefsOk, HandlersOk, MS.Inv, Three, RegistryOk, HB.Agree, HB.NoBytes;
    ThreeRegistries(s.hooks, s.soft, s.hard, s.mem, s.jit);
    HB.SomeSlotFree(s.hard, s.mem, s.jit, s.slots);
    slot := LowestUnused(s.slots.used);
  }

  lemma LowestUnused(used: Word) returns (slot: nat)
    requires exists k :: 0 <= k < SLOTS && !used[k]
    ensures slot < SLOTS && !used[slot] && forall k :: 0 <= k < slot ==> used[k]
  {
    slot := 0;
    while used[slot]
      invariant slot < SLOTS && forall k :: 0 <= k < slot ==> used[k]
      invariant exists k :: slot <= k < SLOTS && !used[k]
      decreases SLOTS - slot
    {
      slot := slot + 1;
    }
  }

  /** Every live hardware breakpoint has a slot to clear. */
  lemma AlwaysRemovable(s: System, pages: map<nat, MS.Prot>, id: nat)
    requires Inv(s, pages) && id in s.hard.byId
    ensures HasSlot(s, id)
  {
    hide RefsOk, HandlersOk, MS.Inv, Three, HB.NoBytes;
    HardDroppedKeeps(s, id);
  }

  lemma RemoveHardwareSteps(s: System, c: Platform, id: nat, pages: map<nat, MS.Prot>)
    requires PlatformOk(c) && Inv(s, pages)
    ensures id in s.hard.byId ==> HasSlot(s, id)
    ensures StepsTo(s, c, Op.RemoveHardware(id),
              if id !in s.hard.byId then s
              else
                var e := s.hard.byId[id];
                var left := Dropped(s.hard, id);
                var t := MaybeRemoved(TrapState(s.hardTrap, s.exceptions), left.byAddress == map[]);
                s.(hard := left, slots := HB.ClearSlot(s.slots, e.watch.value.slot), jit := s.jit - Blocks(e),
                   hardTrap := t.trap, exceptions := t.exceptions))
  {
    hide Inv, Dropped, MaybeRemoved, HB.ClearSlot, Blocks;
    if id in s.hard.byId {
      AlwaysRemovable(s, pages, id);
    }
  }

  lemma RemoveAllHardwareSteps(s: System, c: Platform)
    requires PlatformOk(c)
    ensures StepsTo(s, c, Op.RemoveAllHardware,
              var t := MaybeRemoved(TrapState(s.hardTrap, s.exceptions), true);
              s.(hard := Cleared(s.hard), slots := HB.ClearOwned(s.slots, HB.OwnedSlots(s.hard.byId)),
                 jit := s.jit - AllBlocks(s.hard.byId), hardTrap := t.trap, exceptions := t.exceptions))
  {
    hide AllBlocks, MaybeRemoved, HB.ClearOwned, HB.OwnedSlots;
  }

  lemma EnableMonitorSteps(s: System, c: Platform, addresses: seq<u64>, sizes: seq<int>)
    requires PlatformOk(c) && |addresses| == |sizes|
    ensures StepsTo(s, c, Op.EnableMonitor(addresses, sizes),
              var n := s.exceptions.nextId;
              s.(monitor := MS.Enabled(s.monitor, MS.NewRanges(addresses, sizes, c.pageSize), n, n + 1),
                 exceptions := AM.EnabledHandlers(s.exceptions)))
  {
    hide MS.Enabled, MS.NewRanges, AM.EnabledHandlers;
  }

  lemma DisableMonitorSteps(s: System, c: Platform, op: Op)
    requires PlatformOk(c) && (op.DisableMonitor? || op.Drain?)
    ensures StepsTo(s, c, op,
              if op.Drain? then s.(monitor := MS.Drained(s.monitor))
              else s.(monitor := MS.Disabled(s.monitor, op.monitor),
                      exceptions := if op.monitor in s.monitor.monitors
                                    then AM.DisabledHandlers(s.exceptions, s.monitor.monitors[op.monitor])
                                    else s.exceptions))
  {
    hide MS.Disabled, MS.Drained, AM.DisabledHandlers;
  }

  lemma DisableAllMonitorsSteps(s: System, c: Platform)
    requires PlatformOk(c)
    ensures StepsTo(s, c, Op.DisableAllMonitors,
              s.(monitor := MS.AllDisabled(s.monitor),
                exceptions := AM.AllDisabledHandlers(s.exceptions, s.monitor.monitors)))
  {
    hide MS.AllDisabled, AM.AllDisabledHandlers;
  }

  lemma FaultSteps(s: System, c: Platform, op: Op)
    requires PlatformOk(c) && op.Fault?
    requires if op.hit.Some?
             then MS.Hits(s.monitor, op.fault, op.hit.value.0, op.hit.value.1) &&
               |s.monitor.pending| < EventRing.CAPACITY
             else !MS.Watched(s.monitor.monitors, op.fault)
    ensures StepsTo(s, c, op,
              if op.hit.None? then s
              else s.(monitor := MS.Fired(s.monitor, op.hit.value.0, op.hit.value.1, op.fault, op.code)))
  {
    hide MS.Fired;
  }

  lemma ExceptionsStep(s: System, c: Platform)
    requires PlatformOk(c)
    ensures StepsTo(s, c, Op.EnableExceptions, s.(exceptions := EH.Enabled(s.exceptions)))
    ensures StepsTo(s, c, Op.DisableExceptions, s.(exceptions := EH.Disabled(s.exceptions)))
  {
    hide EH.Enabled, EH.Disabled;
  }

  /** The five calls of cleanup, one after another, are what SystemCleanup calls cleaned up. */
  lemma CleanupInSteps(
    s: System, s1: System, s2: System, s3: System, s4: System, t: System, c: Platform, w: Walk,
    pages: map<nat, MS.Prot>)
    requires Inv(s, pages)
    requires StepsTo(s, c, Op.DisableAllMonitors, s1) && StepsTo(s1, c, Op.RemoveAllHardware, s2)
    requires StepsTo(s2, c, Op.RemoveAllSoftware(w.softOrder), s3) && StepsTo(s3, c, Op.DetachAll(w.hookOrder), s4)
    requires StepsTo(s4, c, Op.DisableExceptions, t)
    ensures CleansUpTo(s, c, w, t) && Clean(t)
  {
    hide Inv, Enumerates, HB.Agree, HardMaybeRemoved, SoftMaybeRemoved, AllBlocks, RestoreAll, PatchesIn,
      MS.AllDisabled, AM.AllDisabledHandlers, EH.Disabled, Clean;
    HardMaybeRemovedOnly(HardCleared(s1));
    assert s2.soft == s.soft && s2.hooks == s.hooks;
    SoftMaybeRemovedOnly(SoftCleared(s2, w.softOrder));
    assert s3.hooks == s.hooks;
    CleanupEndsClean(s, c, w, pages);
  }
}
