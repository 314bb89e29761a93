/** All subsystems together, as one state and the script's calls on it. */
module SystemRuns {
  import opened Results
  import opened Words
  import opened X86Machine
  import opened CodePatches
  import opened PatchRegistry
  import opened CodeMemory
  import opened DebugRegisters
  import opened SharedCode
  import opened HandlerOwners
  import opened TrapHandlers
  import CodeRelocator
  import EventRing
  import EH = ExceptionHandlers
  import MS = MonitorState
  import MR = MonitorRuns
  import AM = AccessMonitor
  import SB = SoftwareBreakpoint
  import HB = HardwareBreakpoint

  /** What does not change: the trap instruction, the page size. */
  datatype Platform = Platform(instruction: seq<byte>, pageSize: u64)

  ghost predicate PlatformOk(c: Platform) {
    c.instruction in {SB.INT3, SB.BRK} && c.pageSize > 0
  }

  datatype System = System(
    exceptions: EH.State,
    mem: Memory,
    jit: set<nat>,
    hooks: Index,
    soft: Index,
    softTrap: Trap,
    hard: Index,
    slots: HB.Slots,
    hardTrap: Trap,
    monitor: MS.State)

  function Init(original: EH.Dispositions, mem: Memory, slots: HB.Slots, pages: map<nat, MS.Prot>): System {
    System(EH.Init(original), mem, {}, EMPTY, EMPTY, Trap(false, 0), EMPTY, slots, Trap(false, 0), MS.Init(pages))
  }

  datatype Op =
    | Attach(target: u64, relocated: Option<u64>, trampoline: Option<u64>)
    | Replace(target: u64, replacement: u64, relocated: Option<u64>)
    | Detach(hook: nat)
    | DetachAll(hookOrder: seq<nat>)
    | SetSoftware(address: u64, relocated: Option<u64>, trampoline: Option<u64>)
    | RemoveSoftware(bp: nat)
    | RemoveAllSoftware(softOrder: seq<nat>)
    | SetHardware(address: u64, kind: WatchKind, size: int, slot: nat, relocated: Option<u64>, trampoline: Option<u64>)
    | RemoveHardware(bp: nat)
    | RemoveAllHardware
    | EnableMonitor(addresses: seq<u64>, sizes: seq<int>)
    | DisableMonitor(monitor: nat)
    | DisableAllMonitors
    | Drain
    | Fault(fault: u64, code: nat, hit: Option<(nat, nat)>)
    | EnableExceptions
    | DisableExceptions

  // ---------- Steps ----------

  /** Writes a patch and indexes its entry. */
  function HookStep(s: System, target: u64, relocated: nat, trampoline: nat, patch: seq<byte>): System {
    var e := NewEntry(s.mem, target, trampoline, relocated, patch);
    s.(hooks := Added(s.hooks, e), mem := Poke(s.mem, target, patch), jit := s.jit + Blocks(e))
  }

  function DetachStep(s: System, id: nat): System {
    if id !in s.hooks.byId then s
    else
      var e := s.hooks.byId[id];
      s.(hooks := Dropped(s.hooks, id), mem := Poke(s.mem, e.address, e.original), jit := s.jit - Blocks(e))
  }

  function DetachAllStep(s: System, order: seq<nat>): System
    requires Enumerates(s.hooks.byId, order)
  {
    s.(hooks := Cleared(s.hooks), mem := RestoreAll(s.mem, PatchesIn(s.hooks.byId, order)),
      jit := s.jit - AllBlocks(s.hooks.byId))
  }

  function SoftEnsured(s: System): System {
    var t := SB.Ensured(TrapState(s.softTrap, s.exceptions));
    s.(softTrap := t.trap, exceptions := t.exceptions)
  }

  function SoftMaybeRemoved(s: System): System {
    var t := MaybeRemoved(TrapState(s.softTrap, s.exceptions), s.soft.byAddress == map[]);
    s.(softTrap := t.trap, exceptions := t.exceptions)
  }

  function SoftAdded(s: System, c: Platform, address: u64, relocated: nat, trampoline: nat): System {
    var e := NewEntry(s.mem, address, trampoline, relocated, c.instruction);
    s.(soft := Added(s.soft, e), mem := Poke(s.mem, address, c.instruction), jit := s.jit + Blocks(e))
  }

  function SetSoftwareStep(
    s: System, c: Platform, address: u64, relocated: Option<u64>, trampoline: Option<u64>): System {
    if address in s.soft.byAddress then s
    else if relocated.None? || trampoline.None? then SoftEnsured(s)
    else SoftAdded(SoftEnsured(s), c, address, relocated.value, trampoline.value)
  }

  function SoftDropped(s: System, id: nat): System
    requires id in s.soft.byId
  {
    var e := s.soft.byId[id];
    s.(soft := Dropped(s.soft, id), mem := Poke(s.mem, e.address, e.original), jit := s.jit - Blocks(e))
  }

  function SoftCleared(s: System, order: seq<nat>): System
    requires Enumerates(s.soft.byId, order)
  {
    s.(soft := Cleared(s.soft), mem := RestoreAll(s.mem, PatchesIn(s.soft.byId, order)),
      jit := s.jit - AllBlocks(s.soft.byId))
  }

  function HardEnsured(s: System): System {
    var t := HB.Ensured(TrapState(s.hardTrap, s.exceptions));
    s.(hardTrap := t.trap, exceptions := t.exceptions)
  }

  function HardMaybeRemoved(s: System): System {
    var t := MaybeRemoved(TrapState(s.hardTrap, s.exceptions), s.hard.byAddress == map[]);
    s.(hardTrap := t.trap, exceptions := t.exceptions)
  }

  predicate HardRefused(s: System, address: u64) {
    address in s.hard.byAddress || |s.hard.byAddress| >= HB.MAX_BREAKPOINTS
  }

  predicate CodeMissing(kind: WatchKind, relocated: Option<u64>, trampoline: Option<u64>) {
    kind == Execute && (relocated.None? || trampoline.None?)
  }

  ghost predicate LowestFree(s: System, slot: nat) {
    HB.SlotsOk(s.slots) && slot < SLOTS && !s.slots.used[slot] && forall k :: 0 <= k < slot ==> s.slots.used[k]
  }

  function HardAdded(s: System, e: Entry): System
    requires HB.SlotsOk(s.slots) && e.watch.Some? && e.watch.value.slot < SLOTS
  {
    var w := e.watch.value;
    s.(hard := Added(s.hard, e), slots := HB.SetSlot(s.slots, w.slot, e.address, w.kind, w.size),
      jit := s.jit + Blocks(e))
  }

  predicate HasSlot(s: System, id: nat)
    requires id in s.hard.byId
  {
    |s.slots.dr| == SLOTS && s.hard.byId[id].watch.Some? && s.hard.byId[id].watch.value.slot < SLOTS
  }

  function HardDropped(s: System, id: nat): System
    requires id in s.hard.byId && HasSlot(s, id)
  {
    var e := s.hard.byId[id];
    s.(hard := Dropped(s.hard, id), slots := HB.ClearSlot(s.slots, e.watch.value.slot), jit := s.jit - Blocks(e))
  }

  function HardCleared(s: System): System {
    s.(hard := Cleared(s.hard), slots := HB.ClearOwned(s.slots, HB.OwnedSlots(s.hard.byId)),
       jit := s.jit - AllBlocks(s.hard.byId))
  }

  function MonitorStep(s: System, c: Platform, op: Op): System
    requires c.pageSize > 0
    requires op.EnableMonitor? ==> |op.addresses| == |op.sizes|
    requires op.Fault? && op.hit.Some? ==>
               op.hit.value.0 in s.monitor.monitors && op.hit.value.1 < |s.monitor.monitors[op.hit.value.0].ranges|
  {
    match op
    case EnableMonitor(addresses, sizes) =>
      var n := s.exceptions.nextId;
      s.(monitor := MS.Enabled(s.monitor, MS.NewRanges(addresses, sizes, c.pageSize), n, n + 1),
         exceptions := AM.EnabledHandlers(s.exceptions))
    case DisableMonitor(id) =>
      s.(monitor := MS.Disabled(s.monitor, id),
         exceptions := if id in s.monitor.monitors then AM.DisabledHandlers(s.exceptions, s.monitor.monitors[id])
                       else s.exceptions)
    case DisableAllMonitors =>
      s.(monitor := MS.AllDisabled(s.monitor), exceptions := AM.AllDisabledHandlers(s.exceptions, s.monitor.monitors))
    case Drain => s.(monitor := MS.Drained(s.monitor))
    case Fault(a, code, Some((id, i))) => s.(monitor := MS.Fired(s.monitor, id, i, a, code))
    case _ => s
  }

  /** What a call needs: fresh blocks from the code generators, mapped code, and choices the code could make. */
  ghost predicate Possible(s: System, c: Platform, op: Op) {
    match op
    case Attach(target, relocated, trampoline) =>
      IsMapped(s.mem, target, CodeRelocator.PATCH_SIZE) && TwoFresh(s.jit, relocated, trampoline)
    case Replace(target, _, relocated) => IsMapped(s.mem, target, CodeRelocator.PATCH_SIZE) && Fresh(s.jit, relocated)
    case DetachAll(order) => Enumerates(s.hooks.byId, order)
    case SetSoftware(address, relocated, trampoline) =>
      IsMapped(s.mem, address, |c.instruction|) && TwoFresh(s.jit, relocated, trampoline)
    case RemoveAllSoftware(order) => Enumerates(s.soft.byId, order)
    case SetHardware(address, _, _, slot, relocated, trampoline) =>
      TwoFresh(s.jit, relocated, trampoline) && (!HardRefused(s, address) ==> LowestFree(s, slot))
    case RemoveHardware(id) => id in s.hard.byId ==> HasSlot(s, id)
    case EnableMonitor(addresses, sizes) => |addresses| == |sizes|
    case Fault(a, code, hit) => MR.Possible(s.monitor, MR.Fault(a, code, hit))
    case _ => true
  }

  /** One call. */
  ghost function Apply(s: System, c: Platform, op: Op): System
    requires PlatformOk(c) && Possible(s, c, op)
  {
    match op
    case Attach(target, relocated, trampoline) =>
      if target in s.hooks.byAddress || relocated.None? || trampoline.None? then s
      else HookStep(s, target, relocated.value, trampoline.value, CodeRelocator.AbsoluteJump(trampoline.value))
    case Replace(target, replacement, relocated) =>
      if target in s.hooks.byAddress || relocated.None? then s
      else HookStep(s, target, relocated.value, 0, CodeRelocator.AbsoluteJump(replacement))
    case Detach(id) => DetachStep(s, id)
    case DetachAll(order) => DetachAllStep(s, order)
    case SetSoftware(address, relocated, trampoline) => SetSoftwareStep(s, c, address, relocated, trampoline)
    case RemoveSoftware(id) => if id !in s.soft.byId then s else SoftMaybeRemoved(SoftDropped(s, id))
    case RemoveAllSoftware(order) => SoftMaybeRemoved(SoftCleared(s, order))
    case SetHardware(address, kind, size, slot, relocated, trampoline) =>
      if HardRefused(s, address) then s
      else if CodeMissing(kind, relocated, trampoline) then HardEnsured(s)
      else HardAdded(HardEnsured(s), HB.NewBreakpoint(address, kind, size, slot, relocated, trampoline))
    case RemoveHardware(id) =>
      if id !in s.hard.byId then s else HardMaybeRemoved(HardDropped(s, id))
    case RemoveAllHardware => HardMaybeRemoved(HardCleared(s))
    case EnableExceptions => s.(exceptions := EH.Enabled(s.exceptions))
    case DisableExceptions => s.(exceptions := EH.Disabled(s.exceptions))
    case _ => MonitorStep(s, c, op)
  }

  /** One call takes `s` to `t`. */
  ghost predicate StepsTo(s: System, c: Platform, op: Op, t: System) {
    PlatformOk(c) && Possible(s, c, op) && t == Apply(s, c, op)
  }

  // ---------- The invariant, part by part ----------

  function Count(installed: bool): int {
    if installed then 1 else 0
  }

  /** The reference count is the number of subsystems that hold a reference, and a subsystem with entries does. */
  ghost predicate RefsOk(s: System) {
    && s.exceptions.refCount == Count(s.softTrap.installed) + Count(s.hardTrap.installed) + |s.monitor.monitors|
    && (s.soft.byAddress != map[] ==> s.softTrap.installed)
    && (s.hard.byAddress != map[] ==> s.hardTrap.installed)
  }

  ghost function MonitorOwners(monitors: map<nat, MS.Monitor>): set<(Owner, nat)> {
    (set id | id in monitors :: (Segv(id), monitors[id].segvHandlerId)) +
    (set id | id in monitors :: (Bus(id), monitors[id].busHandlerId))
  }

  ghost function Owners(s: System): set<(Owner, nat)> {
    (if s.softTrap.installed then {(Software, s.softTrap.id)} else {}) +
    (if s.hardTrap.installed then {(Hardware, s.hardTrap.id)} else {}) + MonitorOwners(s.monitor.monitors)
  }

  ghost predicate HandlersOk(s: System) {
    Accounted(s.exceptions.handlers, s.exceptions.nextId, Owners(s))
  }

  ghost predicate CodeOk(s: System) {
    && Three(s.hooks, s.soft, s.hard, s.mem, s.jit)
    && HB.NoBytes(s.hard.byId) && HB.Agree(s.hard.byId, s.slots)
  }

  ghost predicate Inv(s: System, pages: map<nat, MS.Prot>) {
    RefsOk(s) && HandlersOk(s) && CodeOk(s) && MS.Inv(s.monitor, pages)
  }

  // ---------- Reference count and handlers ----------

  ghost predicate HeldOk(s: System) {
    RefsOk(s) && HandlersOk(s)
  }

  lemma RefEnabledKeeps(e: EH.State)
    ensures var t := EH.RefEnabled(e); t.handlers == e.handlers && t.nextId == e.nextId && t.refCount == e.refCount + 1
  {
  }

  lemma SoftEnsuredKeeps(s: System)
    requires HeldOk(s)
    ensures HeldOk(SoftEnsured(s)) && SoftEnsured(s).softTrap.installed
  {
    hide Accounted, EH.RefEnabled, MonitorOwners;
    if !s.softTrap.installed {
      RefEnabledKeeps(s.exceptions);
      var e := s.exceptions;
      OwnerRegisters(e.handlers, e.nextId, Owners(s), Software);
      assert Owners(SoftEnsured(s)) == Owners(s) + {(Software, e.nextId)};
    }
  }

  lemma HardEnsuredKeeps(s: System)
    requires HeldOk(s)
    ensures HeldOk(HardEnsured(s)) && HardEnsured(s).hardTrap.installed
  {
    hide Accounted, EH.RefEnabled, MonitorOwners;
    if !s.hardTrap.installed {
      RefEnabledKeeps(s.exceptions);
      var e := s.exceptions;
      var more := Owners(s) + {(Hardware, e.nextId)};
      OwnerRegisters(e.handlers, e.nextId, Owners(s), Hardware);
      StrayRegisters(e.handlers + [HandlerOf(Hardware, e.nextId)], e.nextId + 1, more);
      assert Owners(HardEnsured(s)) == more;
    }
  }

  lemma MonitorOwnersKind(monitors: map<nat, MS.Monitor>)
    ensures forall x :: x in MonitorOwners(monitors) ==> x.0.Segv? || x.0.Bus?
  {
  }

  lemma SoftMaybeRemovedKeeps(s: System)
    requires HeldOk(s)
    ensures HeldOk(SoftMaybeRemoved(s))
    ensures forall h :: h in s.exceptions.handlers && Stray(h) ==> h in SoftMaybeRemoved(s).exceptions.handlers
  {
    hide Accounted, EH.Without, MonitorOwners;
    if s.softTrap.installed && s.soft.byAddress == map[] {
      var t := SoftMaybeRemoved(s);
      var e := s.exceptions;
      EH.WithoutExact(e.handlers, s.softTrap.id);
      OwnersUnregister(e.handlers, t.exceptions.handlers, e.nextId, Owners(s), {(Software, s.softTrap.id)});
      MonitorOwnersKind(s.monitor.monitors);
      assert Owners(t) == Owners(s) - {(Software, s.softTrap.id)};
    }
  }

  lemma HardMaybeRemovedKeeps(s: System)
    requires HeldOk(s)
    ensures HeldOk(HardMaybeRemoved(s))
    ensures forall h :: h in s.exceptions.handlers && Stray(h) ==> h in HardMaybeRemoved(s).exceptions.handlers
  {
    hide Accounted, EH.Without, MonitorOwners;
    if s.hardTrap.installed && s.hard.byAddress == map[] {
      var t := HardMaybeRemoved(s);
      var e := s.exceptions;
      EH.WithoutExact(e.handlers, s.hardTrap.id);
      OwnersUnregister(e.handlers, t.exceptions.handlers, e.nextId, Owners(s), {(Hardware, s.hardTrap.id)});
      MonitorOwnersKind(s.monitor.monitors);
      assert Owners(t) == Owners(s) - {(Hardware, s.hardTrap.id)};
    }
  }

  lemma OneMoreMonitor(monitors: map<nat, MS.Monitor>, id: nat, m: MS.Monitor)
    requires id !in monitors
    ensures MonitorOwners(monitors[id := m]) ==
              MonitorOwners(monitors) + {(Segv(id), m.segvHandlerId)} + {(Bus(id), m.busHandlerId)}
  {
    var more := monitors[id := m];
    assert forall k :: k in monitors ==> more[k] == monitors[k];
    assert more[id] == m;
  }

  lemma OneMonitorLess(monitors: map<nat, MS.Monitor>, id: nat)
    requires id in monitors
    ensures MonitorOwners(monitors - {id}) ==
              MonitorOwners(monitors) - {(Segv(id), monitors[id].segvHandlerId), (Bus(id), monitors[id].busHandlerId)}
    ensures {(Segv(id), monitors[id].segvHandlerId), (Bus(id), monitors[id].busHandlerId)} <= MonitorOwners(monitors)
    ensures |monitors - {id}| == |monitors| - 1
  {
    var less := monitors - {id};
    assert forall k :: k in less ==> less[k] == monitors[k];
    assert less.Keys == monitors.Keys - {id};
    assert |less| == |less.Keys| && |monitors| == |monitors.Keys|;
  }

  lemma OwnersGrow(s: System, t: System, more: set<(Owner, nat)>)
    requires t.softTrap == s.softTrap && t.hardTrap == s.hardTrap
    requires MonitorOwners(t.monitor.monitors) == MonitorOwners(s.monitor.monitors) + more
    ensures Owners(t) == Owners(s) + more
  {
    hide MonitorOwners;
  }

  lemma EnabledHandlersFacts(e: EH.State)
    ensures var t := AM.EnabledHandlers(e);
            && t.handlers == e.handlers + [HandlerOf(Segv(0), e.nextId)] + [HandlerOf(Bus(0), e.nextId + 1)]
            && t.nextId == e.nextId + 2 && t.refCount == e.refCount + 1
  {
  }

  lemma NextMonitorIdUnused(m: MS.State, pages: map<nat, MS.Prot>)
    requires MS.Inv(m, pages)
    ensures m.nextId !in m.monitors
  {
  }

  lemma NewMonitor(m: MS.State, ranges: seq<MS.WatchedRange>, segvId: nat, busId: nat)
    requires m.nextId !in m.monitors
    ensures var t := MS.Enabled(m, ranges, segvId, busId);
            && |t.monitors| == |m.monitors| + 1
            && MonitorOwners(t.monitors) == MonitorOwners(m.monitors) + {(Segv(m.nextId), segvId)} +
                 {(Bus(m.nextId), busId)}
  {
    hide MonitorOwners, MS.Protect, MS.PagesOf;
    var id := m.nextId;
    var t := MS.Enabled(m, ranges, segvId, busId);
    OneMoreMonitor(m.monitors, id, t.monitors[id]);
    assert t.monitors.Keys == m.monitors.Keys + {id};
    assert |t.monitors| == |t.monitors.Keys| && |m.monitors| == |m.monitors.Keys|;
  }

  lemma EnableMonitorKeeps(s: System, c: Platform, op: Op, pages: map<nat, MS.Prot>)
    requires HeldOk(s) && MS.Inv(s.monitor, pages) && c.pageSize > 0 && op.EnableMonitor? &&
               |op.addresses| == |op.sizes|
    ensures HeldOk(MonitorStep(s, c, op))
  {
    hide Accounted, EH.RefEnabled, MonitorOwners, Owners, MS.Inv, MS.NewRanges, MS.Enabled, AM.EnabledHandlers;
    var e := s.exceptions;
    var t := MonitorStep(s, c, op);
    NextMonitorIdUnused(s.monitor, pages);
    EnabledHandlersFacts(e);
    var id := s.monitor.nextId;
    NewMonitor(s.monitor, MS.NewRanges(op.addresses, op.sizes, c.pageSize), e.nextId, e.nextId + 1);
    var segv := (Segv(id), e.nextId);
    var bus := (Bus(id), e.nextId + 1);
    OwnerRegisters(e.handlers, e.nextId, Owners(s), Segv(id));
    OwnerRegisters(e.handlers + [HandlerOf(Segv(id), e.nextId)], e.nextId + 1, Owners(s) + {segv}, Bus(id));
    var before := MonitorOwners(s.monitor.monitors);
    assert before + {segv} + {bus} == before + {segv, bus};
    OwnersGrow(s, t, {segv, bus});
    assert Owners(s) + {segv, bus} == Owners(s) + {segv} + {bus};
  }

  lemma DisabledHandlersFacts(e: EH.State, m: MS.Monitor)
    ensures var t := AM.DisabledHandlers(e, m);
            && (forall h :: h in t.handlers <==> h in e.handlers && h.id != m.segvHandlerId && h.id != m.busHandlerId)
            && t.nextId == e.nextId && t.refCount == e.refCount - 1
  {
    EH.WithoutExact(e.handlers, m.segvHandlerId);
    EH.WithoutExact(EH.Without(e.handlers, m.segvHandlerId), m.busHandlerId);
    hide EH.Without;
  }

  lemma DisabledMonitors(m: MS.State, id: nat)
    requires id in m.monitors
    ensures MS.Disabled(m, id).monitors == m.monitors - {id}
  {
  }

  lemma TwoGone(x: (Owner, nat), y: (Owner, nat), id: nat)
    ensures (forall z :: z in {x, y} ==> z.1 != id) <==> id != x.1 && id != y.1
  {
    assert x in {x, y} && y in {x, y};
  }

  /** Monitors let go: their handlers, and theirs only, are taken out, and one reference for each. */
  lemma ReleaseKeeps(s: System, t: System, gone: set<(Owner, nat)>)
    requires HeldOk(s) && t == s.(monitor := t.monitor, exceptions := t.exceptions)
    requires gone <= MonitorOwners(s.monitor.monitors)
    requires MonitorOwners(t.monitor.monitors) == MonitorOwners(s.monitor.monitors) - gone
    requires t.exceptions.refCount - |t.monitor.monitors| == s.exceptions.refCount - |s.monitor.monitors|
    requires t.exceptions.nextId == s.exceptions.nextId
    requires forall h :: h in t.exceptions.handlers <==>
               h in s.exceptions.handlers && forall x :: x in gone ==> x.1 != h.id
    ensures HeldOk(t)
    ensures forall h :: h in s.exceptions.handlers && Stray(h) ==> h in t.exceptions.handlers
  {
    hide Accounted, Owners, MonitorOwners, Stray;
    OwnersRelease(s, t, gone);
    OwnersUnregister(s.exceptions.handlers, t.exceptions.handlers, s.exceptions.nextId, Owners(s), gone);
  }

  lemma OwnersRelease(s: System, t: System, gone: set<(Owner, nat)>)
    requires t.softTrap == s.softTrap && t.hardTrap == s.hardTrap && gone <= MonitorOwners(s.monitor.monitors)
    requires MonitorOwners(t.monitor.monitors) == MonitorOwners(s.monitor.monitors) - gone
    ensures Owners(t) == Owners(s) - gone && gone <= Owners(s)
  {
    hide MonitorOwners;
    MonitorOwnersKind(s.monitor.monitors);
  }

  lemma DisableMonitorKeeps(s: System, c: Platform, op: Op)
    requires HeldOk(s) && c.pageSize > 0 && op.DisableMonitor?
    ensures HeldOk(MonitorStep(s, c, op))
    ensures forall h :: h in s.exceptions.handlers && Stray(h) ==> h in MonitorStep(s, c, op).exceptions.handlers
  {
    hide RefsOk, HandlersOk, MonitorOwners, MS.Disabled, AM.DisabledHandlers, Stray;
    var id := op.monitor;
    var t := MonitorStep(s, c, op);
    if id !in s.monitor.monitors {
      NothingDisabled(s.monitor, id);
      ReleaseKeeps(s, t, {});
    } else {
      var m := s.monitor.monitors[id];
      var segv, bus := (Segv(id), m.segvHandlerId), (Bus(id), m.busHandlerId);
      DisabledHandlersFacts(s.exceptions, m);
      DisabledMonitors(s.monitor, id);
      OneMonitorLess(s.monitor.monitors, id);
      forall h
        ensures h in t.exceptions.handlers <==>
                  h in s.exceptions.handlers && forall x :: x in {segv, bus} ==> x.1 != h.id
      {
        TwoGone(segv, bus, h.id);
      }
      ReleaseKeeps(s, t, {segv, bus});
    }
  }

  lemma NothingDisabled(m: MS.State, id: nat)
    requires id !in m.monitors
    ensures MS.Disabled(m, id).monitors == m.monitors
  {
  }

  lemma AllDisabledHandlersFacts(e: EH.State, monitors: map<nat, MS.Monitor>)
    ensures var t := AM.AllDisabledHandlers(e, monitors);
            && (forall h :: h in t.handlers <==>
                  h in e.handlers && forall x :: x in MonitorOwners(monitors) ==> x.1 != h.id)
            && t.nextId == e.nextId && t.refCount == e.refCount - |monitors|
  {
    hide AM.WithoutAll, AM.HandlerIds, MonitorOwners;
    var t := AM.AllDisabledHandlers(e, monitors);
    WithoutAllExact(e.handlers, AM.HandlerIds(monitors));
    forall h
      ensures h in t.handlers <==> h in e.handlers && forall x :: x in MonitorOwners(monitors) ==> x.1 != h.id
    {
      OwnerIds(monitors, h.id);
    }
  }

  lemma AllDisabledMonitors(m: MS.State)
    ensures MS.AllDisabled(m).monitors == map[] && |MS.AllDisabled(m).monitors| == 0
  {
  }

  lemma DisableAllMonitorsKeeps(s: System, c: Platform)
    requires HeldOk(s) && c.pageSize > 0
    ensures HeldOk(MonitorStep(s, c, DisableAllMonitors))
    ensures forall h :: h in s.exceptions.handlers && Stray(h) ==>
              h in MonitorStep(s, c, DisableAllMonitors).exceptions.handlers
  {
    hide RefsOk, HandlersOk, MonitorOwners, AM.AllDisabledHandlers, MS.AllDisabled, Stray;
    var t := MonitorStep(s, c, DisableAllMonitors);
    var gone := MonitorOwners(s.monitor.monitors);
    AllDisabledHandlersFacts(s.exceptions, s.monitor.monitors);
    AllDisabledMonitors(s.monitor);
    NoMonitors();
    assert MonitorOwners(t.monitor.monitors) == gone - gone;
    ReleaseKeeps(s, t, gone);
  }

  lemma NoMonitors()
    ensures MonitorOwners(map[]) == {}
  {
  }

  lemma OwnerIds(monitors: map<nat, MS.Monitor>, id: nat)
    ensures id in AM.HandlerIds(monitors) <==> exists x :: x in MonitorOwners(monitors) && x.1 == id
  {
    if id in AM.HandlerIds(monitors) {
      if k :| k in monitors && monitors[k].segvHandlerId == id {
        assert (Segv(k), id) in MonitorOwners(monitors);
      } else {
        var k :| k in monitors && monitors[k].busHandlerId == id;
        assert (Bus(k), id) in MonitorOwners(monitors);
      }
    }
  }

  /** Steps that change no trap, no monitor and no handler. */
  lemma SameHolders(s: System, t: System)
    requires HeldOk(s) && t.softTrap == s.softTrap && t.hardTrap == s.hardTrap
    requires t.monitor.monitors.Keys == s.monitor.monitors.Keys
    requires forall id :: id in s.monitor.monitors ==>
               t.monitor.monitors[id].segvHandlerId == s.monitor.monitors[id].segvHandlerId &&
               t.monitor.monitors[id].busHandlerId == s.monitor.monitors[id].busHandlerId
    requires t.exceptions.handlers == s.exceptions.handlers && t.exceptions.nextId == s.exceptions.nextId
    requires t.exceptions.refCount == s.exceptions.refCount
    requires (t.soft.byAddress != map[] ==> t.softTrap.installed) &&
               (t.hard.byAddress != map[] ==> t.hardTrap.installed)
    ensures HeldOk(t)
  {
    hide Accounted, MonitorOwners;
    SameMonitorOwners(s.monitor.monitors, t.monitor.monitors);
    assert |t.monitor.monitors| == |t.monitor.monitors.Keys| && |s.monitor.monitors| == |s.monitor.monitors.Keys|;
  }

  lemma SameMonitorOwners(ms: map<nat, MS.Monitor>, ms': map<nat, MS.Monitor>)
    requires ms'.Keys == ms.Keys
    requires forall id :: id in ms ==>
               ms'[id].segvHandlerId == ms[id].segvHandlerId && ms'[id].busHandlerId == ms[id].busHandlerId
    ensures MonitorOwners(ms') == MonitorOwners(ms)
  {
    forall x
      ensures x in MonitorOwners(ms') <==> x in MonitorOwners(ms)
    {
    }
  }

  // ---------- Code and blocks ----------

  lemma NewEntryFacts(mem: Memory, address: u64, trampoline: nat, relocated: nat, patch: seq<byte>)
    ensures var e := NewEntry(mem, address, trampoline, relocated, patch);
            && e.address == address && e.written == patch && e.original == ReadBytes(mem, address, |patch|)
            && |e.original| == |e.written| && Blocks(e) == {trampoline, relocated} - {0}
            && DistinctBlocks(e) == (trampoline != relocated || trampoline == 0)
  {
  }

  lemma HookStepKeeps(s: System, target: u64, relocated: nat, trampoline: nat, patch: seq<byte>)
    requires CodeOk(s) && target !in s.hooks.byAddress && IsMapped(s.mem, target, |patch|)
    requires relocated !in s.jit && trampoline !in s.jit && (trampoline != relocated || trampoline == 0)
    ensures CodeOk(HookStep(s, target, relocated, trampoline, patch))
  {
    hide Three, HB.Agree, HB.NoBytes, Poke, IsMapped, Added, NewEntry, Blocks, DistinctBlocks;
    NewEntryFacts(s.mem, target, trampoline, relocated, patch);
    ThreeAdd(s.hooks, s.soft, s.hard, s.mem, s.jit, NewEntry(s.mem, target, trampoline, relocated, patch));
  }

  lemma DetachKeeps(s: System, id: nat)
    requires CodeOk(s)
    ensures CodeOk(DetachStep(s, id))
  {
    hide Three, HB.Agree, HB.NoBytes, Poke, Dropped;
    if id in s.hooks.byId {
      ThreeDrop(s.hooks, s.soft, s.hard, s.mem, s.jit, id);
    }
  }

  lemma ThreeRegistries(x: Index, y: Index, z: Index, mem: Memory, jit: set<nat>)
    requires Three(x, y, z, mem, jit)
    ensures RegistryOk(x, mem, jit) && RegistryOk(y, mem, jit) && RegistryOk(z, mem, jit) && Three(y, z, x, mem, jit)
    ensures Bijective(x) && Bijective(y) && Bijective(z)
  {
    Rotate(x, y, z, mem, jit);
    hide Bijective, OwnsBlocks, EntriesMapped;
  }

  lemma DetachAllKeeps(s: System, order: seq<nat>)
    requires CodeOk(s) && Enumerates(s.hooks.byId, order)
    ensures CodeOk(DetachAllStep(s, order))
  {
    hide Three, RegistryOk, HB.Agree, HB.NoBytes, RestoreAll, PatchesIn, AllBlocks;
    ThreeRegistries(s.hooks, s.soft, s.hard, s.mem, s.jit);
    RestoreEntriesKeys(s.hooks, s.mem, s.jit, order);
    ThreeClear(s.hooks, s.soft, s.hard, s.mem, s.jit, RestoreAll(s.mem, PatchesIn(s.hooks.byId, order)));
  }

  /** The same three steps for the software breakpoints. */
  lemma SoftAddedKeeps(s: System, c: Platform, address: u64, relocated: nat, trampoline: nat)
    requires CodeOk(s) && address !in s.soft.byAddress && IsMapped(s.mem, address, |c.instruction|)
    requires relocated !in s.jit && trampoline !in s.jit && trampoline != relocated
    ensures CodeOk(SoftAdded(s, c, address, relocated, trampoline))
  {
    hide Three, RegistryOk, HB.Agree, HB.NoBytes, Poke, IsMapped, Added, NewEntry, Blocks, DistinctBlocks;
    var e := NewEntry(s.mem, address, trampoline, relocated, c.instruction);
    NewEntryFacts(s.mem, address, trampoline, relocated, c.instruction);
    Rotate(s.hooks, s.soft, s.hard, s.mem, s.jit);
    ThreeAdd(s.soft, s.hard, s.hooks, s.mem, s.jit, e);
    TwiceRotated(Added(s.soft, e), s.hard, s.hooks, Poke(s.mem, address, c.instruction), s.jit + Blocks(e));
  }

  lemma TwiceRotated(x: Index, y: Index, z: Index, mem: Memory, jit: set<nat>)
    requires Three(x, y, z, mem, jit)
    ensures Three(z, x, y, mem, jit)
  {
    Rotate(x, y, z, mem, jit);
    Rotate(y, z, x, mem, jit);
  }

  lemma SoftDroppedKeeps(s: System, id: nat)
    requires CodeOk(s) && id in s.soft.byId
    ensures CodeOk(SoftDropped(s, id))
  {
    hide Three, RegistryOk, HB.Agree, HB.NoBytes, Poke, Dropped, Blocks;
    var e := s.soft.byId[id];
    Rotate(s.hooks, s.soft, s.hard, s.mem, s.jit);
    ThreeDrop(s.soft, s.hard, s.hooks, s.mem, s.jit, id);
    TwiceRotated(Dropped(s.soft, id), s.hard, s.hooks, Poke(s.mem, e.address, e.original), s.jit - Blocks(e));
  }

  lemma SoftClearedKeeps(s: System, order: seq<nat>)
    requires CodeOk(s) && Enumerates(s.soft.byId, order)
    ensures CodeOk(SoftCleared(s, order))
  {
    hide Three, RegistryOk, HB.Agree, HB.NoBytes, RestoreAll, PatchesIn, AllBlocks;
    var mem' := RestoreAll(s.mem, PatchesIn(s.soft.byId, order));
    ThreeRegistries(s.hooks, s.soft, s.hard, s.mem, s.jit);
    RestoreEntriesKeys(s.soft, s.mem, s.jit, order);
    ThreeClear(s.soft, s.hard, s.hooks, s.mem, s.jit, mem');
    TwiceRotated(Cleared(s.soft), s.hard, s.hooks, mem', s.jit - AllBlocks(s.soft.byId));
  }

  /** And for the hardware breakpoints, which write no code. */
  lemma HardAddedKeeps(s: System, e: Entry)
    requires CodeOk(s) && e.address !in s.hard.byAddress && e.original == [] && e.written == []
    requires Blocks(e) !! s.jit && DistinctBlocks(e)
    requires e.watch.Some? && e.watch.value.slot < SLOTS && !s.slots.used[e.watch.value.slot]
    ensures CodeOk(HardAdded(s, e))
  {
    hide Three, RegistryOk, HB.Agree, HB.NoBytes, Poke, Added, HB.SetSlot, Blocks, DistinctBlocks;
    ThreeRegistries(s.hooks, s.soft, s.hard, s.mem, s.jit);
    TwiceRotated(s.hooks, s.soft, s.hard, s.mem, s.jit);
    ThreeAdd(s.hard, s.hooks, s.soft, s.mem, s.jit, e);
    NoBytesWritten(s.mem, e.address, e.written);
    HB.SetKeepsAgreement(s.hard, s.mem, s.jit, s.slots, e);
    HB.AddedNoBytes(s.hard, s.mem, s.jit, e);
    Rotate(Added(s.hard, e), s.hooks, s.soft, s.mem, s.jit + Blocks(e));
  }

  lemma NoBytesWritten(mem: Memory, a: nat, bs: seq<byte>)
    requires bs == []
    ensures Poke(mem, a, bs) == mem
  {
  }

  lemma HardDroppedKeeps(s: System, id: nat)
    requires CodeOk(s) && id in s.hard.byId
    ensures HasSlot(s, id) && CodeOk(HardDropped(s, id))
  {
    ThreeRegistries(s.hooks, s.soft, s.hard, s.mem, s.jit);
    var e := s.hard.byId[id];
    assert e.original == [];
    hide Three, RegistryOk, HB.Agree, HB.NoBytes, Poke, Dropped, HB.ClearSlot, Blocks;
    TwiceRotated(s.hooks, s.soft, s.hard, s.mem, s.jit);
    ThreeDrop(s.hard, s.hooks, s.soft, s.mem, s.jit, id);
    NoBytesWritten(s.mem, e.address, e.original);
    HB.ClearKeepsAgreement(s.hard, s.mem, s.jit, s.slots, id);
    HB.DroppedNoBytes(s.hard, s.mem, s.jit, id);
    Rotate(Dropped(s.hard, id), s.hooks, s.soft, s.mem, s.jit - Blocks(e));
  }

  lemma HardClearedKeeps(s: System)
    requires CodeOk(s)
    ensures CodeOk(HardCleared(s))
  {
    hide Three, HB.Agree, HB.NoBytes, AllBlocks, HB.ClearOwned, HB.OwnedSlots;
    HB.AllClearedAgrees(s.hard.byId, s.slots);
    TwiceRotated(s.hooks, s.soft, s.hard, s.mem, s.jit);
    ThreeClear(s.hard, s.hooks, s.soft, s.mem, s.jit, s.mem);
    Rotate(Cleared(s.hard), s.hooks, s.soft, s.mem, s.jit - AllBlocks(s.hard.byId));
    NothingWritten();
  }

  lemma NothingWritten()
    ensures HB.NoBytes(map[])
  {
  }

  // ---------- Every step keeps the invariant ----------

  lemma SameCode(s: System, t: System)
    requires CodeOk(s) && t.hooks == s.hooks && t.soft == s.soft && t.hard == s.hard
    requires t.mem == s.mem && t.jit == s.jit && t.slots == s.slots
    ensures CodeOk(t)
  {
    hide Three, HB.NoBytes, HB.Agree;
  }

  lemma HooksKeep(s: System, c: Platform, op: Op, pages: map<nat, MS.Prot>)
    requires PlatformOk(c) && Possible(s, c, op) && Inv(s, pages)
    requires op.Attach? || op.Replace? || op.Detach? || op.DetachAll?
    ensures Inv(Apply(s, c, op), pages)
  {
    hide RefsOk, HandlersOk, CodeOk, MS.Inv, HookStep, DetachStep, DetachAllStep, CodeRelocator.AbsoluteJump, IsMapped;
    var t := Apply(s, c, op);
    match op {
      case Attach(target, relocated, trampoline) =>
        if target !in s.hooks.byAddress && relocated.Some? && trampoline.Some? {
          HookStepKeeps(s, target, relocated.value, trampoline.value, CodeRelocator.AbsoluteJump(trampoline.value));
        }
      case Replace(target, replacement, relocated) =>
        if target !in s.hooks.byAddress && relocated.Some? {
          NoNullBlock(s);
          HookStepKeeps(s, target, relocated.value, 0, CodeRelocator.AbsoluteJump(replacement));
        }
      case Detach(id) => DetachKeeps(s, id);
      case DetachAll(order) => DetachAllKeeps(s, order);
      case _ =>
    }
    HooksOnly(s, c, op);
    HeldNow(s, t);
  }

  lemma AgreeNow(s: System)
    requires CodeOk(s)
    ensures HB.Agree(s.hard.byId, s.slots) && HB.SlotsOk(s.slots)
  {
    hide Three, HB.View;
  }

  lemma NoNullBlock(s: System)
    requires CodeOk(s)
    ensures 0 !in s.jit
  {
  }

  /** What the operations on hooks leave alone. */
  lemma HooksOnly(s: System, c: Platform, op: Op)
    requires PlatformOk(c) && Possible(s, c, op)
    requires op.Attach? || op.Replace? || op.Detach? || op.DetachAll?
    ensures var t := Apply(s, c, op); t == s.(hooks := t.hooks, mem := t.mem, jit := t.jit)
  {
    hide Poke, RestoreAll, PatchesIn, CodeRelocator.AbsoluteJump, AllBlocks, Blocks, NewEntry, Added, Dropped;
  }

  lemma HeldNow(s: System, t: System)
    requires HeldOk(s) && t == s.(hooks := t.hooks, mem := t.mem, jit := t.jit)
    ensures HeldOk(t)
  {
    hide HandlersOk;
    assert Owners(t) == Owners(s);
    assert HandlersOk(t) by {
      SameHolders(s, t);
    }
  }

  lemma SoftKeeps(s: System, c: Platform, op: Op, pages: map<nat, MS.Prot>)
    requires PlatformOk(c) && Possible(s, c, op) && Inv(s, pages)
    requires op.SetSoftware? || op.RemoveSoftware? || op.RemoveAllSoftware?
    ensures Inv(Apply(s, c, op), pages)
  {
    hide HandlersOk, CodeOk, RefsOk, MS.Inv, SoftEnsured, SoftMaybeRemoved, SoftAdded, SoftDropped, SoftCleared,
      IsMapped;
    match op {
      case SetSoftware(address, relocated, trampoline) =>
        if address !in s.soft.byAddress {
          var e := SoftEnsured(s);
          SoftEnsuredKeeps(s);
          SoftEnsuredOnly(s);
          SameCode(s, e);
          if relocated.Some? && trampoline.Some? {
            SoftAddedKeeps(e, c, address, relocated.value, trampoline.value);
            SoftAddedHeld(e, c, address, relocated.value, trampoline.value);
          }
        }
      case RemoveSoftware(id) =>
        if id in s.soft.byId {
          var d := SoftDropped(s, id);
          SoftDroppedKeeps(s, id);
          SoftDroppedHeld(s, id);
          SoftMaybeRemovedKeeps(d);
          SoftMaybeRemovedOnly(d);
          SameCode(d, SoftMaybeRemoved(d));
        }
      case RemoveAllSoftware(order) =>
        var d := SoftCleared(s, order);
        SoftClearedKeeps(s, order);
        SoftClearedHeld(s, order);
        SoftMaybeRemovedKeeps(d);
        SoftMaybeRemovedOnly(d);
        SameCode(d, SoftMaybeRemoved(d));
      case _ =>
    }
  }

  lemma SoftEnsuredOnly(s: System)
    ensures var t := SoftEnsured(s); t == s.(softTrap := t.softTrap, exceptions := t.exceptions)
  {
  }

  lemma SoftMaybeRemovedOnly(s: System)
    ensures var t := SoftMaybeRemoved(s); t == s.(softTrap := t.softTrap, exceptions := t.exceptions)
  {
  }

  lemma SoftAddedHeld(s: System, c: Platform, address: u64, relocated: nat, trampoline: nat)
    requires HeldOk(s) && s.softTrap.installed
    ensures HeldOk(SoftAdded(s, c, address, relocated, trampoline))
    ensures SoftAdded(s, c, address, relocated, trampoline).monitor == s.monitor
  {
    hide HandlersOk, Poke, NewEntry, Blocks;
    SameHolders(s, SoftAdded(s, c, address, relocated, trampoline));
  }

  lemma SoftDroppedHeld(s: System, id: nat)
    requires HeldOk(s) && id in s.soft.byId
    ensures HeldOk(SoftDropped(s, id)) && SoftDropped(s, id).monitor == s.monitor
  {
    hide HandlersOk, Poke, Blocks;
    SameHolders(s, SoftDropped(s, id));
  }

  lemma SoftClearedHeld(s: System, order: seq<nat>)
    requires HeldOk(s) && Enumerates(s.soft.byId, order)
    ensures HeldOk(SoftCleared(s, order)) && SoftCleared(s, order).monitor == s.monitor
  {
    hide HandlersOk, RestoreAll, PatchesIn, AllBlocks;
    SameHolders(s, SoftCleared(s, order));
  }

  lemma HardKeeps(s: System, c: Platform, op: Op, pages: map<nat, MS.Prot>)
    requires PlatformOk(c) && Possible(s, c, op) && Inv(s, pages)
    requires op.SetHardware? || op.RemoveHardware? || op.RemoveAllHardware?
    ensures Inv(Apply(s, c, op), pages)
  {
    hide HandlersOk, CodeOk, RefsOk, MS.Inv, HB.Agree, HardEnsured, HardMaybeRemoved, HardAdded, HardDropped,
      HardCleared, Blocks;
    AgreeNow(s);
    match op {
      case SetHardware(address, kind, size, slot, relocated, trampoline) =>
        if !HardRefused(s, address) {
          var h := HardEnsured(s);
          HardEnsuredKeeps(s);
          HardEnsuredOnly(s);
          SameCode(s, h);
          if !CodeMissing(kind, relocated, trampoline) {
            var e := HB.NewBreakpoint(address, kind, size, slot, relocated, trampoline);
            NewBreakpointFacts(s.jit, address, kind, size, slot, relocated, trampoline);
            HardAddedKeeps(h, e);
            HardAddedHeld(h, e);
          }
        }
      case RemoveHardware(id) =>
        if id in s.hard.byId {
          HardDroppedKeeps(s, id);
          var d := HardDropped(s, id);
          HardDroppedHeld(s, id);
          HardMaybeRemovedKeeps(d);
          HardMaybeRemovedOnly(d);
          SameCode(d, HardMaybeRemoved(d));
        }
      case RemoveAllHardware =>
        var d := HardCleared(s);
        HardClearedKeeps(s);
        HardClearedHeld(s);
        HardMaybeRemovedKeeps(d);
        HardMaybeRemovedOnly(d);
        SameCode(d, HardMaybeRemoved(d));
      case _ =>
    }
  }

  lemma NewBreakpointFacts(jit: set<nat>, address: u64, kind: WatchKind, size: int, slot: nat, relocated: Option<u64>,
      trampoline: Option<u64>)
    requires TwoFresh(jit, relocated, trampoline) && !CodeMissing(kind, relocated, trampoline)
    ensures var e := HB.NewBreakpoint(address, kind, size, slot, relocated, trampoline);
            && e.address == address && e.original == [] && e.written == [] && e.watch == Some(Watch(kind, size, slot))
            && Blocks(e) !! jit && DistinctBlocks(e)
  {
  }

  lemma HardEnsuredOnly(s: System)
    ensures var t := HardEnsured(s); t == s.(hardTrap := t.hardTrap, exceptions := t.exceptions)
  {
  }

  lemma HardMaybeRemovedOnly(s: System)
    ensures var t := HardMaybeRemoved(s); t == s.(hardTrap := t.hardTrap, exceptions := t.exceptions)
  {
  }

  lemma HardAddedHeld(s: System, e: Entry)
    requires HeldOk(s) && s.hardTrap.installed && HB.SlotsOk(s.slots) && e.watch.Some? && e.watch.value.slot < SLOTS
    ensures HeldOk(HardAdded(s, e)) && HardAdded(s, e).monitor == s.monitor
  {
    hide HandlersOk, HB.SetSlot, Blocks;
    SameHolders(s, HardAdded(s, e));
  }

  lemma HardDroppedHeld(s: System, id: nat)
    requires HeldOk(s) && id in s.hard.byId && HasSlot(s, id)
    ensures HeldOk(HardDropped(s, id)) && HardDropped(s, id).monitor == s.monitor
  {
    hide HandlersOk, HB.ClearSlot, Blocks;
    SameHolders(s, HardDropped(s, id));
  }

  lemma HardClearedHeld(s: System)
    requires HeldOk(s)
    ensures HeldOk(HardCleared(s)) && HardCleared(s).monitor == s.monitor
  {
    hide HandlersOk, AllBlocks, HB.ClearOwned, HB.OwnedSlots;
    SameHolders(s, HardCleared(s));
  }

  /** The access-monitor step of a call. */
  function MonitorOp(s: System, op: Op): MR.Op {
    match op
    case EnableMonitor(addresses, sizes) => MR.Enable(addresses, sizes, s.exceptions.nextId, s.exceptions.nextId + 1)
    case DisableMonitor(id) => MR.Disable(id)
    case DisableAllMonitors => MR.DisableAll
    case Fault(a, code, hit) => MR.Fault(a, code, hit)
    case _ => MR.Drain
  }

  predicate IsMonitorOp(op: Op) {
    op.EnableMonitor? || op.DisableMonitor? || op.DisableAllMonitors? || op.Drain? || op.Fault?
  }

  lemma MonitorStepIsRunStep(s: System, c: Platform, op: Op)
    requires PlatformOk(c) && Possible(s, c, op) && IsMonitorOp(op)
    ensures MR.Possible(s.monitor, MonitorOp(s, op))
    ensures Apply(s, c, op).monitor == MR.Apply(s.monitor, MonitorOp(s, op), c.pageSize)
    ensures var t := Apply(s, c, op); t == s.(monitor := t.monitor, exceptions := t.exceptions)
  {
    hide MS.Enabled, MS.Fired, MS.Disabled, MS.AllDisabled, MS.Drained, MS.NewRanges, MS.Hits, AM.EnabledHandlers,
      AM.DisabledHandlers, AM.AllDisabledHandlers;
  }

  lemma MonitorKeeps(s: System, c: Platform, op: Op, pages: map<nat, MS.Prot>)
    requires PlatformOk(c) && Possible(s, c, op) && Inv(s, pages) && IsMonitorOp(op)
    ensures Inv(Apply(s, c, op), pages)
  {
    hide HandlersOk, RefsOk, CodeOk, MS.Inv, MR.Apply, MonitorStep;
    var t := Apply(s, c, op);
    MonitorStepIsRunStep(s, c, op);
    MR.StepKeeps(s.monitor, MonitorOp(s, op), c.pageSize, pages);
    SameCode(s, t);
    match op {
      case EnableMonitor(_, _) => EnableMonitorKeeps(s, c, op, pages);
      case DisableMonitor(_) => DisableMonitorKeeps(s, c, op);
      case DisableAllMonitors => DisableAllMonitorsKeeps(s, c);
      case _ => EventsOnly(s, c, op);
    }
  }

  /** Faults and draining change no handler. */
  lemma EventsOnly(s: System, c: Platform, op: Op)
    requires PlatformOk(c) && Possible(s, c, op) && (op.Drain? || op.Fault?) && HeldOk(s)
    ensures HeldOk(Apply(s, c, op)) && Apply(s, c, op).exceptions == s.exceptions
  {
    hide HandlersOk, MS.Calls, MS.SetProtection;
    SameHolders(s, Apply(s, c, op));
  }

  lemma ExceptionsKeep(s: System, c: Platform, op: Op, pages: map<nat, MS.Prot>)
    requires PlatformOk(c) && Possible(s, c, op) && Inv(s, pages) && (op.EnableExceptions? || op.DisableExceptions?)
    ensures Inv(Apply(s, c, op), pages)
  {
    hide HandlersOk, CodeOk, MS.Inv;
    var t := Apply(s, c, op);
    SameCode(s, t);
    SameHolders(s, t);
  }

  lemma StepKeeps(s: System, c: Platform, op: Op, pages: map<nat, MS.Prot>)
    requires PlatformOk(c) && Possible(s, c, op) && Inv(s, pages)
    ensures Inv(Apply(s, c, op), pages)
  {
    hide Inv, Apply, Possible, PlatformOk;
    if op.Attach? || op.Replace? || op.Detach? || op.DetachAll? {
      HooksKeep(s, c, op, pages);
    } else if op.SetSoftware? || op.RemoveSoftware? || op.RemoveAllSoftware? {
      SoftKeeps(s, c, op, pages);
    } else if op.SetHardware? || op.RemoveHardware? || op.RemoveAllHardware? {
      HardKeeps(s, c, op, pages);
    } else if IsMonitorOp(op) {
      MonitorKeeps(s, c, op, pages);
    } else {
      ExceptionsKeep(s, c, op, pages);
    }
  }

  lemma StepsKeep(s: System, c: Platform, op: Op, t: System, pages: map<nat, MS.Prot>)
    requires StepsTo(s, c, op, t) && Inv(s, pages)
    ensures Inv(t, pages)
  {
    hide Inv, Apply, Possible, PlatformOk;
    StepKeeps(s, c, op, pages);
  }

  /** While the active monitors watch at most 256 ranges, every fault their handler can meet is a possible step. */
  lemma FewRangesFaultsPossible(s: System, c: Platform, op: Op, pages: map<nat, MS.Prot>)
    requires Inv(s, pages) && op.Fault? && |MR.RangeKeys(s.monitor.monitors)| <= EventRing.CAPACITY
    requires MR.CanHappen(s.monitor, MR.Fault(op.fault, op.code, op.hit))
    ensures Possible(s, c, op)
  {
    hide RefsOk, HandlersOk, CodeOk, MS.Inv;
    if op.hit.Some? {
      MR.RoomForEveryFault(s.monitor, pages, op.fault, op.hit.value.0, op.hit.value.1);
    }
  }
}
