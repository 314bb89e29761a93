/** Whole runs of the engine, and what its cleanup leaves behind. */
module SystemCleanup {
  import opened Results
  import opened Words
  import opened X86Machine
  import opened CodePatches
  import opened PatchRegistry
  import opened CodeMemory
  import opened DebugRegisters
  import opened SharedCode
  import opened HandlerOwners
  import opened TrapHandlers
  import opened SystemRuns
  import CodeRelocator
  import EH = ExceptionHandlers
  import MS = MonitorState
  import MR = MonitorRuns
  import AM = AccessMonitor
  import SB = SoftwareBreakpoint
  import HB = HardwareBreakpoint

  ghost predicate PossibleRun(s: System, c: Platform, ops: seq<Op>)
    requires PlatformOk(c)
    decreases |ops|
  {
    ops != [] ==> Possible(s, c, ops[0]) && PossibleRun(Apply(s, c, ops[0]), c, ops[1..])
  }

  ghost function Run(s: System, c: Platform, ops: seq<Op>): System
    requires PlatformOk(c) && PossibleRun(s, c, ops)
    decreases |ops|
  {
    if ops == [] then s else Run(Apply(s, c, ops[0]), c, ops[1..])
  }

  lemma InitInv(original: EH.Dispositions, mem: Memory, slots: HB.Slots, pages: map<nat, MS.Prot>)
    requires HB.Agree(map[], slots)
    ensures Inv(Init(original, mem, slots, pages), pages)
  {
    hide HB.Agree, Three, MS.Inv, Accounted, Owners;
    MR.InitInv(pages);
    NothingOwned(Init(original, mem, slots, pages));
    NothingIndexed(mem);
  }

  lemma NothingOwned(s: System)
    requires !s.softTrap.installed && !s.hardTrap.installed && s.monitor.monitors == map[] &&
               s.exceptions.handlers == []
    ensures HandlersOk(s)
  {
    assert Owners(s) == {};
  }

  lemma NothingIndexed(mem: Memory)
    ensures Three(EMPTY, EMPTY, EMPTY, mem, {}) && HB.NoBytes(EMPTY.byId)
  {
  }

  lemma {:induction false} RunKeeps(s: System, c: Platform, ops: seq<Op>, pages: map<nat, MS.Prot>)
    requires PlatformOk(c) && PossibleRun(s, c, ops) && Inv(s, pages)
    ensures Inv(Run(s, c, ops), pages)
    decreases |ops|
  {
    hide Inv, Apply, Possible, PlatformOk;
    if ops != [] {
      StepKeeps(s, c, ops[0], pages);
      RunKeeps(Apply(s, c, ops[0]), c, ops[1..], pages);
    }
  }

  // ---------- Dispositions ----------

  predicate DisabledInUse(s: System, op: Op) {
    op.DisableExceptions? && s.exceptions.enabled && s.exceptions.refCount > 0
  }

  /** No disable() while handlers are enabled and a subsystem still holds a reference. */
  ghost predicate NeverDisabledInUse(s: System, c: Platform, ops: seq<Op>)
    requires PlatformOk(c) && PossibleRun(s, c, ops)
    decreases |ops|
  {
    ops != [] ==> !DisabledInUse(s, ops[0]) && NeverDisabledInUse(Apply(s, c, ops[0]), c, ops[1..])
  }

  /** What the steps of the subsystems do to the exception state: take a reference, let some go, or neither. */
  ghost predicate Follows(e: EH.State, t: EH.State) {
    exists n: nat, k: nat :: FollowsBy(e, t, n, k)
  }

  ghost predicate FollowsBy(e: EH.State, t: EH.State, n: nat, k: nat) {
    var u := if n == 0 then e else EH.RefEnabled(e);
    n <= 1 && t.refCount == u.refCount - k >= 0 &&
      t == u.(handlers := t.handlers, nextId := t.nextId, refCount := t.refCount)
  }

  lemma FollowingKeeps(e: EH.State, t: EH.State, original: EH.Dispositions)
    requires Follows(e, t)
    ensures EH.Faithful(e, original) ==> EH.Faithful(t, original)
    ensures EH.Lost(e) ==> EH.Lost(t)
  {
  }

  /** Every step but enable() and disable() follows. */
  lemma StepFollows(s: System, c: Platform, op: Op, pages: map<nat, MS.Prot>)
    requires PlatformOk(c) && Possible(s, c, op) && Inv(s, pages) && !op.EnableExceptions? && !op.DisableExceptions?
    ensures Follows(s.exceptions, Apply(s, c, op).exceptions)
  {
    hide EH.Without, AM.WithoutAll, EH.RefEnabled, Poke, Possible, CodeOk, HandlersOk, MS.Inv, Added, Dropped, Cleared,
      NewEntry, CodeRelocator.AbsoluteJump, AllBlocks, Blocks, RestoreAll, PatchesIn, MS.NewRanges, HB.NewBreakpoint;
    var e := s.exceptions;
    var t := Apply(s, c, op).exceptions;
    RefEnabledKeeps(e);
    if op.EnableMonitor? || (op.SetSoftware? && t != e) || (op.SetHardware? && t != e) {
      assert FollowsBy(e, t, 1, 0);
    } else if op.DisableAllMonitors? {
      assert FollowsBy(e, t, 0, |s.monitor.monitors|);
    } else if t == e {
      assert FollowsBy(e, t, 0, 0);
    } else {
      assert FollowsBy(e, t, 0, 1);
    }
  }

  lemma StepDispositions(s: System, c: Platform, op: Op, pages: map<nat, MS.Prot>, original: EH.Dispositions)
    requires PlatformOk(c) && Possible(s, c, op) && Inv(s, pages)
    ensures var t := Apply(s, c, op);
            && (EH.Lost(s.exceptions) ==> EH.Lost(t.exceptions))
            && (EH.Faithful(s.exceptions, original) ==>
                  if DisabledInUse(s, op) then EH.Lost(t.exceptions) else EH.Faithful(t.exceptions, original))
  {
    hide Inv, Possible, PlatformOk;
    if !op.EnableExceptions? && !op.DisableExceptions? {
      StepFollows(s, c, op, pages);
      FollowingKeeps(s.exceptions, Apply(s, c, op).exceptions, original);
    }
  }

  lemma {:induction false} LostForever(
    s: System, c: Platform, ops: seq<Op>, pages: map<nat, MS.Prot>, original: EH.Dispositions)
    requires PlatformOk(c) && PossibleRun(s, c, ops) && Inv(s, pages) && EH.Lost(s.exceptions)
    ensures EH.Lost(Run(s, c, ops).exceptions)
    decreases |ops|
  {
    hide Inv, Apply, Possible, PlatformOk, EH.Lost;
    if ops != [] {
      StepKeeps(s, c, ops[0], pages);
      StepDispositions(s, c, ops[0], pages, original);
      LostForever(Apply(s, c, ops[0]), c, ops[1..], pages, original);
    }
  }

  lemma {:induction false} RunDispositions(
    s: System, c: Platform, ops: seq<Op>, pages: map<nat, MS.Prot>, original: EH.Dispositions)
    requires PlatformOk(c) && PossibleRun(s, c, ops) && Inv(s, pages) && EH.Faithful(s.exceptions, original)
    ensures if NeverDisabledInUse(s, c, ops) then EH.Faithful(Run(s, c, ops).exceptions, original)
            else EH.Lost(Run(s, c, ops).exceptions)
    decreases |ops|
  {
    hide Inv, Apply, Possible, PlatformOk, EH.Lost, EH.Faithful, DisabledInUse;
    if ops != [] {
      StepKeeps(s, c, ops[0], pages);
      StepDispositions(s, c, ops[0], pages, original);
      var t := Apply(s, c, ops[0]);
      if DisabledInUse(s, ops[0]) {
        LostForever(t, c, ops[1..], pages, original);
      } else {
        RunDispositions(t, c, ops[1..], pages, original);
      }
    }
  }

  /** In every reachable state the reference count is the number of installed trap handlers plus the number of
      active monitors; a subsystem with breakpoints has its handler installed and registered; and while a reference
      is held or handlers are enabled, the engine's handler is the current disposition of every signal. */
  lemma ReferencesConserved(
    original: EH.Dispositions, mem: Memory, slots: HB.Slots, pages: map<nat, MS.Prot>, c: Platform, ops: seq<Op>)
    requires PlatformOk(c) && HB.Agree(map[], slots) && PossibleRun(Init(original, mem, slots, pages), c, ops)
    ensures var s := Run(Init(original, mem, slots, pages), c, ops);
            && s.exceptions.refCount == Count(s.softTrap.installed) + Count(s.hardTrap.installed) + |s.monitor.monitors|
            && (s.soft.byId != map[] ==> HandlerOf(Software, s.softTrap.id) in s.exceptions.handlers)
            && (s.hard.byId != map[] ==> HandlerOf(Hardware, s.hardTrap.id) in s.exceptions.handlers)
            && (forall id :: id in s.monitor.monitors ==>
                  && HandlerOf(Segv(id), s.monitor.monitors[id].segvHandlerId) in s.exceptions.handlers
                  && HandlerOf(Bus(id), s.monitor.monitors[id].busHandlerId) in s.exceptions.handlers)
            && (s.exceptions.refCount > 0 || s.exceptions.enabled ==> s.exceptions.current == EH.ENGINE)
  {
    hide Inv, HB.Agree, Run, PossibleRun, NeverDisabledInUse, PlatformOk;
    var s0 := Init(original, mem, slots, pages);
    InitInv(original, mem, slots, pages);
    RunKeeps(s0, c, ops, pages);
    RunDispositions(s0, c, ops, pages, original);
    HandlersInPlace(Run(s0, c, ops), pages);
  }

  lemma HandlersInPlace(s: System, pages: map<nat, MS.Prot>)
    requires Inv(s, pages)
    ensures RefsOk(s)
    ensures s.soft.byId != map[] ==> HandlerOf(Software, s.softTrap.id) in s.exceptions.handlers
    ensures s.hard.byId != map[] ==> HandlerOf(Hardware, s.hardTrap.id) in s.exceptions.handlers
    ensures forall id :: id in s.monitor.monitors ==>
              && HandlerOf(Segv(id), s.monitor.monitors[id].segvHandlerId) in s.exceptions.handlers
              && HandlerOf(Bus(id), s.monitor.monitors[id].busHandlerId) in s.exceptions.handlers
  {
    BothEmpty(s);
    hide CodeOk, MS.Inv;
    var owned := Owners(s);
    if s.soft.byId != map[] {
      assert (Software, s.softTrap.id) in owned;
    }
    if s.hard.byId != map[] {
      assert (Hardware, s.hardTrap.id) in owned;
    }
    forall id | id in s.monitor.monitors
      ensures (Segv(id), s.monitor.monitors[id].segvHandlerId) in owned &&
                (Bus(id), s.monitor.monitors[id].busHandlerId) in owned
    {
    }
  }

  /** The two indexes of a registry are empty together. */
  lemma BothEmpty(s: System)
    requires CodeOk(s)
    ensures s.soft.byId != map[] ==> s.soft.byAddress != map[]
    ensures s.hard.byId != map[] ==> s.hard.byAddress != map[]
  {
    ThreeRegistries(s.hooks, s.soft, s.hard, s.mem, s.jit);
    if s.soft.byId != map[] {
      var id :| id in s.soft.byId;
      assert s.soft.byId[id].address in s.soft.byAddress;
    }
    if s.hard.byId != map[] {
      var id :| id in s.hard.byId;
      assert s.hard.byId[id].address in s.hard.byAddress;
    }
  }

  // ---------- The stray single-step handlers ----------

  /** No call ever takes out the single-step handler of a hardware installation: its id was not kept. */
  lemma StraysStay(s: System, c: Platform, op: Op, pages: map<nat, MS.Prot>, h: EH.Handler)
    requires PlatformOk(c) && Possible(s, c, op) && Inv(s, pages) && h in s.exceptions.handlers && Stray(h)
    ensures h in Apply(s, c, op).exceptions.handlers
  {
    hide HandlersOk, Possible, CodeOk, MS.Inv, Poke, Added, Dropped, Cleared, NewEntry, CodeRelocator.AbsoluteJump,
      AllBlocks, Blocks, RestoreAll, PatchesIn, MS.NewRanges, HB.NewBreakpoint, EH.Without, AM.WithoutAll;
    var t := Apply(s, c, op);
    if op.RemoveSoftware? && op.bp in s.soft.byId {
      SoftDroppedHeld(s, op.bp);
      SoftMaybeRemovedKeeps(SoftDropped(s, op.bp));
    } else if op.RemoveAllSoftware? {
      StraysStayCleared(s, c, op, pages, h);
    } else if op.RemoveHardware? && op.bp in s.hard.byId {
      RemovalPossible(s, c, op);
      HardDroppedHeld(s, op.bp);
      HardMaybeRemovedKeeps(HardDropped(s, op.bp));
    } else if op.RemoveAllHardware? {
      HardClearedHeld(s);
      HardMaybeRemovedKeeps(HardCleared(s));
    } else if op.DisableMonitor? {
      DisableMonitorKeeps(s, c, op);
    } else if op.DisableAllMonitors? {
      DisableAllMonitorsKeeps(s, c);
    }
  }

  lemma RemovalPossible(s: System, c: Platform, op: Op)
    requires PlatformOk(c) && Possible(s, c, op) && op.RemoveHardware? && op.bp in s.hard.byId
    ensures HasSlot(s, op.bp)
  {
  }

  lemma StraysStayCleared(s: System, c: Platform, op: Op, pages: map<nat, MS.Prot>, h: EH.Handler)
    requires PlatformOk(c) && Possible(s, c, op) && Inv(s, pages) && h in s.exceptions.handlers && Stray(h)
    requires op.RemoveAllSoftware?
    ensures h in Apply(s, c, op).exceptions.handlers
  {
    hide HandlersOk, CodeOk, MS.Inv, RestoreAll, PatchesIn, AllBlocks, EH.Without;
    SoftClearedHeld(s, op.softOrder);
    SoftMaybeRemovedKeeps(SoftCleared(s, op.softOrder));
  }

  lemma {:induction false} RunStraysStay(s: System, c: Platform, ops: seq<Op>, pages: map<nat, MS.Prot>, h: EH.Handler)
    requires PlatformOk(c) && PossibleRun(s, c, ops) && Inv(s, pages) && h in s.exceptions.handlers && Stray(h)
    ensures h in Run(s, c, ops).exceptions.handlers
    decreases |ops|
  {
    hide Inv, Apply, Possible, PlatformOk, Stray;
    if ops != [] {
      StepKeeps(s, c, ops[0], pages);
      StraysStay(s, c, ops[0], pages, h);
      RunStraysStay(Apply(s, c, ops[0]), c, ops[1..], pages, h);
    }
  }

  /** Each installation of the hardware trap adds one such handler. */
  lemma InstallationAddsStray(s: System)
    requires !s.hardTrap.installed
    ensures exists h :: h in HardEnsured(s).exceptions.handlers && Stray(h) && h.id == s.exceptions.nextId + 1
  {
    hide EH.RefEnabled;
    RefEnabledKeeps(s.exceptions);
    var handlers := HardEnsured(s).exceptions.handlers;
    assert handlers[|handlers| - 1] == EH.Handler(s.exceptions.nextId + 1, EH.SingleStep, EH.HardwareTrap);
  }

  // ---------- Code bytes ----------

  /** The patch a call is about to write, if it gets that far. */
  ghost function NewPatch(s: System, c: Platform, op: Op): Option<Patch>
    requires PlatformOk(c)
  {
    match op
    case Attach(target, Some(_), Some(trampoline)) =>
      if target in s.hooks.byAddress then None else Some(Over(s.mem, target, CodeRelocator.AbsoluteJump(trampoline)))
    case Replace(target, replacement, Some(_)) =>
      if target in s.hooks.byAddress then None else Some(Over(s.mem, target, CodeRelocator.AbsoluteJump(replacement)))
    case SetSoftware(address, Some(_), Some(_)) =>
      if address in s.soft.byAddress then None else Some(Over(s.mem, address, c.instruction))
    case _ => None
  }

  function Over(mem: Memory, address: u64, bytes: seq<byte>): Patch {
    Patch(address, ReadBytes(mem, address, |bytes|), bytes)
  }

  /** A new patch shares no byte with a live one. */
  ghost predicate NoOverlap(s: System, c: Platform, op: Op)
    requires PlatformOk(c)
  {
    var p := NewPatch(s, c, op);
    p.Some? ==> forall q :: q in Patches(s.hooks.byId) + Patches(s.soft.byId) ==> CodePatches.Apart(p.value, q)
  }

  ghost predicate NeverOverlaps(s: System, c: Platform, ops: seq<Op>)
    requires PlatformOk(c) && PossibleRun(s, c, ops)
    decreases |ops|
  {
    ops != [] ==> NoOverlap(s, c, ops[0]) && NeverOverlaps(Apply(s, c, ops[0]), c, ops[1..])
  }

  ghost predicate CodeKept(s: System, pristine: Memory) {
    Overlaid(s.hooks, s.soft, pristine, s.mem)
  }

  lemma HookOverlaid(s: System, pristine: Memory, target: u64, relocated: nat, trampoline: nat, patch: seq<byte>)
    requires CodeOk(s) && CodeKept(s, pristine) && patch != [] && IsMapped(s.mem, target, |patch|)
    requires forall q :: q in Patches(s.hooks.byId) + Patches(s.soft.byId) ==>
               CodePatches.Apart(Over(s.mem, target, patch), q)
    ensures CodeKept(HookStep(s, target, relocated, trampoline, patch), pristine)
  {
    hide Three, HB.NoBytes, HB.Agree, Overlaid, Poke, IsMapped, ReadBytes, NewEntry, Added, Bijective, Patches;
    NewEntryFacts(s.mem, target, trampoline, relocated, patch);
    ThreeRegistries(s.hooks, s.soft, s.hard, s.mem, s.jit);
    OverlaidAdd(s.hooks, s.soft, pristine, s.mem, NewEntry(s.mem, target, trampoline, relocated, patch));
  }

  lemma SoftOverlaid(s: System, c: Platform, pristine: Memory, address: u64, relocated: nat, trampoline: nat)
    requires CodeOk(s) && CodeKept(s, pristine) && c.instruction != [] && IsMapped(s.mem, address, |c.instruction|)
    requires forall q :: q in Patches(s.hooks.byId) + Patches(s.soft.byId) ==>
               CodePatches.Apart(Over(s.mem, address, c.instruction), q)
    ensures CodeKept(SoftAdded(s, c, address, relocated, trampoline), pristine)
  {
    hide Three, HB.NoBytes, HB.Agree, Overlaid, Poke, IsMapped, ReadBytes, NewEntry, Added, Bijective, Patches;
    var e := NewEntry(s.mem, address, trampoline, relocated, c.instruction);
    NewEntryFacts(s.mem, address, trampoline, relocated, c.instruction);
    ThreeRegistries(s.hooks, s.soft, s.hard, s.mem, s.jit);
    OverlaidSwap(s.hooks, s.soft, pristine, s.mem);
    assert Patches(s.soft.byId) + Patches(s.hooks.byId) == Patches(s.hooks.byId) + Patches(s.soft.byId);
    assert PatchOf(e) == Over(s.mem, address, c.instruction);
    OverlaidAdd(s.soft, s.hooks, pristine, s.mem, e);
    OverlaidSwap(Added(s.soft, e), s.hooks, pristine, Poke(s.mem, address, c.instruction));
  }

  lemma DropsOverlaid(s: System, c: Platform, op: Op, pristine: Memory)
    requires PlatformOk(c) && Possible(s, c, op) && CodeOk(s) && CodeKept(s, pristine)
    requires op.Detach? || op.DetachAll? || op.RemoveSoftware? || op.RemoveAllSoftware?
    ensures CodeKept(Apply(s, c, op), pristine)
  {
    hide Three, HB.NoBytes, HB.Agree, Overlaid, Poke, RestoreAll, PatchesIn, Bijective, Dropped, Cleared, EH.Without,
      AllBlocks, Blocks;
    ThreeRegistries(s.hooks, s.soft, s.hard, s.mem, s.jit);
    match op {
      case Detach(id) =>
        if id in s.hooks.byId {
          OverlaidDrop(s.hooks, s.soft, pristine, s.mem, id);
        }
      case DetachAll(order) => OverlaidClear(s.hooks, s.soft, pristine, s.mem, order);
      case RemoveSoftware(id) =>
        if id in s.soft.byId {
          var e := s.soft.byId[id];
          OverlaidSwap(s.hooks, s.soft, pristine, s.mem);
          OverlaidDrop(s.soft, s.hooks, pristine, s.mem, id);
          OverlaidSwap(Dropped(s.soft, id), s.hooks, pristine, Poke(s.mem, e.address, e.original));
        }
      case RemoveAllSoftware(order) =>
        OverlaidSwap(s.hooks, s.soft, pristine, s.mem);
        OverlaidClear(s.soft, s.hooks, pristine, s.mem, order);
        OverlaidSwap(Cleared(s.soft), s.hooks, pristine, RestoreAll(s.mem, PatchesIn(s.soft.byId, order)));
      case _ =>
    }
  }

  lemma StepConserves(s: System, c: Platform, op: Op, pristine: Memory)
    requires PlatformOk(c) && Possible(s, c, op) && CodeOk(s) && CodeKept(s, pristine) && NoOverlap(s, c, op)
    ensures CodeKept(Apply(s, c, op), pristine)
  {
    hide CodeOk, Overlaid, IsMapped, CodeRelocator.AbsoluteJump, HookStep, SoftAdded, Patches, SoftEnsured, HardEnsured,
      HardMaybeRemoved, SoftMaybeRemoved, SoftCleared, SoftDropped, DetachStep, DetachAllStep, Over;
    match op {
      case Attach(target, relocated, trampoline) =>
        if target !in s.hooks.byAddress && relocated.Some? && trampoline.Some? {
          HookOverlaid(s, pristine, target, relocated.value, trampoline.value,
            CodeRelocator.AbsoluteJump(trampoline.value));
        }
      case Replace(target, replacement, relocated) =>
        if target !in s.hooks.byAddress && relocated.Some? {
          HookOverlaid(s, pristine, target, relocated.value, 0, CodeRelocator.AbsoluteJump(replacement));
        }
      case SetSoftware(address, relocated, trampoline) =>
        if address !in s.soft.byAddress {
          var e := SoftEnsured(s);
          SoftEnsuredOnly(s);
          SameCode(s, e);
          if relocated.Some? && trampoline.Some? {
            SoftOverlaid(e, c, pristine, address, relocated.value, trampoline.value);
          }
        }
      case SetHardware(address, _, _, _, _, _) => HardEnsuredOnly(s);
      case RemoveHardware(id) =>
        if id in s.hard.byId {
          HardMaybeRemovedOnly(HardDropped(s, id));
        }
      case RemoveAllHardware => HardMaybeRemovedOnly(HardCleared(s));
      case Detach(_) => DropsOverlaid(s, c, op, pristine);
      case DetachAll(_) => DropsOverlaid(s, c, op, pristine);
      case RemoveSoftware(_) => DropsOverlaid(s, c, op, pristine);
      case RemoveAllSoftware(_) => DropsOverlaid(s, c, op, pristine);
      case _ =>
        if IsMonitorOp(op) {
          MonitorStepIsRunStep(s, c, op);
        }
    }
  }

  /** On every run whose patches never overlap, code memory is pristine memory under the live patches of hooks and
      software breakpoints. */
  lemma {:induction false} RunConserves(
    s: System, c: Platform, ops: seq<Op>, pages: map<nat, MS.Prot>, pristine: Memory)
    requires PlatformOk(c) && PossibleRun(s, c, ops) && Inv(s, pages) && CodeKept(s, pristine) &&
               NeverOverlaps(s, c, ops)
    ensures CodeKept(Run(s, c, ops), pristine)
    decreases |ops|
  {
    hide RefsOk, HandlersOk, CodeOk, MS.Inv, Apply, Possible, PlatformOk, CodeKept, NoOverlap;
    if ops != [] {
      StepKeeps(s, c, ops[0], pages);
      StepConserves(s, c, ops[0], pristine);
      RunConserves(Apply(s, c, ops[0]), c, ops[1..], pages, pristine);
    }
  }

  // ---------- Code bytes under overlapping patches ----------

  ghost function Live(s: System): set<Patch> {
    Patches(s.hooks.byId) + Patches(s.soft.byId)
  }

  /** The patches a call puts back, in order. */
  ghost function PutBack(s: System, c: Platform, op: Op): seq<Patch>
    requires PlatformOk(c) && Possible(s, c, op)
  {
    match op
    case Detach(id) => if id in s.hooks.byId then [PatchOf(s.hooks.byId[id])] else []
    case DetachAll(order) => PatchesIn(s.hooks.byId, order)
    case RemoveSoftware(id) => if id in s.soft.byId then [PatchOf(s.soft.byId[id])] else []
    case RemoveAllSoftware(order) => PatchesIn(s.soft.byId, order)
    case _ => []
  }

  ghost function AllPutBack(s: System, c: Platform, ops: seq<Op>): seq<Patch>
    requires PlatformOk(c) && PossibleRun(s, c, ops)
    decreases |ops|
  {
    if ops == [] then [] else PutBack(s, c, ops[0]) + AllPutBack(Apply(s, c, ops[0]), c, ops[1..])
  }

  ghost predicate CodeTraced(s: System, pristine: Memory, done: seq<Patch>) {
    Traced(pristine, s.mem, Live(s), done)
  }

  /** A call writes one new patch, or puts some live ones back. */
  ghost predicate WritesPatch(s: System, t: System, p: Patch) {
    IsMapped(s.mem, p.address, |p.written|) && t.mem == Poke(s.mem, p.address, p.written) && Live(t) == Live(s) + {p}
  }

  ghost predicate PutsBack(s: System, t: System, ps: seq<Patch>) {
    Removable(s.mem, ps) && t.mem == RestoreAll(s.mem, ps) && Live(s) - Elements(ps) <= Live(t)
  }

  lemma NothingPutBack(s: System, t: System)
    requires t.mem == s.mem && t.hooks == s.hooks && t.soft == s.soft
    ensures PutsBack(s, t, [])
  {
    assert Live(s) - Elements([]) == Live(t);
  }

  lemma EntryPatch(mem: Memory, address: u64, trampoline: nat, relocated: nat, written: seq<byte>)
    ensures PatchOf(NewEntry(mem, address, trampoline, relocated, written)) == Over(mem, address, written)
  {
  }

  lemma HookWrites(s: System, target: u64, relocated: nat, trampoline: nat, patch: seq<byte>)
    requires CodeOk(s) && IsMapped(s.mem, target, |patch|)
    ensures WritesPatch(s, HookStep(s, target, relocated, trampoline, patch), Over(s.mem, target, patch))
  {
    hide Three, HB.NoBytes, HB.Agree, Poke, IsMapped, ReadBytes, NewEntry, Added, Bijective, Patches;
    ThreeRegistries(s.hooks, s.soft, s.hard, s.mem, s.jit);
    EntryPatch(s.mem, target, trampoline, relocated, patch);
    AddedPatches(s.hooks, NewEntry(s.mem, target, trampoline, relocated, patch));
  }

  lemma SoftWrites(s: System, c: Platform, address: u64, relocated: nat, trampoline: nat)
    requires CodeOk(s) && IsMapped(s.mem, address, |c.instruction|)
    ensures WritesPatch(s, SoftAdded(s, c, address, relocated, trampoline), Over(s.mem, address, c.instruction))
  {
    hide Three, HB.NoBytes, HB.Agree, Poke, IsMapped, ReadBytes, NewEntry, Added, Bijective, Patches;
    ThreeRegistries(s.hooks, s.soft, s.hard, s.mem, s.jit);
    EntryPatch(s.mem, address, trampoline, relocated, c.instruction);
    AddedPatches(s.soft, NewEntry(s.mem, address, trampoline, relocated, c.instruction));
  }

  lemma OneRestored(mem: Memory, p: Patch)
    ensures RestoreAll(mem, [p]) == Poke(mem, p.address, p.original)
  {
    assert [p][1..] == [];
  }

  lemma OneElement(p: Patch)
    ensures Elements([p]) == {p}
  {
  }

  /** Taking one entry out of a registry. */
  lemma DropPutsBack(x: Index, mem: Memory, jit: set<nat>, id: nat)
    requires RegistryOk(x, mem, jit) && id in x.byId
    ensures var p := PatchOf(x.byId[id]);
            && Removable(mem, [p]) && RestoreAll(mem, [p]) == Poke(mem, p.address, p.original)
            && Patches(Dropped(x, id).byId) == Patches(x.byId) - Elements([p])
  {
    var p := PatchOf(x.byId[id]);
    assert |p.original| == |p.written| && IsMapped(mem, p.address, |p.written|);
    DroppedPatches(x, id);
    hide Poke, RestoreAll, Elements, RegistryOk, Dropped, Patches;
    OneRestored(mem, p);
    OneElement(p);
  }

  /** Taking all entries out. */
  lemma ClearPutsBack(x: Index, mem: Memory, jit: set<nat>, order: seq<nat>)
    requires RegistryOk(x, mem, jit) && Enumerates(x.byId, order)
    ensures Removable(mem, PatchesIn(x.byId, order)) && Elements(PatchesIn(x.byId, order)) == Patches(x.byId)
  {
    var ps := PatchesIn(x.byId, order);
    forall i | 0 <= i < |ps|
      ensures |ps[i].original| == |ps[i].written| && IsMapped(mem, ps[i].address, |ps[i].written|)
    {
      assert order[i] in order;
    }
    ListedAll(x.byId, order);
  }

  lemma RemovalsPutBack(s: System, c: Platform, op: Op)
    requires PlatformOk(c) && Possible(s, c, op) && CodeOk(s)
    requires op.Detach? || op.DetachAll? || op.RemoveSoftware? || op.RemoveAllSoftware?
    ensures PutsBack(s, Apply(s, c, op), PutBack(s, c, op))
  {
    ThreeRegistries(s.hooks, s.soft, s.hard, s.mem, s.jit);
    hide Three, RegistryOk, HB.NoBytes, HB.Agree, Poke, RestoreAll, PatchesIn, Patches, Elements, Removable, Bijective,
      Dropped, EH.Without, AllBlocks, Blocks;
    match op {
      case Detach(id) =>
        if id in s.hooks.byId {
          DropPutsBack(s.hooks, s.mem, s.jit, id);
        } else {
          NothingPutBack(s, s);
        }
      case DetachAll(order) => ClearPutsBack(s.hooks, s.mem, s.jit, order);
      case RemoveSoftware(id) =>
        if id in s.soft.byId {
          DropPutsBack(s.soft, s.mem, s.jit, id);
        } else {
          NothingPutBack(s, s);
        }
      case RemoveAllSoftware(order) => ClearPutsBack(s.soft, s.mem, s.jit, order);
      case _ =>
    }
  }

  /** What every call does to code bytes. */
  lemma CodeEffect(s: System, c: Platform, op: Op)
    requires PlatformOk(c) && Possible(s, c, op) && CodeOk(s)
    ensures if NewPatch(s, c, op).Some?
            then WritesPatch(s, Apply(s, c, op), NewPatch(s, c, op).value) && PutBack(s, c, op) == []
            else PutsBack(s, Apply(s, c, op), PutBack(s, c, op))
  {
    hide CodeOk, IsMapped, CodeRelocator.AbsoluteJump, HookStep, SoftAdded, SoftEnsured, HardEnsured, HardMaybeRemoved,
      SoftMaybeRemoved, SoftCleared, SoftDropped, DetachStep, DetachAllStep, Over, WritesPatch, PutsBack;
    match op {
      case Attach(target, relocated, trampoline) =>
        if NewPatch(s, c, op).Some? {
          HookWrites(s, target, relocated.value, trampoline.value, CodeRelocator.AbsoluteJump(trampoline.value));
        } else {
          NothingPutBack(s, s);
        }
      case Replace(target, replacement, relocated) =>
        if NewPatch(s, c, op).Some? {
          HookWrites(s, target, relocated.value, 0, CodeRelocator.AbsoluteJump(replacement));
        } else {
          NothingPutBack(s, s);
        }
      case SetSoftware(address, relocated, trampoline) => SettingWrites(s, c, op);
      case Detach(_) => RemovalsPutBack(s, c, op);
      case DetachAll(_) => RemovalsPutBack(s, c, op);
      case RemoveSoftware(_) => RemovalsPutBack(s, c, op);
      case RemoveAllSoftware(_) => RemovalsPutBack(s, c, op);
      case _ =>
        OthersWriteNoCode(s, c, op);
        NothingPutBack(s, Apply(s, c, op));
    }
  }

  lemma SettingWrites(s: System, c: Platform, op: Op)
    requires PlatformOk(c) && Possible(s, c, op) && CodeOk(s) && op.SetSoftware?
    ensures if NewPatch(s, c, op).Some? then WritesPatch(s, Apply(s, c, op), NewPatch(s, c, op).value)
            else PutsBack(s, Apply(s, c, op), [])
  {
    hide CodeOk, IsMapped, SoftAdded, SoftEnsured, Over, PutsBack, Poke;
    var e := SoftEnsured(s);
    SoftEnsuredOnly(s);
    SameCode(s, e);
    if NewPatch(s, c, op).Some? {
      SoftWrites(e, c, op.address, op.relocated.value, op.trampoline.value);
    } else {
      NothingPutBack(s, s);
      NothingPutBack(s, e);
    }
  }

  lemma OthersWriteNoCode(s: System, c: Platform, op: Op)
    requires PlatformOk(c) && Possible(s, c, op)
    requires !op.Attach? && !op.Replace? && !op.SetSoftware?
    requires !op.Detach? && !op.DetachAll? && !op.RemoveSoftware? && !op.RemoveAllSoftware?
    ensures var t := Apply(s, c, op); t.mem == s.mem && t.hooks == s.hooks && t.soft == s.soft
  {
    hide HardEnsured, HardMaybeRemoved, MonitorStep, Blocks, AllBlocks, HB.SetSlot, HB.ClearSlot, HB.ClearOwned,
      HB.OwnedSlots;
    match op {
      case SetHardware(_, _, _, _, _, _) => HardEnsuredOnly(s);
      case RemoveHardware(id) =>
        if id in s.hard.byId {
          HardMaybeRemovedOnly(HardDropped(s, id));
        }
      case RemoveAllHardware => HardMaybeRemovedOnly(HardCleared(s));
      case _ =>
        if IsMonitorOp(op) {
          MonitorStepIsRunStep(s, c, op);
        }
    }
  }

  lemma StepTraced(s: System, c: Platform, op: Op, pristine: Memory, done: seq<Patch>)
    requires PlatformOk(c) && Possible(s, c, op) && CodeOk(s) && CodeTraced(s, pristine, done)
    ensures CodeTraced(Apply(s, c, op), pristine, done + PutBack(s, c, op))
  {
    hide CodeOk, Apply, Possible, Live, NewPatch, PutBack, Traced, Poke, RestoreAll, Elements, Removable;
    var t := Apply(s, c, op);
    var ps := PutBack(s, c, op);
    CodeEffect(s, c, op);
    var p := NewPatch(s, c, op);
    if p.Some? {
      TracedInstall(pristine, s.mem, Live(s), done, p.value);
      assert done + ps == done;
    } else {
      TracedPutBack(pristine, s.mem, Live(s), done, ps);
      TracedMore(pristine, t.mem, Live(s) - Elements(ps), Live(t), done + ps);
    }
  }

  /** Overlapping or not: on every run a byte under no live patch holds what the patches put back so far have left. */
  lemma {:induction false} RunTraced(
    s: System, c: Platform, ops: seq<Op>, pages: map<nat, MS.Prot>, pristine: Memory, done: seq<Patch>)
    requires PlatformOk(c) && PossibleRun(s, c, ops) && Inv(s, pages) && CodeTraced(s, pristine, done)
    ensures CodeTraced(Run(s, c, ops), pristine, done + AllPutBack(s, c, ops))
    decreases |ops|
  {
    hide RefsOk, HandlersOk, CodeOk, MS.Inv, Apply, Possible, PlatformOk, CodeTraced, PutBack;
    if ops == [] {
      assert done + AllPutBack(s, c, ops) == done;
    } else {
      StepKeeps(s, c, ops[0], pages);
      StepTraced(s, c, ops[0], pristine, done);
      var here, later := PutBack(s, c, ops[0]), AllPutBack(Apply(s, c, ops[0]), c, ops[1..]);
      RunTraced(Apply(s, c, ops[0]), c, ops[1..], pages, pristine, done + here);
      assert done + here + later == done + (here + later);
    }
  }

  lemma FreshTraced(original: EH.Dispositions, mem: Memory, slots: HB.Slots, pages: map<nat, MS.Prot>)
    ensures CodeTraced(Init(original, mem, slots, pages), mem, [])
  {
    NoPatches();
    TracedFresh(mem);
    assert Live(Init(original, mem, slots, pages)) == {};
  }

  // ---------- Cleanup ----------

  /** The orders in which cleanup may walk the maps of the patches. */
  datatype Walk = Walk(softOrder: seq<nat>, hookOrder: seq<nat>)

  ghost predicate Walks(s: System, w: Walk) {
    Enumerates(s.soft.byId, w.softOrder) && Enumerates(s.hooks.byId, w.hookOrder)
  }

  function CleanupCalls(w: Walk): seq<Op> {
    [DisableAllMonitors, RemoveAllHardware, RemoveAllSoftware(w.softOrder), DetachAll(w.hookOrder), DisableExceptions]
  }

  ghost function CleanedUp(s: System, c: Platform, w: Walk): System
    requires PlatformOk(c) && Walks(s, w)
  {
    var s1 := MonitorStep(s, c, DisableAllMonitors);
    var s2 := HardMaybeRemoved(HardCleared(s1));
    var s3 := SoftMaybeRemoved(SoftCleared(s2, w.softOrder));
    var s4 := DetachAllStep(s3, w.hookOrder);
    s4.(exceptions := EH.Disabled(s4.exceptions))
  }

  ghost predicate CleansUpTo(s: System, c: Platform, w: Walk, t: System) {
    PlatformOk(c) && Walks(s, w) && t == CleanedUp(s, c, w)
  }

  /** Cleanup is a run of the calls above. */
  lemma CleanupIsRun(s: System, c: Platform, w: Walk, pages: map<nat, MS.Prot>)
    requires PlatformOk(c) && Walks(s, w) && Inv(s, pages)
    ensures PossibleRun(s, c, CleanupCalls(w)) && Run(s, c, CleanupCalls(w)) == CleanedUp(s, c, w)
    ensures Inv(CleanedUp(s, c, w), pages)
  {
    hide Inv, HB.Agree, Enumerates, SoftCleared, HardCleared, SoftMaybeRemoved, HardMaybeRemoved, DetachAllStep,
      MonitorStep;
    var ops := CleanupCalls(w);
    var s1 := Apply(s, c, ops[0]);
    CleanupTouches(s, c, w);
    var s2 := Apply(s1, c, ops[1]);
    var s3 := Apply(s2, c, ops[2]);
    var s4 := Apply(s3, c, ops[3]);
    var s5 := Apply(s4, c, ops[4]);
    assert ops[1..][1..] == ops[2..] && ops[2..][1..] == ops[3..] && ops[3..][1..] == ops[4..] && ops[4..][1..] == [];
    assert PossibleRun(s5, c, []) && Run(s5, c, []) == s5;
    assert PossibleRun(s4, c, ops[4..]) && Run(s4, c, ops[4..]) == s5;
    assert PossibleRun(s3, c, ops[3..]) && Run(s3, c, ops[3..]) == s5;
    assert PossibleRun(s2, c, ops[2..]) && Run(s2, c, ops[2..]) == s5;
    assert PossibleRun(s1, c, ops[1..]) && Run(s1, c, ops[1..]) == s5;
    RunKeeps(s, c, ops, pages);
  }

  /** Each part of cleanup leaves the indexes of the others as they were. */
  lemma CleanupTouches(s: System, c: Platform, w: Walk)
    requires PlatformOk(c) && Walks(s, w)
    ensures var s1 := MonitorStep(s, c, DisableAllMonitors);
            var s2 := HardMaybeRemoved(HardCleared(s1));
            && s1.soft == s.soft && s1.hooks == s.hooks && s1.hard == s.hard && s1.slots == s.slots
            && s2.soft == s.soft && s2.hooks == s.hooks
            && SoftMaybeRemoved(SoftCleared(s2, w.softOrder)).hooks == s.hooks
  {
    hide HB.Agree, Enumerates, AllBlocks, RestoreAll, PatchesIn, AM.AllDisabledHandlers, MS.AllDisabled, EH.Without;
  }

  /** Nothing of the engine is left but the stray single-step handlers. */
  ghost predicate Clean(t: System) {
    && t.hooks.byId == map[] && t.hooks.byAddress == map[]
    && t.soft.byId == map[] && t.soft.byAddress == map[] && !t.softTrap.installed
    && t.hard.byId == map[] && t.hard.byAddress == map[] && !t.hardTrap.installed
    && t.monitor.monitors == map[] && t.monitor.pending == []
    && t.jit == {} && t.exceptions.refCount == 0 && !t.exceptions.enabled
    && (forall h :: h in t.exceptions.handlers ==> Stray(h))
    && HB.SlotsOk(t.slots)
    && (forall k :: 0 <= k < SLOTS ==> !HB.View(t.slots, k).enabled && !HB.View(t.slots, k).used)
  }

  /** The indexes are empty and the traps uninstalled, read off the calls. */
  lemma CleanedParts(s: System, c: Platform, w: Walk)
    requires PlatformOk(c) && Walks(s, w)
    ensures var t := CleanedUp(s, c, w);
            && t.hooks == Cleared(s.hooks) && t.soft == Cleared(s.soft) && t.hard == Cleared(s.hard)
            && !t.softTrap.installed && !t.hardTrap.installed && t.monitor == MS.AllDisabled(s.monitor)
            && !t.exceptions.enabled
  {
    hide HB.Agree, Enumerates, AllBlocks, RestoreAll, PatchesIn, AM.AllDisabledHandlers, MS.AllDisabled, EH.Without;
  }

  lemma DisabledSlots(slots: HB.Slots)
    requires HB.Agree(map[], slots)
    ensures HB.SlotsOk(slots) && forall k :: 0 <= k < SLOTS ==> !HB.View(slots, k).enabled && !HB.View(slots, k).used
  {
    hide HB.View;
  }

  lemma EmptyOwnsNothing(t: System)
    requires CodeOk(t) && t.hooks.byId == map[] && t.soft.byId == map[] && t.hard.byId == map[]
    ensures t.jit == {} && HB.Agree(map[], t.slots)
  {
    NoBlocks();
    hide RegistryOk, HB.Agree, HB.NoBytes, AllBlocks;
  }

  lemma NoOwnersLeft(t: System)
    requires HandlersOk(t) && !t.softTrap.installed && !t.hardTrap.installed && t.monitor.monitors == map[]
    ensures forall h :: h in t.exceptions.handlers ==> Stray(h)
  {
    hide Accounted;
    NoMonitors();
    assert Owners(t) == {};
    OnlyStraysLeft(t.exceptions.handlers, t.exceptions.nextId);
  }

  /** From every state of every run, cleanup ends clean. */
  lemma CleanupEndsClean(s: System, c: Platform, w: Walk, pages: map<nat, MS.Prot>)
    requires PlatformOk(c) && Walks(s, w) && Inv(s, pages)
    ensures Clean(CleanedUp(s, c, w))
  {
    hide CodeOk, HandlersOk, CleanedUp, MS.AllDisabled, HB.Agree, HB.View, Stray, MS.EventsOk, MS.PagesOk;
    var t := CleanedUp(s, c, w);
    CleanupIsRun(s, c, w, pages);
    CleanedParts(s, c, w);
    MR.RestoredIff(s.monitor, pages);
    EmptyOwnsNothing(t);
    DisabledSlots(t.slots);
    NoOwnersLeft(t);
  }

  /** The handlers cleanup leaves are exactly the stray ones it found. */
  lemma CleanupLeavesStrays(s: System, c: Platform, w: Walk, pages: map<nat, MS.Prot>)
    requires PlatformOk(c) && Walks(s, w) && Inv(s, pages)
    ensures forall h :: h in CleanedUp(s, c, w).exceptions.handlers <==> h in s.exceptions.handlers && Stray(h)
  {
    hide Inv, Walks, PossibleRun, Run, CleanedUp, PlatformOk, Stray;
    var t := CleanedUp(s, c, w);
    CleanupIsRun(s, c, w, pages);
    CleanupEndsClean(s, c, w, pages);
    CleanupAddsNoHandler(s, c, w);
    forall h | h in s.exceptions.handlers && Stray(h)
      ensures h in t.exceptions.handlers
    {
      RunStraysStay(s, c, CleanupCalls(w), pages, h);
    }
  }

  lemma CleanupAddsNoHandler(s: System, c: Platform, w: Walk)
    requires PlatformOk(c) && Walks(s, w)
    ensures forall h :: h in CleanedUp(s, c, w).exceptions.handlers ==> h in s.exceptions.handlers
  {
    hide HB.Agree, Enumerates, AllBlocks, RestoreAll, PatchesIn, AM.WithoutAll, MS.AllDisabled, EH.Without,
      AM.HandlerIds;
    var s1 := MonitorStep(s, c, DisableAllMonitors);
    WithoutAllExact(s.exceptions.handlers, AM.HandlerIds(s.monitor.monitors));
    EH.WithoutExact(s1.exceptions.handlers, s1.hardTrap.id);
    var s2 := HardMaybeRemoved(HardCleared(s1));
    EH.WithoutExact(s2.exceptions.handlers, s2.softTrap.id);
  }

  /** Cleanup removes every patch: with none overlapping, code memory is pristine again. */
  lemma CleanupRestoresCode(s: System, c: Platform, w: Walk, pages: map<nat, MS.Prot>, pristine: Memory)
    requires PlatformOk(c) && Walks(s, w) && Inv(s, pages) && CodeKept(s, pristine)
    ensures CleanedUp(s, c, w).mem == pristine
  {
    var t := CleanedUp(s, c, w);
    CleanupIsRun(s, c, w, pages);
    CleanupNeverOverlaps(s, c, w, pages);
    RunConserves(s, c, CleanupCalls(w), pages, pristine);
    CleanedParts(s, c, w);
    PristineAgain(t, pristine);
  }

  lemma PristineAgain(t: System, pristine: Memory)
    requires CodeKept(t, pristine) && t.hooks.byId == map[] && t.soft.byId == map[]
    ensures t.mem == pristine
  {
    hide Conserved;
    NoPatches();
    assert Patches(t.hooks.byId) + Patches(t.soft.byId) == {};
    NothingLeft(pristine, t.mem);
  }

  /** What cleanup puts back: the breakpoints' bytes, and then the hooks'. */
  function CleanupPutsBack(s: System, w: Walk): seq<Patch>
    requires Enumerates(s.soft.byId, w.softOrder) && Enumerates(s.hooks.byId, w.hookOrder)
  {
    PatchesIn(s.soft.byId, w.softOrder) + PatchesIn(s.hooks.byId, w.hookOrder)
  }

  lemma CleanupMemory(s: System, c: Platform, w: Walk)
    requires PlatformOk(c) && Walks(s, w)
    ensures CleanedUp(s, c, w).mem == RestoreAll(s.mem, CleanupPutsBack(s, w))
  {
    CleanupTouches(s, c, w);
    RestoreAppend(s.mem, PatchesIn(s.soft.byId, w.softOrder), PatchesIn(s.hooks.byId, w.hookOrder));
    hide Enumerates, AllBlocks, RestoreAll, PatchesIn, AM.AllDisabledHandlers, MS.AllDisabled, EH.Without,
      HB.ClearOwned, HB.OwnedSlots;
  }

  /** Cleanup puts every live patch back. */
  lemma CleanupTraced(s: System, c: Platform, w: Walk, pristine: Memory, done: seq<Patch>)
    requires PlatformOk(c) && Walks(s, w) && CodeOk(s) && CodeTraced(s, pristine, done)
    ensures Traced(pristine, CleanedUp(s, c, w).mem, {}, done + CleanupPutsBack(s, w))
  {
    ThreeRegistries(s.hooks, s.soft, s.hard, s.mem, s.jit);
    ClearPutsBack(s.soft, s.mem, s.jit, w.softOrder);
    ClearPutsBack(s.hooks, s.mem, s.jit, w.hookOrder);
    CleanupMemory(s, c, w);
    var ps := CleanupPutsBack(s, w);
    BothListed(PatchesIn(s.soft.byId, w.softOrder), PatchesIn(s.hooks.byId, w.hookOrder), s.mem);
    hide Traced, RestoreAll, PatchesIn, Patches, Elements, Removable, CleanedUp, CodeOk, RegistryOk, Enumerates;
    TracedPutBack(pristine, s.mem, Live(s), done, ps);
    assert Live(s) - Elements(ps) == {};
  }

  lemma BothListed(ps: seq<Patch>, qs: seq<Patch>, mem: Memory)
    requires Removable(mem, ps) && Removable(mem, qs)
    ensures Removable(mem, ps + qs) && Elements(ps + qs) == Elements(ps) + Elements(qs)
  {
  }

  ghost predicate WritesNothing(op: Op) {
    !op.Attach? && !op.Replace? && !op.SetSoftware?
  }

  lemma {:induction false} WritingNothingNeverOverlaps(s: System, c: Platform, ops: seq<Op>)
    requires PlatformOk(c) && PossibleRun(s, c, ops) && forall i :: 0 <= i < |ops| ==> WritesNothing(ops[i])
    ensures NeverOverlaps(s, c, ops)
    decreases |ops|
  {
    hide Apply, Possible, PlatformOk;
    if ops != [] {
      WritingNothingNeverOverlaps(Apply(s, c, ops[0]), c, ops[1..]);
    }
  }

  lemma CleanupNeverOverlaps(s: System, c: Platform, w: Walk, pages: map<nat, MS.Prot>)
    requires PlatformOk(c) && Walks(s, w) && Inv(s, pages)
    ensures PossibleRun(s, c, CleanupCalls(w)) && NeverOverlaps(s, c, CleanupCalls(w))
  {
    hide Inv, Walks, PossibleRun, NeverOverlaps;
    CleanupIsRun(s, c, w, pages);
    WritingNothingNeverOverlaps(s, c, CleanupCalls(w));
  }

  /** The dispositions after cleanup: the originals, unless they were lost before. */
  lemma CleanupDispositions(s: System, c: Platform, w: Walk, pages: map<nat, MS.Prot>, original: EH.Dispositions)
    requires PlatformOk(c) && Walks(s, w) && Inv(s, pages)
    ensures EH.Faithful(s.exceptions, original) ==> CleanedUp(s, c, w).exceptions.current == original
    ensures EH.Lost(s.exceptions) ==> CleanedUp(s, c, w).exceptions.current == EH.ENGINE
  {
    hide Inv, Walks, HB.Agree, CleanedUp, PossibleRun, Apply, Possible, PlatformOk, NeverDisabledInUse;
    CleanupIsRun(s, c, w, pages);
    CleanupEndsClean(s, c, w, pages);
    var ops := CleanupCalls(w);
    if EH.Faithful(s.exceptions, original) {
      CleanupDisablesUnused(s, c, w, pages);
      RunDispositions(s, c, ops, pages, original);
    }
    if EH.Lost(s.exceptions) {
      LostForever(s, c, ops, pages, original);
    }
  }

  /** When cleanup disables the handlers, every subsystem has let go. */
  lemma CleanupDisablesUnused(s: System, c: Platform, w: Walk, pages: map<nat, MS.Prot>)
    requires PlatformOk(c) && Walks(s, w) && Inv(s, pages)
    ensures PossibleRun(s, c, CleanupCalls(w)) && NeverDisabledInUse(s, c, CleanupCalls(w))
  {
    hide Inv, Walks, PossibleRun, Run, NeverDisabledInUse, CleanedUp, PlatformOk;
    CleanupIsRun(s, c, w, pages);
    CleanupEndsClean(s, c, w, pages);
    UnusedAtTheEnd(s, c, CleanupCalls(w));
  }

  /** A run that disables only in its last call, and ends with no reference held, disables nothing in use. */
  lemma {:induction false} UnusedAtTheEnd(s: System, c: Platform, ops: seq<Op>)
    requires PlatformOk(c) && PossibleRun(s, c, ops) && ops != [] && Run(s, c, ops).exceptions.refCount == 0
    requires forall i :: 0 <= i < |ops| - 1 ==> !ops[i].DisableExceptions?
    requires ops[|ops| - 1].DisableExceptions?
    ensures NeverDisabledInUse(s, c, ops)
    decreases |ops|
  {
    hide Apply, Possible, PlatformOk;
    var t := Apply(s, c, ops[0]);
    if |ops| == 1 {
      DisablingKeepsCount(s, c);
      assert Run(t, c, ops[1..]) == t;
    } else {
      UnusedAtTheEnd(t, c, ops[1..]);
    }
  }

  lemma DisablingKeepsCount(s: System, c: Platform)
    requires PlatformOk(c)
    ensures Possible(s, c, DisableExceptions) &&
              Apply(s, c, DisableExceptions).exceptions.refCount == s.exceptions.refCount
  {
  }

  /** Cleanup after any run from a fresh start.  All registries and slots are empty, no JIT block is left, the
      reference count is zero, no handler is left but the stray single-step ones, and
      - the signal dispositions are the original ones exactly when no disable() was called while handlers were
        enabled and a subsystem held a reference;
      - page protections are the original ones exactly when every page ever watched was read-write at first;
      - code bytes are the original ones exactly when, on every byte ever patched, the patch put back last had saved
        the original value; so always if no patch was written over another. */
  lemma CleanupRestores(
    original: EH.Dispositions, mem: Memory, slots: HB.Slots, pages: map<nat, MS.Prot>, c: Platform, ops: seq<Op>,
    w: Walk)
    requires PlatformOk(c) && HB.Agree(map[], slots) && original != EH.ENGINE
    requires PossibleRun(Init(original, mem, slots, pages), c, ops)
    requires Walks(Run(Init(original, mem, slots, pages), c, ops), w)
    ensures var s0 := Init(original, mem, slots, pages);
            var s := Run(s0, c, ops);
            var t := CleanedUp(s, c, w);
            && Clean(t)
            && (forall h :: h in t.exceptions.handlers <==> h in s.exceptions.handlers && Stray(h))
            && (t.exceptions.current == original <==> NeverDisabledInUse(s0, c, ops))
            && (t.monitor.pages == pages <==>
                  forall p :: p in s.monitor.touched ==> p in pages && pages[p] == MS.READ_WRITE)
            && Whole(AllPutBack(s0, c, ops) + CleanupPutsBack(s, w))
            && (t.mem == mem <==> LastSavedPristine(mem, AllPutBack(s0, c, ops) + CleanupPutsBack(s, w)))
            && (NeverOverlaps(s0, c, ops) ==> t.mem == mem)
  {
    hide Inv, HB.Agree, CleanedUp, PossibleRun, Run, PlatformOk, NeverDisabledInUse, NeverOverlaps, Clean, CodeKept,
      CodeTraced, MS.AllDisabled, Traced, LastSavedPristine, Whole, AllPutBack, CleanupPutsBack, Enumerates;
    var s0 := Init(original, mem, slots, pages);
    var s := Run(s0, c, ops);
    InitInv(original, mem, slots, pages);
    RunKeeps(s0, c, ops, pages);
    CleanupEndsClean(s, c, w, pages);
    CleanupLeavesStrays(s, c, w, pages);
    RunDispositions(s0, c, ops, pages, original);
    CleanupDispositions(s, c, w, pages, original);
    MonitorInv(s, pages);
    MR.RestoredIff(s.monitor, pages);
    CleanedParts(s, c, w);
    CodeInv(s, pages);
    FreshTraced(original, mem, slots, pages);
    RunTraced(s0, c, ops, pages, mem, []);
    var done := AllPutBack(s0, c, ops);
    assert [] + done == done;
    CleanupTraced(s, c, w, mem, done);
    TracedEnd(mem, CleanedUp(s, c, w).mem, done + CleanupPutsBack(s, w));
    if NeverOverlaps(s0, c, ops) {
      FreshCodeKept(original, mem, slots, pages);
      RunConserves(s0, c, ops, pages, mem);
      CleanupRestoresCode(s, c, w, pages, mem);
    }
  }

  lemma CodeInv(s: System, pages: map<nat, MS.Prot>)
    requires Inv(s, pages)
    ensures CodeOk(s)
  {
    hide RefsOk, HandlersOk, CodeOk, MS.Inv;
  }

  lemma MonitorInv(s: System, pages: map<nat, MS.Prot>)
    requires Inv(s, pages)
    ensures MS.Inv(s.monitor, pages)
  {
    hide RefsOk, HandlersOk, CodeOk, MS.Inv;
  }

  lemma FreshCodeKept(original: EH.Dispositions, mem: Memory, slots: HB.Slots, pages: map<nat, MS.Prot>)
    ensures CodeKept(Init(original, mem, slots, pages), mem)
  {
    NoPatches();
    assert Patches(EMPTY.byId) + Patches(EMPTY.byId) == {};
  }

  // ---------- A run whose code bytes are not restored ----------

  lemma OneEntryOrder(byId: map<nat, Entry>, id: nat, order: seq<nat>)
    requires Enumerates(byId, order) && byId.Keys == {id}
    ensures order == [id]
  {
    assert id in byId && id in order;
    forall k | 0 <= k < |order|
      ensures order[k] == id
    {
      assert order[k] in order;
    }
    assert order[0] == order[|order| - 1];
  }

  /** The state with a breakpoint set at `a` and then a hook attached there. */
  ghost function HookOverTrap(s: System, c: Platform, a: u64, bs: seq<u64>): System
    requires |bs| == 4
  {
    HookStep(SoftAdded(SoftEnsured(s), c, a, bs[0], bs[1]), a, bs[2], bs[3], CodeRelocator.AbsoluteJump(bs[3]))
  }

  /** The calls that lead there. */
  function HookOverTrapCalls(a: u64, bs: seq<u64>): seq<Op>
    requires |bs| == 4
  {
    [Op.SetSoftware(a, Some(bs[0]), Some(bs[1])), Op.Attach(a, Some(bs[2]), Some(bs[3]))]
  }

  ghost predicate FourBlocks(bs: seq<u64>) {
    |bs| == 4 && (forall i :: 0 <= i < 4 ==> bs[i] != 0) && forall i, j :: 0 <= i < j < 4 ==> bs[i] != bs[j]
  }

  lemma HookOverTrapIsRun(
    original: EH.Dispositions, mem: Memory, slots: HB.Slots, pages: map<nat, MS.Prot>, c: Platform, a: u64,
    bs: seq<u64>)
    requires PlatformOk(c) && c.instruction == SB.INT3 && FourBlocks(bs) && IsMapped(mem, a, CodeRelocator.PATCH_SIZE)
    ensures var s := Init(original, mem, slots, pages);
            && PossibleRun(s, c, HookOverTrapCalls(a, bs))
            && Run(s, c, HookOverTrapCalls(a, bs)) == HookOverTrap(s, c, a, bs)
  {
    hide Poke, CodeRelocator.AbsoluteJump, ReadBytes, SB.Ensured;
    var s := Init(original, mem, slots, pages);
    var ops := HookOverTrapCalls(a, bs);
    var s1 := SoftAdded(SoftEnsured(s), c, a, bs[0], bs[1]);
    assert Possible(s, c, ops[0]) && Apply(s, c, ops[0]) == s1;
    PokeKeys(mem, a, SB.INT3);
    assert Possible(s1, c, ops[1]) && Apply(s1, c, ops[1]) == HookOverTrap(s, c, a, bs);
    assert ops[1..][1..] == [];
    assert PossibleRun(HookOverTrap(s, c, a, bs), c, []);
    assert PossibleRun(s1, c, ops[1..]) && Run(s1, c, ops[1..]) == HookOverTrap(s, c, a, bs);
  }

  lemma HookOverTrapState(
    original: EH.Dispositions, mem: Memory, slots: HB.Slots, pages: map<nat, MS.Prot>, c: Platform, a: u64,
    bs: seq<u64>)
    requires PlatformOk(c) && c.instruction == SB.INT3 && FourBlocks(bs)
    ensures var s := HookOverTrap(Init(original, mem, slots, pages), c, a, bs);
            var under := Poke(mem, a, SB.INT3);
            var jump := CodeRelocator.AbsoluteJump(bs[3]);
            && s.mem == Poke(under, a, jump)
            && s.soft.byId.Keys == {1} && PatchOf(s.soft.byId[1]) == Over(mem, a, SB.INT3)
            && s.hooks.byId.Keys == {1} && PatchOf(s.hooks.byId[1]) == Over(under, a, jump)
  {
    hide Poke, CodeRelocator.AbsoluteJump, ReadBytes, SB.Ensured;
  }

  lemma OneListed(byId: map<nat, Entry>, id: nat)
    requires id in byId
    ensures PatchesIn(byId, [id]) == [PatchOf(byId[id])]
  {
    assert [id][1..] == [];
  }

  /** A hook attached over a live software breakpoint: cleanup puts the breakpoint's byte back first and then the
      hook's, which saved the trap instruction; the trap stays in the code although nothing is left to handle it. */
  lemma TrapOutlivesCleanup(
    original: EH.Dispositions, mem: Memory, slots: HB.Slots, pages: map<nat, MS.Prot>, c: Platform, a: u64,
    bs: seq<u64>, w: Walk)
    requires PlatformOk(c) && c.instruction == SB.INT3 && FourBlocks(bs) && IsMapped(mem, a, CodeRelocator.PATCH_SIZE)
    requires Peek(mem, a) != SB.INT3[0] && Walks(HookOverTrap(Init(original, mem, slots, pages), c, a, bs), w)
    ensures var s := Init(original, mem, slots, pages);
            && PossibleRun(s, c, HookOverTrapCalls(a, bs))
            && Run(s, c, HookOverTrapCalls(a, bs)) == HookOverTrap(s, c, a, bs)
            && Peek(CleanedUp(HookOverTrap(s, c, a, bs), c, w).mem, a) == SB.INT3[0]
            && CleanedUp(HookOverTrap(s, c, a, bs), c, w).mem != mem
  {
    hide CleanedUp, HookOverTrap, NewEntry, CodeRelocator.AbsoluteJump, PatchesIn, PossibleRun, Run, HookOverTrapCalls,
      Init, Poke, Peek, ReadBytes, RestoreAll, Enumerates, IsMapped, SavedInOrder, InstallAll, PatchOf, Over;
    var s := HookOverTrap(Init(original, mem, slots, pages), c, a, bs);
    HookOverTrapIsRun(original, mem, slots, pages, c, a, bs);
    HookOverTrapState(original, mem, slots, pages, c, a, bs);
    OneEntryOrder(s.soft.byId, 1, w.softOrder);
    OneEntryOrder(s.hooks.byId, 1, w.hookOrder);
    OneListed(s.soft.byId, 1);
    OneListed(s.hooks.byId, 1);
    CleanupMemory(s, c, w);
    OverParts(mem, a, bs);
    TrapStaysUnderHook(mem, a, CodeRelocator.AbsoluteJump(bs[3]));
  }

  lemma OverParts(mem: Memory, a: u64, bs: seq<u64>)
    requires |bs| == 4
    ensures var under := Poke(mem, a, SB.INT3);
            var jump := CodeRelocator.AbsoluteJump(bs[3]);
            && [Over(mem, a, SB.INT3)] + [Over(under, a, jump)] ==
                 [Patch(a, ReadBytes(mem, a, 1), [0xCC]), Patch(a, ReadBytes(Poke(mem, a, [0xCC]), a, 14), jump)]
  {
    hide Poke, ReadBytes, CodeRelocator.AbsoluteJump;
  }
}
