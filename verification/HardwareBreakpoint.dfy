/** The hardware-breakpoint registry of native_hw_breakpoint.cc on x86-64 (Windows and macOS), one thread. */
module HardwareBreakpoint {
  import opened Results
  import opened Words
  import opened Sets
  import opened HexText
  import opened X86Machine
  import opened PatchRegistry
  import opened CodeMemory
  import opened DebugRegisters
  import opened ExceptionHandlers
  import opened TrapHandlers

  datatype HardwareError =
    InvalidType | AlreadySet | TooMany | CannotRelocate | CannotAssemble | NoFreeSlot | BadId(error: ParseError)

  function ParseType(s: string): Option<WatchKind> {
    if s == "execute" then Some(Execute)
    else if s == "write" then Some(Write)
    else if s == "readwrite" then Some(ReadWrite)
    else None
  }

  const MAX_BREAKPOINTS := 4

  /** The word a breakpoint is set with names an access. */
  predicate Names(typeStr: string, a: Access) {
    match a
    case Fetch => typeStr == "execute"
    case DataWrite => typeStr == "write" || typeStr == "readwrite"
    case DataRead => typeStr == "readwrite"
  }

  /** The three words that are accepted, and the accesses they stand for. */
  lemma TypeNamed(s: string)
    ensures ParseType(s).None? <==> s != "execute" && s != "write" && s != "readwrite"
    ensures ParseType(s) == Some(Execute) <==> s == "execute"
    ensures ParseType(s).Some? ==> forall a :: Wants(ParseType(s).value, a) <==> Names(s, a)
  {
    assert "execute"[0] != "write"[0] && "execute"[0] != "readwrite"[0] && "write"[0] != "readwrite"[0];
  }

  // ---------- The trap handlers ----------

  /** The handler is registered for two signals; the id for single steps is not kept. */
  function Ensured(t: TrapState): TrapState {
    if t.trap.installed then t
    else
      var e := RefEnabled(t.exceptions);
      TrapState(Trap(true, e.nextId), Registered(Registered(e, Breakpoint, HardwareTrap), SingleStep, HardwareTrap))
  }

  // ---------- Registers and registry ----------

  /** Debug registers of the thread and the engine's slot bitmask. */
  datatype Slots = Slots(dr: seq<u64>, dr7: Word, used: Word)

  ghost predicate SlotsOk(s: Slots) {
    |s.dr| == SLOTS
  }

  function SetSlot(s: Slots, slot: nat, address: u64, kind: WatchKind, size: int): Slots
    requires SlotsOk(s) && slot < SLOTS
  {
    Slots(s.dr[slot := address], Packed(s.dr7, slot, kind, size), MarkUsed(s.used, slot))
  }

  function ClearSlot(s: Slots, slot: nat): Slots
    requires SlotsOk(s) && slot < SLOTS
  {
    Slots(s.dr[slot := 0], Unpacked(s.dr7, slot), MarkFree(s.used, slot))
  }

  /** The slots the entries own. */
  function OwnedSlots(byId: map<nat, Entry>): set<nat> {
    set id | id in byId && byId[id].watch.Some? :: byId[id].watch.value.slot
  }

  /** Some slots cleared: their addresses are zero and their enable and use bits off, and nothing else changed. */
  function ClearOwned(s: Slots, owned: set<nat>): Slots {
    Slots(
      seq(|s.dr|, k requires 0 <= k < |s.dr| => if k in owned then 0 else s.dr[k]),
      seq(64, i requires 0 <= i < 64 => s.dr7[i] && !(i % 2 == 0 && i / 2 in owned)),
      seq(64, i requires 0 <= i < 64 => s.used[i] && i !in owned))
  }

  lemma NoneOwned(s: Slots)
    ensures ClearOwned(s, {}) == s
  {
  }

  lemma ClearOneMore(s: Slots, owned: set<nat>, slot: nat)
    requires SlotsOk(s) && slot < SLOTS
    ensures ClearSlot(ClearOwned(s, owned), slot) == ClearOwned(s, owned + {slot})
  {
    var t := ClearOwned(s, owned);
    UnpackedFields(t.dr7, slot);
    MarkBits(t.used, slot);
    hide Unpacked, MarkFree;
  }

  lemma ClearedView(s: Slots, owned: set<nat>, k: nat)
    requires SlotsOk(s) && k < SLOTS
    ensures |ClearOwned(s, owned).dr| == SLOTS
    ensures var v := View(ClearOwned(s, owned), k);
            && v.enabled == (View(s, k).enabled && k !in owned) && v.used == (View(s, k).used && k !in owned)
            && v.address == if k in owned then 0 else View(s, k).address
  {
    assert 2 * k % 2 == 0 && 2 * k / 2 == k;
    hide RwField, LenField;
  }

  lemma OwnedLess(byId: map<nat, Entry>, id: nat)
    requires id in byId && byId[id].watch.Some?
    ensures OwnedSlots(byId) == OwnedSlots(byId - {id}) + {byId[id].watch.value.slot}
  {
    var slot := byId[id].watch.value.slot;
    forall k
      ensures k in OwnedSlots(byId) <==> k in OwnedSlots(byId - {id}) || k == slot
    {
      if k in OwnedSlots(byId) && k != slot {
        var i :| i in byId && byId[i].watch.Some? && byId[i].watch.value.slot == k;
        assert i in byId - {id};
      }
    }
  }

  /** What is set up in one slot: enabled in DR7, marked used, and its address, type and length. */
  datatype SlotView = SlotView(enabled: bool, used: bool, address: u64, rw: nat, len: nat)

  function View(s: Slots, k: nat): SlotView
    requires |s.dr| == SLOTS && k < SLOTS
  {
    SlotView(IsEnabled(s.dr7, k), s.used[k], s.dr[k], RwField(s.dr7, k), LenField(s.dr7, k))
  }

  /** A slot watches an address for what the word names: it is enabled with that address, traps on the named accesses
      and no others, and covers the given number of bytes where the processor can. */
  ghost predicate Guards(s: Slots, slot: nat, address: u64, typeStr: string, size: int) {
    && SlotsOk(s) && slot < SLOTS && s.dr7[2 * slot] && s.dr[slot] == address
    && (forall a :: TrapsOn(RwField(s.dr7, slot), a) <==> Names(typeStr, a))
    && (size in {1, 2, 4, 8} ==> LenBytes(LenField(s.dr7, slot)) == size)
  }

  lemma SetSlotGuards(s: Slots, slot: nat, address: u64, typeStr: string, size: int)
    requires SlotsOk(s) && slot < SLOTS && ParseType(typeStr).Some?
    ensures Guards(SetSlot(s, slot, address, ParseType(typeStr).value, size), slot, address, typeStr, size)
  {
    TypeNamed(typeStr);
    hide Packed, ParseType, Wants, TrapsOn, Names;
    PackedFields(s.dr7, slot, ParseType(typeStr).value, size);
  }

  /** Setting a slot sets up that slot and leaves the others as they were. */
  lemma SetSlotView(s: Slots, slot: nat, address: u64, kind: WatchKind, size: int, k: nat)
    requires SlotsOk(s) && slot < SLOTS && k < SLOTS
    ensures View(SetSlot(s, slot, address, kind, size), k) ==
              if k == slot then SlotView(true, true, address, TypeValue(kind), LenValue(size)) else View(s, k)
  {
    PackedFields(s.dr7, slot, kind, size);
    MarkBits(s.used, slot);
    if k != slot {
      OtherSlotsKept(s.dr7, slot, kind, size, k);
    }
    hide Packed, MarkUsed, IsEnabled, RwField, LenField;
  }

  lemma ClearSlotView(s: Slots, slot: nat, k: nat)
    requires SlotsOk(s) && slot < SLOTS && k < SLOTS
    ensures View(ClearSlot(s, slot), k) ==
              if k == slot then View(s, k).(enabled := false, used := false, address := 0) else View(s, k)
  {
    UnpackedFields(s.dr7, slot);
    MarkBits(s.used, slot);
    hide Unpacked, MarkFree;
  }

  ghost predicate HoldsSlot(e: Entry, k: nat) {
    e.watch.Some? && e.watch.value.slot == k
  }

  ghost predicate SlotOwned(byId: map<nat, Entry>, k: nat) {
    exists id :: id in byId && HoldsSlot(byId[id], k)
  }

  /** A live entry has its slot, with its address, type and length: it traps on exactly the accesses its kind is for. */
  ghost predicate EntryShown(e: Entry, s: Slots)
    requires SlotsOk(s)
  {
    e.watch.Some? &&
    var w := e.watch.value;
    && w.slot < SLOTS && View(s, w.slot) == SlotView(true, true, e.address, TypeValue(w.kind), LenValue(w.size))
    && forall a :: TrapsOn(View(s, w.slot).rw, a) <==> Wants(w.kind, a)
  }

  /** Registry, bitmask and debug registers agree: a slot is enabled and marked used exactly when one live entry
      owns it, and it then holds that entry's address, type and length. */
  ghost predicate Agree(byId: map<nat, Entry>, s: Slots) {
    && SlotsOk(s)
    && (forall id :: id in byId ==> EntryShown(byId[id], s))
    && OneOwner(byId)
    && (forall k :: 0 <= k < SLOTS ==>
          (View(s, k).enabled <==> SlotOwned(byId, k)) && (View(s, k).used <==> SlotOwned(byId, k)))
  }

  ghost predicate OneOwner(byId: map<nat, Entry>) {
    forall id, id' :: id in byId && id' in byId && ShareSlot(byId[id], byId[id']) ==> id == id'
  }

  predicate ShareSlot(e: Entry, e': Entry) {
    e.watch.Some? && e'.watch.Some? && e.watch.value.slot == e'.watch.value.slot
  }

  lemma NextIdUnused(x: Index)
    requires Bijective(x)
    ensures x.nextId !in x.byId
  {
  }

  lemma DifferentAddresses(x: Index, i: nat, j: nat)
    requires Bijective(x) && i in x.byId && j in x.byId && i != j
    ensures x.byId[i].address != x.byId[j].address && x.byId[i].address in x.byAddress &&
              x.byId[j].address in x.byAddress
  {
  }

  lemma AddedOwners(x: Index, e: Entry)
    requires x.nextId !in x.byId
    ensures forall k :: SlotOwned(Added(x, e).byId, k) <==> SlotOwned(x.byId, k) || HoldsSlot(e, k)
  {
    var byId := Added(x, e).byId;
    assert byId[x.nextId] == e;
    forall k
      ensures SlotOwned(byId, k) <==> SlotOwned(x.byId, k) || HoldsSlot(e, k)
    {
      if SlotOwned(x.byId, k) {
        var id :| id in x.byId && HoldsSlot(x.byId[id], k);
        assert byId[id] == x.byId[id];
      }
    }
  }

  lemma DroppedOwners(x: Index, id: nat)
    requires id in x.byId && OneOwner(x.byId)
    ensures forall k :: SlotOwned(Dropped(x, id).byId, k) <==> SlotOwned(x.byId, k) && !HoldsSlot(x.byId[id], k)
  {
    var byId := Dropped(x, id).byId;
    forall k
      ensures SlotOwned(byId, k) <==> SlotOwned(x.byId, k) && !HoldsSlot(x.byId[id], k)
    {
      if SlotOwned(x.byId, k) && !HoldsSlot(x.byId[id], k) {
        var i :| i in x.byId && HoldsSlot(x.byId[i], k);
        assert byId[i] == x.byId[i];
      }
    }
  }

  lemma SetAgrees(x: Index, s: Slots, e: Entry)
    requires Bijective(x) && Agree(x.byId, s) && e.watch.Some? && e.watch.value.slot < SLOTS
    requires !View(s, e.watch.value.slot).used
    ensures var w := e.watch.value; Agree(Added(x, e).byId, SetSlot(s, w.slot, e.address, w.kind, w.size))
  {
    hide View, SetSlot, Bijective, SlotOwned;
    var w := e.watch.value;
    var t := SetSlot(s, w.slot, e.address, w.kind, w.size);
    var byId := Added(x, e).byId;
    NextIdUnused(x);
    AddedOwners(x, e);
    SetKeepsOk(s, w.slot, e.address, w.kind, w.size);
    forall k | 0 <= k < SLOTS
      ensures View(t, k) ==
                if k == w.slot then SlotView(true, true, e.address, TypeValue(w.kind), LenValue(w.size)) else View(s, k)
    {
      SetSlotView(s, w.slot, e.address, w.kind, w.size, k);
    }
    assert byId[x.nextId] == e;
    forall id | id in x.byId
      ensures byId[id] == x.byId[id] && EntryShown(byId[id], t) && !ShareSlot(x.byId[id], e)
    {
      assert EntryShown(x.byId[id], s);
    }
    hide EntryShown, ShareSlot;
  }

  /** Clearing every owned slot leaves none enabled and none in use. */
  lemma AllClearedAgrees(byId: map<nat, Entry>, s: Slots)
    requires Agree(byId, s)
    ensures Agree(map[], ClearOwned(s, OwnedSlots(byId)))
  {
    hide View, EntryShown, ClearOwned, OneOwner;
    var t := ClearOwned(s, OwnedSlots(byId));
    AgreeOk(byId, s);
    ClearedView(s, OwnedSlots(byId), 0);
    forall k | 0 <= k < SLOTS
      ensures !View(t, k).enabled && !View(t, k).used
    {
      ClearedView(s, OwnedSlots(byId), k);
      if SlotOwned(byId, k) {
        var id :| id in byId && HoldsSlot(byId[id], k);
        assert k in OwnedSlots(byId);
      }
    }
    NobodyOwns();
  }

  lemma NobodyOwns()
    ensures OneOwner(map[]) && forall k :: !SlotOwned(map[], k)
  {
  }

  lemma AgreeOk(byId: map<nat, Entry>, s: Slots)
    requires Agree(byId, s)
    ensures SlotsOk(s)
  {
  }

  lemma SetKeepsOk(s: Slots, slot: nat, address: u64, kind: WatchKind, size: int)
    requires SlotsOk(s) && slot < SLOTS
    ensures SlotsOk(SetSlot(s, slot, address, kind, size)) && SlotsOk(ClearSlot(s, slot))
  {
  }

  lemma ClearAgrees(x: Index, s: Slots, id: nat)
    requires Bijective(x) && Agree(x.byId, s) && id in x.byId
    ensures x.byId[id].watch.Some? && x.byId[id].watch.value.slot < SLOTS
    ensures Agree(Dropped(x, id).byId, ClearSlot(s, x.byId[id].watch.value.slot))
  {
    hide View, ClearSlot, Bijective, SlotOwned;
    assert EntryShown(x.byId[id], s);
    var slot := x.byId[id].watch.value.slot;
    var t := ClearSlot(s, slot);
    var byId := Dropped(x, id).byId;
    DroppedOwners(x, id);
    SetKeepsOk(s, slot, 0, Execute, 1);
    forall k | 0 <= k < SLOTS
      ensures View(t, k) == if k == slot then View(s, k).(enabled := false, used := false, address := 0) else View(s, k)
    {
      ClearSlotView(s, slot, k);
    }
    forall i | i in byId
      ensures byId[i] == x.byId[i] && EntryShown(byId[i], t)
    {
      assert EntryShown(x.byId[i], s) && !ShareSlot(x.byId[i], x.byId[id]);
    }
    hide EntryShown, ShareSlot;
  }

  /** With fewer than four addresses in use a slot is free, so the engine never reports that none is. */
  lemma SlotIsFree(x: Index, s: Slots)
    requires Bijective(x) && Agree(x.byId, s) && |x.byAddress| < MAX_BREAKPOINTS
    ensures exists k :: 0 <= k < SLOTS && !View(s, k).used
  {
    hide View;
    if forall k :: 0 <= k < SLOTS ==> View(s, k).used {
      assert SlotOwned(x.byId, 0) && SlotOwned(x.byId, 1) && SlotOwned(x.byId, 2) && SlotOwned(x.byId, 3);
      FourOwners(x);
      assert false;
    }
  }

  lemma FourOwners(x: Index)
    requires Bijective(x) && SlotOwned(x.byId, 0) && SlotOwned(x.byId, 1) && SlotOwned(x.byId, 2) &&
               SlotOwned(x.byId, 3)
    ensures |x.byAddress| >= 4
  {
    hide Bijective;
    var a :| a in x.byId && HoldsSlot(x.byId[a], 0);
    var b :| b in x.byId && HoldsSlot(x.byId[b], 1);
    var c :| c in x.byId && HoldsSlot(x.byId[c], 2);
    var d :| d in x.byId && HoldsSlot(x.byId[d], 3);
    DifferentAddresses(x, a, b);
    DifferentAddresses(x, a, c);
    DifferentAddresses(x, a, d);
    DifferentAddresses(x, b, c);
    DifferentAddresses(x, b, d);
    DifferentAddresses(x, c, d);
    DistinctFour(x.byId[a].address, x.byId[b].address, x.byId[c].address, x.byId[d].address, x.byAddress.Keys);
    assert |x.byAddress.Keys| == |x.byAddress|;
  }

  lemma DistinctFour(a: nat, b: nat, c: nat, d: nat, s: set<nat>)
    requires a in s && b in s && c in s && d in s
    requires a != b && a != c && a != d && b != c && b != d && c != d
    ensures |s| >= 4
  {
    var four := {a, b, c, d};
    assert |four - {a}| == |four| - 1 && |four - {a} - {b}| == |four| - 2 && |four - {a} - {b} - {c}| == |four| - 3;
    assert four - {a} - {b} - {c} == {d};
    SubsetSize(four, s);
  }

  // ---------- The registry object ----------

  /** Hardware breakpoints overwrite no code. */
  ghost predicate NoBytes(byId: map<nat, Entry>) {
    forall id :: id in byId ==> byId[id].original == [] && byId[id].written == []
  }

  lemma DroppedNoBytes(x: Index, mem: Memory, jit: set<nat>, id: nat)
    requires RegistryOk(x, mem, jit) && NoBytes(x.byId) && id in x.byId
    ensures RegistryOk(Dropped(x, id), mem, jit - Blocks(x.byId[id])) && NoBytes(Dropped(x, id).byId)
    ensures Blocks(x.byId[id]) <= jit && DistinctBlocks(x.byId[id])
  {
    hide RegistryOk;
    DroppedOk(x, mem, jit, id);
  }

  lemma AddedNoBytes(x: Index, mem: Memory, jit: set<nat>, e: Entry)
    requires RegistryOk(x, mem, jit) && NoBytes(x.byId) && e.address !in x.byAddress
    requires e.original == [] && e.written == [] && Blocks(e) !! jit && DistinctBlocks(e)
    ensures RegistryOk(Added(x, e), mem, jit + Blocks(e)) && NoBytes(Added(x, e).byId)
  {
    hide RegistryOk;
    AddedOk(x, mem, jit, e);
  }

  /** What the trap callback decides. */
  datatype Answer = Redirect(trampoline: nat) | Notify(entry: Entry) | NotHandled

  class NativeHardwareBreakpoint {
    const space: CodeSpace
    const exceptions: ExceptionHandler
    var hwById: map<nat, Entry>
    var hwByAddress: map<nat, Entry>
    var nextHwId: nat
    var dr: seq<u64>
    var dr7: Word
    var usedSlots: Word
    var handlerInstalled: bool
    var handlerId: nat

    function Breakpoints(): Index
      reads this
    {
      Index(hwById, hwByAddress, nextHwId)
    }

    function SlotsValue(): Slots
      reads this
    {
      Slots(dr, dr7, usedSlots)
    }

    function TrapValue(): TrapState
      reads this, exceptions
    {
      TrapState(Trap(handlerInstalled, handlerId), exceptions.Value())
    }

    ghost predicate Valid()
      reads this, space
    {
      && RegistryOk(Breakpoints(), space.mem, space.jit) && NoBytes(hwById)
      && Agree(hwById, SlotsValue())
      && (hwByAddress != map[] ==> handlerInstalled)
    }

    /** On a thread whose four slots are free. */
    constructor (space: CodeSpace, exceptions: ExceptionHandler, dr: seq<u64>, dr7: Word)
      requires 0 !in space.jit && |dr| == SLOTS && forall k :: 0 <= k < SLOTS ==> !IsEnabled(dr7, k)
      ensures this.space == space && this.exceptions == exceptions
      ensures Valid() && Breakpoints() == EMPTY && !handlerInstalled && handlerId == 0
    {
      this.space, this.exceptions := space, exceptions;
      hwById, hwByAddress, nextHwId := map[], map[], 1;
      this.dr, this.dr7, usedSlots := dr, dr7, seq(64, _ => false);
      handlerInstalled, handlerId := false, 0;
    }

    method EnsureHwHandlerInstalled()
      modifies this`handlerInstalled, this`handlerId, exceptions
      ensures TrapValue() == Ensured(old(TrapValue()))
    {
      if handlerInstalled {
        return;
      }
      exceptions.RefEnable();
      handlerId := exceptions.RegisterHandler(Breakpoint, HardwareTrap);
      var dropped := exceptions.RegisterHandler(SingleStep, HardwareTrap);
      handlerInstalled := true;
    }

    method MaybeRemoveHwHandler()
      modifies this`handlerInstalled, this`handlerId, exceptions
      ensures TrapValue() == MaybeRemoved(old(TrapValue()), hwByAddress == map[])
    {
      if !handlerInstalled || hwByAddress != map[] {
        return;
      }
      exceptions.UnregisterHandler(handlerId);
      exceptions.RefDisable();
      handlerInstalled := false;
      handlerId := 0;
    }

    method SetDebugReg(slot: nat, address: u64, kind: WatchKind, size: int)
      requires |dr| == SLOTS && slot < SLOTS
      modifies this`dr, this`dr7
      ensures dr == old(dr)[slot := address] && dr7 == Packed(old(dr7), slot, kind, size)
    {
      dr := dr[slot := address];
      dr7 := Packed(dr7, slot, kind, size);
    }

    method ClearDebugReg(slot: nat)
      requires |dr| == SLOTS && slot < SLOTS
      modifies this`dr, this`dr7, this`usedSlots
      ensures SlotsValue() == ClearSlot(old(SlotsValue()), slot)
    {
      dr7 := Unpacked(dr7, slot);
      dr := dr[slot := 0];
      usedSlots := MarkFree(usedSlots, slot);
    }

    /** The relocated copy and the trampoline of an execute breakpoint, both or neither. */
    method BuildCode(kind: WatchKind, relocated: Option<u64>, trampoline: Option<u64>)
      returns (r: Result<(nat, nat), HardwareError>)
      requires TwoFresh(space.jit, relocated, trampoline)
      modifies space`jit
      ensures r == if kind != Execute then Success((0, 0))
                   else if relocated.None? then Failure(CannotRelocate)
                   else if trampoline.None? then Failure(CannotAssemble)
                   else Success((trampoline.value, relocated.value))
      ensures space.jit == if r.Success? then old(space.jit) + ({r.value.0, r.value.1} - {0}) else old(space.jit)
    {
      if kind != Execute {
        return Success((0, 0));
      }
      if relocated.None? {
        return Failure(CannotRelocate);
      }
      space.AddCode(relocated.value);
      if trampoline.None? {
        space.ReleaseCode(relocated.value);
        return Failure(CannotAssemble);
      }
      space.AddCode(trampoline.value);
      return Success((trampoline.value, relocated.value));
    }

    /** Programs the debug registers for a finished entry and puts it in both maps; `jit` is what was allocated
        before its blocks were. */
    method Publish(entry: Entry, ghost jit: set<nat>)
      requires RegistryOk(Breakpoints(), space.mem, jit) && NoBytes(hwById) && Agree(hwById, SlotsValue()) &&
                 handlerInstalled
      requires entry.address !in hwByAddress && entry.original == [] && entry.written == []
      requires entry.watch.Some? && entry.watch.value.slot < SLOTS && !usedSlots[entry.watch.value.slot]
      requires Blocks(entry) !! jit && DistinctBlocks(entry) && space.jit == jit + Blocks(entry)
      modifies this`hwById, this`hwByAddress, this`nextHwId, this`dr, this`dr7, this`usedSlots
      ensures Valid() && Breakpoints() == Added(old(Breakpoints()), entry)
      ensures SlotsOk(old(SlotsValue()))
      ensures var w := entry.watch.value;
              SlotsValue() == SetSlot(old(SlotsValue()), w.slot, entry.address, w.kind, w.size)
    {
      hide RegistryOk, Agree, Packed, MarkUsed, NoBytes, View;
      var w := entry.watch.value;
      SetKeepsAgreement(Breakpoints(), space.mem, jit, SlotsValue(), entry);
      AddedNoBytes(Breakpoints(), space.mem, jit, entry);
      usedSlots := MarkUsed(usedSlots, w.slot);
      SetDebugReg(w.slot, entry.address, w.kind, w.size);
      hwById := hwById[nextHwId := entry];
      hwByAddress := hwByAddress[entry.address := entry];
      nextHwId := nextHwId + 1;
    }

    /** Sets a breakpoint in the lowest free slot.  `relocated` and `trampoline` answer for the code generators,
        which run for execute breakpoints only. */
    method Set(address: u64, typeStr: string, size: int, relocated: Option<u64>, trampoline: Option<u64>)
      returns (r: Result<string, HardwareError>)
      requires Valid()
      requires TwoFresh(space.jit, relocated, trampoline)
      modifies this, space`jit, exceptions
      ensures Valid()
      ensures r == if typeStr != "execute" && typeStr != "write" && typeStr != "readwrite" then Failure(InvalidType)
                   else if address in old(hwByAddress) then Failure(AlreadySet)
                   else if |old(hwByAddress)| >= 4 then Failure(TooMany)
                   else if typeStr == "execute" && relocated.None? then Failure(CannotRelocate)
                   else if typeStr == "execute" && trampoline.None? then Failure(CannotAssemble)
                   else Success(ToHexAddr(old(nextHwId)))
      ensures TrapValue() == if r in {Failure(InvalidType), Failure(AlreadySet), Failure(TooMany)}
                             then old(TrapValue()) else Ensured(old(TrapValue()))
      ensures r.Failure? ==>
                && Breakpoints() == old(Breakpoints()) && SlotsValue() == old(SlotsValue())
                && space.jit == old(space.jit)
      ensures r.Success? ==>
                && ParseType(typeStr).Some?
                && var kind := ParseType(typeStr).value;
                   exists slot: nat :: slot < SLOTS && !old(usedSlots)[slot] &&
                     (forall k :: 0 <= k < slot ==> old(usedSlots)[k]) &&
                     var e := NewBreakpoint(address, kind, size, slot, relocated, trampoline);
                     && Breakpoints() == Added(old(Breakpoints()), e)
                     && SlotsValue() == SetSlot(old(SlotsValue()), slot, address, kind, size)
                     && Guards(SlotsValue(), slot, address, typeStr, size)
                     && space.jit == old(space.jit) + Blocks(e)
    {
      TypeNamed(typeStr);
      hide RegistryOk, Agree, SetSlot, NoBytes, ToHexAddr, View, RefEnabled, Registered, ParseType, Guards;
      var parsed := ParseType(typeStr);
      if parsed.None? {
        return Failure(InvalidType);
      }
      var kind := parsed.value;
      if address in hwByAddress {
        return Failure(AlreadySet);
      }
      if |hwByAddress| >= MAX_BREAKPOINTS {
        return Failure(TooMany);
      }
      EnsureHwHandlerInstalled();
      var built := BuildCode(kind, relocated, trampoline);
      if built.Failure? {
        return Failure(built.error);
      }
      var slot := FindFreeSlot(usedSlots);
      SomeSlotFree(Breakpoints(), space.mem, old(space.jit), SlotsValue());
      if slot < 0 {
        assert false;
      }
      var (trampolineCode, relocatedCode) := built.value;
      var entry := Entry(address, trampolineCode, relocatedCode, [], [], Some(Watch(kind, size, slot)));
      assert entry == NewBreakpoint(address, kind, size, slot, relocated, trampoline);
      Publish(entry, old(space.jit));
      SetSlotGuards(old(SlotsValue()), slot, address, typeStr, size);
      return Success(ToHexAddr(nextHwId - 1));
    }

    /** What both removals do with an entry: its slot is cleared and its blocks are released. */
    method TakeDown(entry: Entry)
      requires SlotsOk(SlotsValue()) && entry.watch.Some? && entry.watch.value.slot < SLOTS
      requires Blocks(entry) <= space.jit && DistinctBlocks(entry)
      modifies this`dr, this`dr7, this`usedSlots, space`jit
      ensures SlotsValue() == ClearSlot(old(SlotsValue()), entry.watch.value.slot)
      ensures space.jit == old(space.jit) - Blocks(entry)
    {
      ClearDebugReg(entry.watch.value.slot);
      space.ReleaseCode(entry.trampoline);
      space.ReleaseCode(entry.relocated);
    }

    method Remove(breakpointIdStr: string) returns (r: Result<(), HardwareError>)
      requires Valid()
      modifies this, space`jit, exceptions
      ensures Valid()
      ensures r == match ParseHexAddr(breakpointIdStr)
                   case Failure(e) => Failure(BadId(e))
                   case Success(_) => Success(())
      ensures var id := ParseHexAddr(breakpointIdStr);
              if id.Success? && id.value in old(hwById) then
                var e := old(hwById)[id.value];
                && e.watch.Some? && e.watch.value.slot < SLOTS && SlotsOk(old(SlotsValue()))
                && Breakpoints() == Dropped(old(Breakpoints()), id.value)
                && SlotsValue() == ClearSlot(old(SlotsValue()), e.watch.value.slot)
                && space.jit == old(space.jit) - Blocks(e)
                && TrapValue() == MaybeRemoved(old(TrapValue()), hwByAddress == map[])
              else
                && Breakpoints() == old(Breakpoints()) && SlotsValue() == old(SlotsValue()) &&
                     space.jit == old(space.jit)
                && TrapValue() == old(TrapValue())
    {
      hide RegistryOk, Agree, Unpacked, MarkFree, NoBytes, ParseHexAddr;
      var parsed := ParseHexAddr(breakpointIdStr);
      if parsed.Failure? {
        return Failure(BadId(parsed.error));
      }
      var bpId := parsed.value;
      if bpId !in hwById {
        return Success(());
      }
      var entry := hwById[bpId];
      ClearKeepsAgreement(Breakpoints(), space.mem, space.jit, SlotsValue(), bpId);
      DroppedNoBytes(Breakpoints(), space.mem, space.jit, bpId);
      TakeDown(entry);
      hwByAddress := hwByAddress - {entry.address};
      hwById := hwById - {bpId};
      MaybeRemoveHwHandler();
      return Success(());
    }

    method RemoveAll()
      requires Valid()
      modifies this, space`jit, exceptions
      ensures Valid()
      ensures Breakpoints() == Cleared(old(Breakpoints()))
      ensures space.jit == old(space.jit) - AllBlocks(old(hwById))
      ensures SlotsValue() == ClearOwned(old(SlotsValue()), OwnedSlots(old(hwById)))
      ensures TrapValue() == MaybeRemoved(old(TrapValue()), true)
    {
      hide RegistryOk, Agree, Unpacked, MarkFree, NoBytes, View, AllBlocks, ClearOwned, OwnedSlots, ClearSlot;
      ghost var y := Breakpoints();
      ghost var cleared: set<nat> := {};
      var rest := hwById;
      NoneOwned(SlotsValue());
      AgreeOk(hwById, SlotsValue());
      while rest.Keys != {}
        invariant rest == y.byId && RegistryOk(y, space.mem, space.jit) && NoBytes(rest) && Agree(rest, SlotsValue())
        invariant space.jit - AllBlocks(rest) == old(space.jit) - AllBlocks(old(hwById)) && space.jit <= old(space.jit)
        invariant SlotsValue() == ClearOwned(old(SlotsValue()), cleared)
        invariant OwnedSlots(old(hwById)) == OwnedSlots(rest) + cleared
        invariant TrapValue() == old(TrapValue()) && hwById == old(hwById) && nextHwId == old(nextHwId)
        decreases rest.Keys
      {
        var id :| id in rest.Keys;
        var entry := rest[id];
        ClearKeepsAgreement(y, space.mem, space.jit, SlotsValue(), id);
        DroppedNoBytes(y, space.mem, space.jit, id);
        BlocksLeft(y, space.mem, space.jit, id);
        OwnedLess(rest, id);
        ClearOneMore(old(SlotsValue()), cleared, entry.watch.value.slot);
        TakeDown(entry);
        y := Dropped(y, id);
        rest := rest - {id};
        cleared := cleared + {entry.watch.value.slot};
      }
      NothingAgrees(rest, SlotsValue());
      ClearedOk(old(Breakpoints()), old(space.mem), old(space.jit), space.mem, space.jit);
      hwById, hwByAddress := map[], map[];
      MaybeRemoveHwHandler();
    }

    /** The trap callback: an execute breakpoint at `pc` resumes in its trampoline; otherwise the lowest slot
        that DR6 reports and that a live entry owns is notified. */
    method SigtrapHandler(pc: u64, dr6: Word) returns (a: Answer)
      ensures var hit :=
                pc in hwByAddress && hwByAddress[pc].trampoline != 0 && hwByAddress[pc].watch.Some? &&
                  hwByAddress[pc].watch.value.kind == Execute;
              match a
              case Redirect(t) => hit && t == hwByAddress[pc].trampoline
              case Notify(e) =>
                && !hit && e in hwByAddress.Values && e.watch.Some? && e.watch.value.slot < SLOTS &&
                     dr6[e.watch.value.slot]
                && forall k: nat :: k < e.watch.value.slot && dr6[k] ==> forall b :: b in hwByAddress ==>
                     !HoldsSlot(hwByAddress[b], k)
              case NotHandled =>
                !hit && forall k: nat :: k < SLOTS && dr6[k] ==> forall b :: b in hwByAddress ==>
                  !HoldsSlot(hwByAddress[b], k)
    {
      if pc in hwByAddress {
        var entry := hwByAddress[pc];
        if ExecutesAt(entry) {
          return Redirect(entry.trampoline);
        }
      }
      for slot := 0 to 4
        invariant forall k: nat :: k < slot && dr6[k] ==> forall b :: b in hwByAddress ==> !HoldsSlot(hwByAddress[b], k)
      {
        if dr6[slot] {
          var rest := hwByAddress.Keys;
          while rest != {}
            invariant rest <= hwByAddress.Keys
            invariant forall b :: b in hwByAddress && b !in rest ==> !HoldsSlot(hwByAddress[b], slot)
            decreases rest
          {
            var b :| b in rest;
            var entry := hwByAddress[b];
            if entry.watch.Some? && entry.watch.value.slot == slot {
              return Notify(entry);
            }
            rest := rest - {b};
          }
        }
      }
      return NotHandled;
    }
  }

  predicate ExecutesAt(e: Entry) {
    e.watch.Some? && e.watch.value.kind == Execute && e.trampoline != 0
  }

  function NewBreakpoint(
    address: u64, kind: WatchKind, size: int, slot: nat, relocated: Option<u64>, trampoline: Option<u64>): Entry
  {
    var w := Some(Watch(kind, size, slot));
    if kind == Execute && relocated.Some? && trampoline.Some?
    then Entry(address, trampoline.value, relocated.value, [], [], w)
    else Entry(address, 0, 0, [], [], w)
  }

  lemma SomeSlotFree(x: Index, mem: Memory, jit: set<nat>, s: Slots)
    requires RegistryOk(x, mem, jit) && Agree(x.byId, s) && |x.byAddress| < MAX_BREAKPOINTS
    ensures SlotsOk(s) && exists k :: 0 <= k < SLOTS && !s.used[k]
  {
    SlotIsFree(x, s);
    var k :| 0 <= k < SLOTS && !View(s, k).used;
    assert !s.used[k];
  }

  lemma SetKeepsAgreement(x: Index, mem: Memory, jit: set<nat>, s: Slots, e: Entry)
    requires RegistryOk(x, mem, jit) && Agree(x.byId, s) && e.watch.Some? && e.watch.value.slot < SLOTS
    requires !s.used[e.watch.value.slot]
    ensures SlotsOk(s)
    ensures var w := e.watch.value; Agree(Added(x, e).byId, SetSlot(s, w.slot, e.address, w.kind, w.size))
  {
    SetAgrees(x, s, e);
  }

  lemma ClearKeepsAgreement(x: Index, mem: Memory, jit: set<nat>, s: Slots, id: nat)
    requires RegistryOk(x, mem, jit) && Agree(x.byId, s) && id in x.byId
    ensures SlotsOk(s) && x.byId[id].watch.Some? && x.byId[id].watch.value.slot < SLOTS
    ensures Agree(Dropped(x, id).byId, ClearSlot(s, x.byId[id].watch.value.slot))
  {
    ClearAgrees(x, s, id);
  }

  /** With no entry left every slot is free, in DR7 and in the bitmask. */
  lemma NothingAgrees(byId: map<nat, Entry>, s: Slots)
    requires byId.Keys == {} && Agree(byId, s)
    ensures SlotsOk(s) && Agree(map[], s) && AllBlocks(byId) == {} && OwnedSlots(byId) == {}
  {
    assert byId == map[];
  }
}
