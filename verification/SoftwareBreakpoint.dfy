/** The software-breakpoint registry of native_breakpoint.cc. */
module SoftwareBreakpoint {
  import opened Results
  import opened Words
  import opened HexText
  import opened X86Machine
  import opened CodePatches
  import opened PatchRegistry
  import opened CodeMemory
  import Interceptor
  import opened ExceptionHandlers
  import opened TrapHandlers

  datatype BreakpointError = AlreadySet | CannotRelocate | CannotAssemble | BadId(error: ParseError)

  function Ensured(t: TrapState): TrapState {
    if t.trap.installed then t
    else
      var e := RefEnabled(t.exceptions);
      TrapState(Trap(true, e.nextId), Registered(e, Breakpoint, SoftwareTrap))
  }

  /** The trap instruction: INT3 on x86-64, BRK #1 on ARM64. */
  const INT3: seq<byte> := [0xCC]
  const BRK: seq<byte> := [0x20, 0x00, 0x20, 0xD4]

  function StepBack(pc: int): u64 {
    Wrap(pc - 1)
  }

  class NativeSoftwareBreakpoint {
    const space: CodeSpace
    const exceptions: ExceptionHandler
    const instruction: seq<byte>
    /** Whether the processor reports the address after the trap (INT3 outside Windows). */
    const pcAdvances: bool
    var bpById: map<nat, Entry>
    var bpByAddress: map<nat, Entry>
    var nextBpId: nat
    var handlerInstalled: bool
    var sigtrapHandlerId: nat

    function Breakpoints(): Index
      reads this
    {
      Index(bpById, bpByAddress, nextBpId)
    }

    function TrapValue(): TrapState
      reads this, exceptions
    {
      TrapState(Trap(handlerInstalled, sigtrapHandlerId), exceptions.Value())
    }

    /** Registry invariant; a nonempty table has its handler installed. */
    ghost predicate Valid()
      reads this, space
    {
      RegistryOk(Breakpoints(), space.mem, space.jit) && (bpByAddress != map[] ==> handlerInstalled)
    }

    constructor (space: CodeSpace, exceptions: ExceptionHandler, instruction: seq<byte>, pcAdvances: bool)
      requires 0 !in space.jit && instruction in {INT3, BRK}
      ensures this.space == space && this.exceptions == exceptions && this.instruction == instruction
      ensures Valid() && Breakpoints() == EMPTY && !handlerInstalled && sigtrapHandlerId == 0
    {
      this.space, this.exceptions, this.instruction, this.pcAdvances := space, exceptions, instruction, pcAdvances;
      bpById, bpByAddress, nextBpId := map[], map[], 1;
      handlerInstalled, sigtrapHandlerId := false, 0;
    }

    method EnsureHandlerInstalled()
      modifies this`handlerInstalled, this`sigtrapHandlerId, exceptions
      ensures TrapValue() == Ensured(old(TrapValue()))
    {
      if handlerInstalled {
        return;
      }
      exceptions.RefEnable();
      sigtrapHandlerId := exceptions.RegisterHandler(Breakpoint, SoftwareTrap);
      handlerInstalled := true;
    }

    method MaybeRemoveHandler()
      modifies this`handlerInstalled, this`sigtrapHandlerId, exceptions
      ensures TrapValue() == MaybeRemoved(old(TrapValue()), bpByAddress == map[])
    {
      if !handlerInstalled || bpByAddress != map[] {
        return;
      }
      exceptions.UnregisterHandler(sigtrapHandlerId);
      exceptions.RefDisable();
      handlerInstalled := false;
      sigtrapHandlerId := 0;
    }

    /** Sets a breakpoint.  The handler is installed before the code generators run, so a failure of theirs
        leaves it installed. */
    method Set(address: u64, relocated: Option<u64>, trampoline: Option<u64>)
      returns (r: Result<string, BreakpointError>)
      requires Valid() && IsMapped(space.mem, address, |instruction|)
      requires TwoFresh(space.jit, relocated, trampoline)
      modifies this, space, exceptions
      ensures Valid()
      ensures r == if address in old(bpByAddress) then Failure(AlreadySet)
                   else if relocated.None? then Failure(CannotRelocate)
                   else if trampoline.None? then Failure(CannotAssemble)
                   else Success(ToHexAddr(old(nextBpId)))
      ensures TrapValue() == if r == Failure(AlreadySet) then old(TrapValue()) else Ensured(old(TrapValue()))
      ensures r.Failure? ==>
                Breakpoints() == old(Breakpoints()) && space.mem == old(space.mem) && space.jit == old(space.jit)
      ensures r.Success? ==>
                && Breakpoints() == Added(old(Breakpoints()),
                     NewEntry(old(space.mem), address, trampoline.value, relocated.value, instruction))
                && space.mem == Poke(old(space.mem), address, instruction)
                && space.jit == old(space.jit) + {relocated.value, trampoline.value}
    {
      hide RegistryOk, Poke, ReadBytes, IsMapped, RefEnabled, Registered, ToHexAddr;
      if address in bpByAddress {
        return Failure(AlreadySet);
      }
      EnsureHandlerInstalled();
      var originalBytes := ReadBytes(space.mem, address, |instruction|);
      if relocated.None? {
        return Failure(CannotRelocate);
      }
      space.AddCode(relocated.value);
      if trampoline.None? {
        space.ReleaseCode(relocated.value);
        assert space.jit == old(space.jit);
        return Failure(CannotAssemble);
      }
      space.AddCode(trampoline.value);
      var entry := Entry(address, trampoline.value, relocated.value, originalBytes, instruction, None);
      AddedOk(Breakpoints(), space.mem, old(space.jit), entry);
      space.MakeWritableAndPatch(address, instruction);
      bpById := bpById[nextBpId := entry];
      bpByAddress := bpByAddress[address := entry];
      nextBpId := nextBpId + 1;
      assert space.jit == old(space.jit) + Blocks(entry);
      return Success(ToHexAddr(nextBpId - 1));
    }

    method Remove(breakpointIdStr: string) returns (r: Result<(), BreakpointError>)
      requires Valid()
      modifies this, space, exceptions
      ensures Valid()
      ensures r == match ParseHexAddr(breakpointIdStr)
                   case Failure(e) => Failure(BadId(e))
                   case Success(_) => Success(())
      ensures var id := ParseHexAddr(breakpointIdStr);
              if id.Success? && id.value in old(bpById) then
                var e := old(bpById)[id.value];
                && Breakpoints() == Dropped(old(Breakpoints()), id.value)
                && space.mem == Poke(old(space.mem), e.address, e.original)
                && space.jit == old(space.jit) - Blocks(e)
                && TrapValue() == MaybeRemoved(old(TrapValue()), bpByAddress == map[])
              else
                && Breakpoints() == old(Breakpoints()) && space.mem == old(space.mem) && space.jit == old(space.jit)
                && TrapValue() == old(TrapValue())
    {
      hide RegistryOk, Poke, IsMapped, ParseHexAddr;
      var parsed := ParseHexAddr(breakpointIdStr);
      if parsed.Failure? {
        return Failure(BadId(parsed.error));
      }
      var bpId := parsed.value;
      if bpId !in bpById {
        return Success(());
      }
      var entry := bpById[bpId];
      DroppedOk(Breakpoints(), space.mem, space.jit, bpId);
      space.MakeWritableAndPatch(entry.address, entry.original);
      space.ReleaseCode(entry.trampoline);
      space.ReleaseCode(entry.relocated);
      assert space.jit == old(space.jit) - Blocks(entry);
      bpByAddress := bpByAddress - {entry.address};
      bpById := bpById - {bpId};
      MaybeRemoveHandler();
      return Success(());
    }

    method RemoveAll() returns (ghost order: seq<nat>)
      requires Valid()
      modifies this, space, exceptions
      ensures Valid()
      ensures Enumerates(old(bpById), order)
      ensures Breakpoints() == Cleared(old(Breakpoints()))
      ensures space.mem == RestoreAll(old(space.mem), PatchesIn(old(bpById), order))
      ensures space.jit == old(space.jit) - AllBlocks(old(bpById))
      ensures TrapValue() == MaybeRemoved(old(TrapValue()), true)
    {
      hide RegistryOk;
      ghost var breakpoints := Breakpoints();
      order := Interceptor.RestoreEntries(space, bpById, breakpoints);
      bpById, bpByAddress := map[], map[];
      ClearedOk(breakpoints, old(space.mem), old(space.jit), space.mem, space.jit);
      MaybeRemoveHandler();
    }

    /** The SIGTRAP callback: a trap at a live breakpoint resumes in its trampoline, others are not handled. */
    method SigtrapHandler(pc: u64) returns (newPc: Option<nat>)
      ensures var address := if pcAdvances then Wrap(pc - 1) else pc;
              newPc == if address in bpByAddress then Some(bpByAddress[address].trampoline) else None
    {
      var bpAddr := pc;
      if pcAdvances {
        bpAddr := StepBack(bpAddr);
      }
      if bpAddr !in bpByAddress {
        return None;
      }
      return Some(bpByAddress[bpAddr].trampoline);
    }
  }

  /** A trap that stops one byte past its breakpoint is found at the breakpoint, also across the address wrap. */
  lemma TrapFindsItsBreakpoint(address: u64)
    ensures StepBack(Wrap(address + |INT3|)) == address && StepBack(0) == 0xFFFF_FFFF_FFFF_FFFF
  {
  }

  /** What is written over the code: the one byte of INT3, or the instruction word of BRK #1, low byte first. */
  lemma TrapWords()
    ensures INT3 == [0xCC] && BRK == LeBytes(0xD420_0020, 4) && FromLe(BRK) == 0xD420_0020
  {
    assert LeBytes(0xD420_0020, 4) == [0x20] + LeBytes(0xD4_2000, 3);
    assert LeBytes(0xD4_2000, 3) == [0x00] + LeBytes(0xD420, 2);
    assert LeBytes(0xD420, 2) == [0x20] + LeBytes(0xD4, 1);
    assert LeBytes(0xD4, 1) == [0xD4] + LeBytes(0, 0);
    assert BRK[1..] == [0x00, 0x20, 0xD4] && BRK[1..][1..] == [0x20, 0xD4];
    assert BRK[1..][1..][1..] == [0xD4] && BRK[1..][1..][1..][1..] == [];
  }
}
