/** The operations that redirect a thread, together with the copier whose block they use: what native_interceptor.cc,
    native_breakpoint.cc and native_hw_breakpoint.cc do with the answer of buildRelocatedCode. */
module AttachedCode {
  import opened Results
  import opened Words
  import opened X86Machine
  import opened CodePatches
  import opened PatchRegistry
  import opened CodeMemory
  import opened CodeRelocator
  import opened HookTransparency
  import HexText
  import Interceptor
  import SB = SoftwareBreakpoint
  import HB = HardwareBreakpoint
  import Trampoline

  /** The allocator hands out memory where no code is mapped yet, with room for the block. */
  ghost predicate HasRoom(mem: Memory, block: Option<u64>, r: Result<Relocated, RelocationError>) {
    block.Some? && r.Success? ==>
      && block.value + |r.value.code| <= TWO_64
      && forall x :: block.value <= x < block.value + |r.value.code| ==> x !in mem
  }

  /** Code memory with the generated block in it. */
  ghost function WithBlock(mem: Memory, block: u64, r: Result<Relocated, RelocationError>): Memory
    requires r.Success?
  {
    Poke(mem, block, r.value.code)
  }

  /** All that a redirection changes in code memory: the patch, and the block where nothing was mapped. */
  ghost function Changed(source: u64, n: nat, block: u64, r: Result<Relocated, RelocationError>): iset<int>
    requires r.Success?
  {
    PatchBytes(source, n) + Span(block, block + |r.value.code|)
  }

  /** buildRelocatedCode: the block, if every instruction decodes and the allocation succeeds. */
  method Generate(isa: Isa, tools: Tools, mem: Memory, source: u64, minBytes: nat, block: Option<u64>)
    returns (relocated: Option<u64>)
    ensures relocated == if RelocateFrom(isa, tools, mem, source, 0, minBytes).Success? then block else None
  {
    var built := BuildRelocatedCode(isa, tools, mem, source, minBytes);
    relocated := if built.Failure? then None else block;
  }

  /** Writing a patch away from the block leaves the block in place. */
  lemma BlockStays(
      isa: Isa, tools: Tools, mem: Memory, source: u64, minBytes: nat, block: u64, patch: seq<byte>,
      d: Trampoline.Dispatch)
    requires var r := RelocateFrom(isa, tools, mem, source, 0, minBytes); r.Success? && HasRoom(mem, Some(block), r)
    requires source + |patch| <= TWO_64 && IsMapped(mem, source, |patch|) && d.relocated == block
    ensures var r := RelocateFrom(isa, tools, mem, source, 0, minBytes);
            var code' := WithBlock(Poke(mem, source, patch), block, r);
            && BlockInPlace(isa, tools, mem, source, minBytes, code', d) && Holds(code', source, patch)
            && SameBut(Changed(source, |patch|, block, r), mem, code')
  {
    hide RelocateFrom, Poke, Peek;
    var code := RelocateFrom(isa, tools, mem, source, 0, minBytes).value.code;
    var patched := Poke(mem, source, patch);
    var code' := Poke(patched, block, code);
    PokeHolds(patched, block, code);
    PokeHolds(mem, source, patch);
    forall x | source <= x < source + |patch|
      ensures Peek(patched, x) == Peek(code', x)
    {
      assert x in mem;
    }
    FetchAgrees(patched, code', source, |patch|);
  }

  /** Attaching a hook, from the instructions at the target to the situation of the transparency theorem. */
  method Attach(
      interceptor: Interceptor.NativeInterceptor, isa: Isa, tools: Tools, target: u64, block: Option<u64>,
      trampoline: Option<u64>, ghost d: Trampoline.Dispatch) returns (r: Result<string, Interceptor.HookError>)
    requires interceptor.Valid() && IsMapped(interceptor.space.mem, target, PATCH_SIZE) && target + PATCH_SIZE <= TWO_64
    requires TwoFresh(interceptor.space.jit, block, trampoline) && (block.Some? ==> d.relocated == block.value)
    requires HasRoom(interceptor.space.mem, block,
               RelocateFrom(isa, tools, interceptor.space.mem, target, 0, PATCH_SIZE))
    modifies interceptor, interceptor.space
    ensures interceptor.Valid()
    ensures var built := RelocateFrom(isa, tools, old(interceptor.space.mem), target, 0, PATCH_SIZE);
            && (built.Failure? <==> Stuck(isa, old(interceptor.space.mem), target, 14))
            && r == (if target in old(interceptor.hooksByTarget) then Failure(Interceptor.AlreadyHooked)
                     else if Stuck(isa, old(interceptor.space.mem), target, 14) || block.None?
                       then Failure(Interceptor.CannotRelocate)
                     else if trampoline.None? then Failure(Interceptor.CannotAssemble)
                     else Success(HexText.ToHexAddr(old(interceptor.nextHookId))))
            && (r.Failure? ==> interceptor.space.mem == old(interceptor.space.mem))
            && (r.Success? ==>
                  var code' := WithBlock(interceptor.space.mem, block.value, built);
                  && HookInstalled(isa, tools, old(interceptor.space.mem), target, code', trampoline.value, d)
                  && SameBut(PatchBytes(target, PATCH_SIZE), old(interceptor.space.mem), interceptor.space.mem)
                  && SameBut(Changed(target, PATCH_SIZE, block.value, built), old(interceptor.space.mem), code'))
  {
    hide RelocateFrom, HexText.ToHexAddr, Poke, Peek, RegistryOk, AbsoluteJump, BlockInPlace;
    ghost var mem := interceptor.space.mem;
    BytesConsumed(isa, tools, interceptor.space.mem, target, PATCH_SIZE);
    hide Stuck, Boundary;
    var relocated := Generate(isa, tools, interceptor.space.mem, target, PATCH_SIZE, block);
    r := interceptor.Attach(target, relocated, trampoline);
    if r.Success? {
      BlockStays(isa, tools, mem, target, PATCH_SIZE, block.value, AbsoluteJump(trampoline.value), d);
    }
  }

  /** Replacing a function: its target jumps to the replacement, and the address returned runs the original. */
  method Replace(
      interceptor: Interceptor.NativeInterceptor, isa: Isa, tools: Tools, target: u64, replacement: u64,
      block: Option<u64>, ghost d: Trampoline.Dispatch) returns (r: Result<u64, Interceptor.HookError>)
    requires interceptor.Valid() && IsMapped(interceptor.space.mem, target, PATCH_SIZE) && target + PATCH_SIZE <= TWO_64
    requires Fresh(interceptor.space.jit, block) && (block.Some? ==> d.relocated == block.value)
    requires HasRoom(interceptor.space.mem, block,
               RelocateFrom(isa, tools, interceptor.space.mem, target, 0, PATCH_SIZE))
    modifies interceptor, interceptor.space
    ensures interceptor.Valid()
    ensures var built := RelocateFrom(isa, tools, old(interceptor.space.mem), target, 0, PATCH_SIZE);
            && (built.Failure? <==> Stuck(isa, old(interceptor.space.mem), target, 14))
            && r == (if target in old(interceptor.hooksByTarget) then Failure(Interceptor.AlreadyHooked)
                     else if Stuck(isa, old(interceptor.space.mem), target, 14) || block.None?
                       then Failure(Interceptor.CannotRelocate)
                     else Success(block.value))
            && (r.Failure? ==> interceptor.space.mem == old(interceptor.space.mem))
            && (r.Success? ==>
                  var code' := WithBlock(interceptor.space.mem, block.value, built);
                  && HookInstalled(isa, tools, old(interceptor.space.mem), target, code', replacement, d)
                  && SameBut(PatchBytes(target, PATCH_SIZE), old(interceptor.space.mem), interceptor.space.mem)
                  && SameBut(Changed(target, PATCH_SIZE, block.value, built), old(interceptor.space.mem), code'))
  {
    hide RelocateFrom, Poke, Peek, RegistryOk, AbsoluteJump, BlockInPlace;
    ghost var mem := interceptor.space.mem;
    BytesConsumed(isa, tools, interceptor.space.mem, target, PATCH_SIZE);
    hide Stuck, Boundary;
    var relocated := Generate(isa, tools, interceptor.space.mem, target, PATCH_SIZE, block);
    r := interceptor.Replace(target, replacement, relocated);
    if r.Success? {
      BlockStays(isa, tools, mem, target, PATCH_SIZE, block.value, AbsoluteJump(replacement), d);
    }
  }

  /** Setting a software breakpoint: the trap is in place, a hit is sent to the trampoline, and the block re-executes
      the instructions under the trap. */
  method SetSoftware(
      software: SB.NativeSoftwareBreakpoint, isa: Isa, tools: Tools, address: u64, block: Option<u64>,
      trampoline: Option<u64>, ghost d: Trampoline.Dispatch) returns (r: Result<string, SB.BreakpointError>)
    requires software.Valid() && IsMapped(software.space.mem, address, |software.instruction|)
    requires address + |software.instruction| <= TWO_64
    requires TwoFresh(software.space.jit, block, trampoline) && (block.Some? ==> d.relocated == block.value)
    requires HasRoom(software.space.mem, block,
               RelocateFrom(isa, tools, software.space.mem, address, 0, |software.instruction|))
    modifies software, software.space, software.exceptions
    ensures software.Valid()
    ensures var built := RelocateFrom(isa, tools, old(software.space.mem), address, 0, |software.instruction|);
            && (built.Failure? <==> Stuck(isa, old(software.space.mem), address, |software.instruction|))
            && r == (if address in old(software.bpByAddress) then Failure(SB.AlreadySet)
                     else if Stuck(isa, old(software.space.mem), address, |software.instruction|) || block.None?
                     then Failure(SB.CannotRelocate)
                     else if trampoline.None? then Failure(SB.CannotAssemble)
                     else Success(HexText.ToHexAddr(old(software.nextBpId))))
            && (r.Failure? ==> software.space.mem == old(software.space.mem))
            && (r.Success? ==>
                  var code' := WithBlock(software.space.mem, block.value, built);
                  && address in software.bpByAddress && software.bpByAddress[address].trampoline == trampoline.value
                  && Holds(code', address, software.instruction)
                  && BlockInPlace(isa, tools, old(software.space.mem), address, |software.instruction|, code', d)
                  && SameBut(Changed(address, |software.instruction|, block.value, built), old(software.space.mem),
                       code'))
  {
    hide RelocateFrom, HexText.ToHexAddr, Poke, Peek, RegistryOk, BlockInPlace, SB.Ensured;
    ghost var mem := software.space.mem;
    BytesConsumed(isa, tools, mem, address, |software.instruction|);
    hide Stuck, Boundary;
    var relocated := Generate(isa, tools, software.space.mem, address, |software.instruction|, block);
    r := software.Set(address, relocated, trampoline);
    if r.Success? {
      BlockStays(isa, tools, mem, address, |software.instruction|, block.value, software.instruction, d);
    }
  }

  /** Setting a hardware breakpoint: nothing is written to code, and for an execute breakpoint a hit is sent to the
      trampoline, whose block re-executes the instruction at the address. */
  method SetHardware(
      hardware: HB.NativeHardwareBreakpoint, isa: Isa, tools: Tools, address: u64, typeStr: string, size: int,
      block: Option<u64>, trampoline: Option<u64>, ghost d: Trampoline.Dispatch)
    returns (r: Result<string, HB.HardwareError>)
    requires hardware.Valid()
    requires TwoFresh(hardware.space.jit, block, trampoline) && (block.Some? ==> d.relocated == block.value)
    requires HasRoom(hardware.space.mem, block, RelocateFrom(isa, tools, hardware.space.mem, address, 0, 1))
    modifies hardware, hardware.space`jit, hardware.exceptions
    ensures hardware.Valid()
    ensures var built := RelocateFrom(isa, tools, hardware.space.mem, address, 0, 1);
            var executes := typeStr == "execute";
            && (built.Failure? <==> Stuck(isa, hardware.space.mem, address, 1))
            && r == (if !executes && typeStr != "write" && typeStr != "readwrite" then Failure(HB.InvalidType)
                     else if address in old(hardware.hwByAddress) then Failure(HB.AlreadySet)
                     else if |old(hardware.hwByAddress)| >= 4 then Failure(HB.TooMany)
                     else if executes && (Stuck(isa, hardware.space.mem, address, 1) || block.None?)
                       then Failure(HB.CannotRelocate)
                     else if executes && trampoline.None? then Failure(HB.CannotAssemble)
                     else Success(HexText.ToHexAddr(old(hardware.nextHwId))))
            && (r.Success? && executes ==>
                  var code' := WithBlock(hardware.space.mem, block.value, built);
                  && address in hardware.hwByAddress && HB.ExecutesAt(hardware.hwByAddress[address])
                  && hardware.hwByAddress[address].trampoline == trampoline.value
                  && BlockInPlace(isa, tools, hardware.space.mem, address, 1, code', d)
                  && SameBut(Changed(address, 0, block.value, built), hardware.space.mem, code'))
  {
    hide RelocateFrom, HexText.ToHexAddr, Poke, Peek, RegistryOk, BlockInPlace, HB.Ensured, HB.SetSlot, HB.Agree,
      HB.NoBytes, HB.Guards, HB.Names, HB.DebugRegisters.Wants;
    BytesConsumed(isa, tools, hardware.space.mem, address, 1);
    hide Stuck, Boundary;
    var relocated := Generate(isa, tools, hardware.space.mem, address, 1, block);
    r := hardware.Set(address, typeStr, size, relocated, trampoline);
    if r.Success? && relocated.Some? {
      ghost var built := RelocateFrom(isa, tools, hardware.space.mem, address, 0, 1);
      BlockStays(isa, tools, hardware.space.mem, address, 1, block.value, [], d);
      assert Poke(hardware.space.mem, address, []) == hardware.space.mem by {
        NothingPatched(hardware.space.mem, address);
      }
    }
  }

  lemma NothingPatched(mem: Memory, a: u64)
    ensures Poke(mem, a, []) == mem
  {
  }
}
