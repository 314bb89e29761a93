/** An installed hook end to end: patch, trampoline, relocated block, and back into the hooked function. */
module HookTransparency {
  import opened Results
  import opened Words
  import opened X86Machine
  import opened CodeRelocator
  import Trampoline

  // ---------- Instructions see only what they read ----------

  /** Data addresses an opaque instruction reads and writes, from its bytes and the registers. */
  datatype Footprint = Footprint(
    readSet: (seq<byte>, RegisterFile) -> set<int>,
    writeSet: (seq<byte>, RegisterFile) -> set<int>)

  ghost predicate AgreeOn(addresses: set<int>, m: Memory, m': Memory) {
    forall a :: a in addresses ==> Peek(m, a) == Peek(m', a)
  }

  ghost function Minus(stale: iset<int>, written: set<int>): iset<int> {
    iset a | a in stale && a !in written
  }

  /** Registers and flags agree, and so does memory outside the stale addresses. */
  ghost predicate AgreeBut(stale: iset<int>, c: Cpu, c': Cpu) {
    c.regs == c'.regs && c.flags == c'.flags && SameBut(stale, c.mem, c'.mem)
  }

  ghost predicate SameTransfer(o: Outcome, o': Outcome) {
    (o.Goto? <==> o'.Goto?) && (o.Goto? ==> o.pc == o'.pc)
  }

  /** An instruction changes memory only where it writes, and acts alike on processors that agree on what it reads. */
  ghost predicate Framed(isa: Isa, fp: Footprint) {
    && (forall bytes: seq<byte>, c: Cpu, a: int {:trigger isa.effect(bytes, c), Peek(c.mem, a)} ::
          a !in fp.writeSet(bytes, c.regs) ==> Peek(isa.effect(bytes, c).cpu.mem, a) == Peek(c.mem, a))
    && (forall bytes: seq<byte>, c: Cpu, c': Cpu {:trigger isa.effect(bytes, c), isa.effect(bytes, c')} ::
          c.regs == c'.regs && c.flags == c'.flags && AgreeOn(fp.readSet(bytes, c.regs), c.mem, c'.mem) ==>
            var o, o' := isa.effect(bytes, c), isa.effect(bytes, c');
            && SameTransfer(o, o') && o.cpu.regs == o'.cpu.regs && o.cpu.flags == o'.cpu.flags
            && AgreeOn(fp.writeSet(bytes, c.regs), o.cpu.mem, o'.cpu.mem))
  }

  lemma EffectAgrees(isa: Isa, fp: Footprint, stale: iset<int>, bytes: seq<byte>, c: Cpu, c': Cpu)
    requires Framed(isa, fp) && AgreeBut(stale, c, c')
    requires forall a :: a in fp.readSet(bytes, c.regs) ==> a !in stale
    ensures var o, o' := isa.effect(bytes, c), isa.effect(bytes, c');
            SameTransfer(o, o') &&
            AgreeBut(Minus(stale, fp.writeSet(bytes, c.regs)), o.cpu, o'.cpu)
  {
    var o, o' := isa.effect(bytes, c), isa.effect(bytes, c');
    assert AgreeOn(fp.readSet(bytes, c.regs), c.mem, c'.mem);
    forall a | a !in Minus(stale, fp.writeSet(bytes, c.regs))
      ensures Peek(o.cpu.mem, a) == Peek(o'.cpu.mem, a)
    {
      if a !in fp.writeSet(bytes, c.regs) {
        assert Peek(c.mem, a) == Peek(c'.mem, a);
      }
    }
  }

  /** Running the block from `cpu`, no instruction reads a stale address before the block has written it. */
  ghost predicate ReadsFresh(
      isa: Isa, fp: Footprint, code: Memory, source: u64, off: nat, minBytes: nat, cpu: Cpu, stale: iset<int>)
    decreases minBytes - off
  {
    var addr := Wrap(source + off);
    var size := InsnSize(isa, code, addr);
    off < minBytes && size > 0 ==>
      if InsnAt(isa, code, addr).Plain? then
        var bytes := Fetch(code, addr, size);
        && (forall a :: a in fp.readSet(bytes, cpu.regs) ==> a !in stale)
        && (isa.effect(bytes, cpu).Fall? ==>
              ReadsFresh(isa, fp, code, source, off + size, minBytes, isa.effect(bytes, cpu).cpu,
                         Minus(stale, fp.writeSet(bytes, cpu.regs))))
      else
        ReadsFresh(isa, fp, code, source, off + size, minBytes, cpu, stale)
  }

  /** The addresses still stale when the block is left: those it has not written. */
  ghost function StaleAfter(
      isa: Isa, fp: Footprint, code: Memory, source: u64, off: nat, minBytes: nat, cpu: Cpu,
      stale: iset<int>): iset<int>
    decreases minBytes - off
  {
    var addr := Wrap(source + off);
    var size := InsnSize(isa, code, addr);
    if off >= minBytes || size == 0 then stale
    else if InsnAt(isa, code, addr).Plain? then
      var bytes := Fetch(code, addr, size);
      var o := isa.effect(bytes, cpu);
      var left := Minus(stale, fp.writeSet(bytes, cpu.regs));
      if o.Goto? then left else StaleAfter(isa, fp, code, source, off + size, minBytes, o.cpu, left)
    else if Leaves(isa, code, addr, cpu) then stale
    else StaleAfter(isa, fp, code, source, off + size, minBytes, cpu, stale)
  }

  lemma {:induction false} StaleShrinks(
      isa: Isa, fp: Footprint, code: Memory, source: u64, off: nat, minBytes: nat, cpu: Cpu, stale: iset<int>)
    ensures forall a :: a in StaleAfter(isa, fp, code, source, off, minBytes, cpu, stale) ==> a in stale
    decreases minBytes - off
  {
    hide InsnSize, InsnAt, Fetch, Leaves;
    var addr := Wrap(source + off);
    var size := InsnSize(isa, code, addr);
    if off < minBytes && size > 0 {
      if InsnAt(isa, code, addr).Plain? {
        var bytes := Fetch(code, addr, size);
        var o := isa.effect(bytes, cpu);
        if o.Fall? {
          StaleShrinks(isa, fp, code, source, off + size, minBytes, o.cpu, Minus(stale, fp.writeSet(bytes, cpu.regs)));
        }
      } else if !Leaves(isa, code, addr, cpu) {
        StaleShrinks(isa, fp, code, source, off + size, minBytes, cpu, stale);
      }
    }
  }

  /** Blocks started from agreeing processors leave at the same place with processors that agree but for what the
      block did not write. */
  lemma {:induction false} ExitAgrees(
      isa: Isa, fp: Footprint, code: Memory, source: u64, off: nat, minBytes: nat, c: Cpu, c': Cpu, stale: iset<int>)
    requires Framed(isa, fp) && AgreeBut(stale, c, c')
    requires ReadsFresh(isa, fp, code, source, off, minBytes, c, stale)
    requires ExitState(isa, code, source, off, minBytes, c).Some?
    ensures var e := ExitState(isa, code, source, off, minBytes, c);
            var e' := ExitState(isa, code, source, off, minBytes, c');
            && e'.Some? && e.value.pc == e'.value.pc
            && AgreeBut(StaleAfter(isa, fp, code, source, off, minBytes, c, stale), e.value.cpu, e'.value.cpu)
    decreases minBytes - off
  {
    hide Framed, InsnSize, InsnAt, Fetch, Execute, AgreeBut;
    var addr := Wrap(source + off);
    if off < minBytes {
      var size := InsnSize(isa, code, addr);
      if size > 0 {
        if InsnAt(isa, code, addr).Plain? {
          PlainStep(isa, fp, code, source, off, minBytes, c, c', stale);
        } else {
          SameFlags(stale, c, c');
          ExitTransfer(isa, code, source, off, minBytes, c, c');
          if !Leaves(isa, code, addr, c) {
            ExitAgrees(isa, fp, code, source, off + size, minBytes, c, c', stale);
          }
        }
      }
    }
  }

  lemma SameFlags(stale: iset<int>, c: Cpu, c': Cpu)
    requires AgreeBut(stale, c, c')
    ensures c.flags == c'.flags
  {
  }

  /** Whether the instruction transfers control. */
  predicate Leaves(isa: Isa, code: Memory, addr: u64, c: Cpu) {
    var o := Execute(isa, code, State(addr, c));
    o.Some? && o.value.Goto?
  }

  /** A jump or branch leaves the processor as it is, and where it goes depends on the flags only. */
  lemma ExitTransfer(isa: Isa, code: Memory, source: u64, off: nat, minBytes: nat, c: Cpu, c': Cpu)
    requires off < minBytes && c.flags == c'.flags
    requires InsnSize(isa, code, Wrap(source + off)) > 0 && !InsnAt(isa, code, Wrap(source + off)).Plain?
    ensures var addr := Wrap(source + off); var size := InsnSize(isa, code, addr);
            var e := ExitState(isa, code, source, off, minBytes, c);
            var e' := ExitState(isa, code, source, off, minBytes, c');
            if Leaves(isa, code, addr, c) then
              e.Some? && e'.Some? && e.value.pc == e'.value.pc && e.value.cpu == c && e'.value.cpu == c'
            else
              && e == ExitState(isa, code, source, off + size, minBytes, c)
              && e' == ExitState(isa, code, source, off + size, minBytes, c')
  {
    SizeAgrees(isa, code, Wrap(source + off));
    hide InsnSize, InsnAt, Fetch, Quad, Condition;
  }

  lemma ExitPlain(isa: Isa, code: Memory, source: u64, off: nat, minBytes: nat, c: Cpu)
    requires off < minBytes
    requires InsnSize(isa, code, Wrap(source + off)) > 0 && InsnAt(isa, code, Wrap(source + off)).Plain?
    ensures var addr := Wrap(source + off); var size := InsnSize(isa, code, addr);
            var o := isa.effect(Fetch(code, addr, size), c);
            ExitState(isa, code, source, off, minBytes, c) ==
              if o.Goto? then Some(State(o.pc, o.cpu)) else ExitState(isa, code, source, off + size, minBytes, o.cpu)
  {
    var addr := Wrap(source + off);
    var size := InsnSize(isa, code, addr);
    SizeAgrees(isa, code, addr);
    hide InsnSize, InsnAt, Fetch;
    assert Execute(isa, code, State(addr, c)) == Some(isa.effect(Fetch(code, addr, size), c));
    hide Execute;
  }

  lemma StalePlain(
      isa: Isa, fp: Footprint, code: Memory, source: u64, off: nat, minBytes: nat, c: Cpu, stale: iset<int>)
    requires off < minBytes
    requires InsnSize(isa, code, Wrap(source + off)) > 0 && InsnAt(isa, code, Wrap(source + off)).Plain?
    requires ReadsFresh(isa, fp, code, source, off, minBytes, c, stale)
    ensures var addr := Wrap(source + off); var size := InsnSize(isa, code, addr); var bytes := Fetch(code, addr, size);
            var o := isa.effect(bytes, c); var left := Minus(stale, fp.writeSet(bytes, c.regs));
            && (forall a :: a in fp.readSet(bytes, c.regs) ==> a !in stale)
            && (o.Fall? ==> ReadsFresh(isa, fp, code, source, off + size, minBytes, o.cpu, left))
            && StaleAfter(isa, fp, code, source, off, minBytes, c, stale) ==
                 if o.Goto? then left else StaleAfter(isa, fp, code, source, off + size, minBytes, o.cpu, left)
  {
    hide InsnSize, InsnAt, Fetch, Leaves, Minus;
  }

  lemma {:induction false} PlainStep(
      isa: Isa, fp: Footprint, code: Memory, source: u64, off: nat, minBytes: nat, c: Cpu, c': Cpu, stale: iset<int>)
    requires Framed(isa, fp) && AgreeBut(stale, c, c') && off < minBytes
    requires InsnSize(isa, code, Wrap(source + off)) > 0 && InsnAt(isa, code, Wrap(source + off)).Plain?
    requires ReadsFresh(isa, fp, code, source, off, minBytes, c, stale)
    requires ExitState(isa, code, source, off, minBytes, c).Some?
    ensures var e := ExitState(isa, code, source, off, minBytes, c);
            var e' := ExitState(isa, code, source, off, minBytes, c');
            && e'.Some? && e.value.pc == e'.value.pc
            && AgreeBut(StaleAfter(isa, fp, code, source, off, minBytes, c, stale), e.value.cpu, e'.value.cpu)
    decreases minBytes - off, 0
  {
    hide Framed, InsnSize, InsnAt, Fetch, AgreeBut, Minus, ExitState, ReadsFresh, StaleAfter;
    var addr := Wrap(source + off);
    var size := InsnSize(isa, code, addr);
    var bytes := Fetch(code, addr, size);
    var o, o' := isa.effect(bytes, c), isa.effect(bytes, c');
    ExitPlain(isa, code, source, off, minBytes, c);
    ExitPlain(isa, code, source, off, minBytes, c');
    StalePlain(isa, fp, code, source, off, minBytes, c, stale);
    EffectAgrees(isa, fp, stale, bytes, c, c');
    if o.Fall? {
      ExitAgrees(isa, fp, code, source, off + size, minBytes, o.cpu, o'.cpu, Minus(stale, fp.writeSet(bytes, c.regs)));
    }
  }

  // ---------- The hook ----------

  /** The block relocated from the instructions at `source` lies where the trampoline jumps to. */
  ghost predicate BlockInPlace(
      isa: Isa, tools: Tools, code: Memory, source: u64, minBytes: nat, code': Memory, d: Trampoline.Dispatch)
  {
    && RelocateFrom(isa, tools, code, source, 0, minBytes).Success?
    && Holds(code', d.relocated, RelocateFrom(isa, tools, code, source, 0, minBytes).value.code)
  }

  /** In `code'`, the patch at `target` leads to the trampoline, and the relocated block lies where the
      trampoline jumps to. */
  ghost predicate HookInstalled(
      isa: Isa, tools: Tools, code: Memory, target: u64, code': Memory, trampoline: u64, d: Trampoline.Dispatch)
  {
    BlockInPlace(isa, tools, code, target, PATCH_SIZE, code', d) && Holds(code', target, AbsoluteJump(trampoline))
  }

  /** What hooking may change in memory: the bytes of the trampoline's snapshot and what the callbacks write. */
  ghost function Touched(cpu: Cpu, writes: iset<int>): iset<int> {
    Trampoline.SnapshotBytes(cpu) + writes
  }

  /** The trampoline and then the relocated block, for any number of instructions moved: a thread that enters the
      trampoline comes out where the original code leaves the moved instructions, with the same registers and flags
      and the same memory but for what the trampoline and the callbacks wrote and the block did not. */
  lemma TrampolineThenBlock(
      isa: Isa, tools: Tools, fp: Footprint, code: Memory, source: u64, minBytes: nat,
      code': Memory, call: Trampoline.Callee, d: Trampoline.Dispatch, cpu: Cpu, writes: iset<int>)
    requires ReadsOwnBytes(isa) && Framed(isa, fp)
    requires BlockRelocatable(isa, tools, code, source, 0, minBytes)
    requires BlockInPlace(isa, tools, code, source, minBytes, code', d)
    requires Trampoline.FRAME + 40 <= Trampoline.Sp(cpu)
    requires Trampoline.CallbacksOk(call, d, cpu, writes)
    requires Spares(writes, Trampoline.ContextOf(cpu), Trampoline.Sp(cpu))
    requires ReadsFresh(isa, fp, code, source, 0, minBytes, cpu, Touched(cpu, writes))
    ensures var original := ExitState(isa, code, source, 0, minBytes, cpu);
            var t := Trampoline.WholeRun(call, d, cpu);
            && original.Some? && Reaches(isa, code, State(source, cpu), original.value)
            && t.exit == Some(d.relocated)
            && exists after: Cpu ::
                 && Reaches(isa, code', State(d.relocated, t.cpu), State(original.value.pc, after))
                 && AgreeBut(StaleAfter(isa, fp, code, source, 0, minBytes, cpu, Touched(cpu, writes)),
                             original.value.cpu, after)
  {
    var t := Trampoline.WholeRun(call, d, cpu);
    var stale := Touched(cpu, writes);
    Trampoline.TrampolineTransparent(call, d, cpu, writes);
    assert AgreeBut(stale, cpu, t.cpu);
    hide ReadsOwnBytes, Framed, BlockRelocatable, ReadsFresh, Step, Run, Reaches, ExitState, RelocateFrom, Fetch,
      StaleAfter, AgreeBut, Trampoline.WholeRun, Trampoline.CallbacksOk;
    RelocationPreservesMeaning(isa, tools, code, source, minBytes, code', d.relocated, cpu);
    RelocationPreservesMeaning(isa, tools, code, source, minBytes, code', d.relocated, t.cpu);
    ExitAgrees(isa, fp, code, source, 0, minBytes, cpu, t.cpu, stale);
    var after := ExitState(isa, code, source, 0, minBytes, t.cpu).value;
    assert after == State(after.pc, after.cpu);
  }

  /** A thread that reaches a hooked function goes through the patch, the trampoline and the relocated block,
      and comes out where the unhooked function leaves its patched instructions. */
  lemma HookTransparent(
      isa: Isa, tools: Tools, fp: Footprint, code: Memory, target: u64,
      code': Memory, trampoline: u64, call: Trampoline.Callee, d: Trampoline.Dispatch, cpu: Cpu, writes: iset<int>)
    requires ReadsOwnBytes(isa) && Framed(isa, fp)
    requires BlockRelocatable(isa, tools, code, target, 0, PATCH_SIZE)
    requires HookInstalled(isa, tools, code, target, code', trampoline, d)
    requires Trampoline.FRAME + 40 <= Trampoline.Sp(cpu)
    requires Trampoline.CallbacksOk(call, d, cpu, writes)
    requires Spares(writes, Trampoline.ContextOf(cpu), Trampoline.Sp(cpu))
    requires ReadsFresh(isa, fp, code, target, 0, PATCH_SIZE, cpu, Touched(cpu, writes))
    ensures var unhooked := ExitState(isa, code, target, 0, PATCH_SIZE, cpu);
            var t := Trampoline.WholeRun(call, d, cpu);
            && unhooked.Some? && Reaches(isa, code, State(target, cpu), unhooked.value)
            && Step(isa, code', State(target, cpu)) == Some(State(trampoline, cpu))
            && t.exit == Some(d.relocated)
            && exists after: Cpu ::
                 && Reaches(isa, code', State(d.relocated, t.cpu), State(unhooked.value.pc, after))
                 && AgreeBut(StaleAfter(isa, fp, code, target, 0, PATCH_SIZE, cpu, Touched(cpu, writes)),
                             unhooked.value.cpu, after)
  {
    AbsoluteJumpGoes(isa, code', target, trampoline, cpu);
    hide ReadsOwnBytes, Framed, BlockRelocatable, BlockInPlace, ReadsFresh, Step, Run, Reaches, ExitState, StaleAfter,
      AgreeBut, Trampoline.WholeRun, Trampoline.CallbacksOk;
    TrampolineThenBlock(isa, tools, fp, code, target, PATCH_SIZE, code', call, d, cpu, writes);
  }

  // ---------- Back in the hooked function ----------

  /** The bytes a patch of `n` bytes covers. */
  ghost function PatchBytes(target: u64, n: nat): iset<int> {
    Span(target, target + n)
  }

  function At(a: int, i: int): u64 {
    Wrap(a + i)
  }

  /** None of the `n` bytes at `a` was changed. */
  ghost predicate Avoids(changed: iset<int>, a: int, n: nat) {
    forall i :: 0 <= i < n ==> At(a, i) !in changed
  }

  lemma FetchOutside(changed: iset<int>, code: Memory, code': Memory, a: int, n: nat)
    requires SameBut(changed, code, code') && Avoids(changed, a, n)
    ensures Fetch(code', a, n) == Fetch(code, a, n)
  {
    forall i | 0 <= i < n
      ensures Fetch(code', a, n)[i] == Fetch(code, a, n)[i]
    {
      assert At(a, i) == Wrap(a + i);
    }
  }

  /** Writing the patch is what installs the hook, once the relocated block is in memory away from the patch; no
      byte outside the patch changes. */
  lemma PatchInstallsHook(isa: Isa, tools: Tools, code: Memory, target: u64, trampoline: u64, d: Trampoline.Dispatch)
    requires target + PATCH_SIZE <= TWO_64
    requires RelocateFrom(isa, tools, code, target, 0, PATCH_SIZE).Success?
    requires var block := RelocateFrom(isa, tools, code, target, 0, PATCH_SIZE).value.code;
             Holds(code, d.relocated, block) && Avoids(PatchBytes(target, PATCH_SIZE), d.relocated, |block|)
    ensures var code' := Poke(code, target, AbsoluteJump(trampoline));
            && HookInstalled(isa, tools, code, target, code', trampoline, d)
            && SameBut(PatchBytes(target, PATCH_SIZE), code, code')
  {
    hide RelocateFrom, AbsoluteJump, Avoids, Fetch;
    PokeHolds(code, target, AbsoluteJump(trampoline));
    var code' := Poke(code, target, AbsoluteJump(trampoline));
    var block := RelocateFrom(isa, tools, code, target, 0, PATCH_SIZE).value.code;
    FetchOutside(PatchBytes(target, PATCH_SIZE), code, code', d.relocated, |block|);
  }

  /** The instruction at `pc` has none of the changed bytes, nor has the literal it jumps through; where nothing
      decodes, that goes for all the bytes the decoder looks at. */
  ghost predicate InsnAvoids(isa: Isa, code: Memory, changed: iset<int>, pc: u64) {
    var insn := InsnAt(isa, code, pc);
    && Avoids(changed, pc, if insn.Invalid? then MAX_INSN else insn.size)
    && (insn.JumpVia? ==> Avoids(changed, insn.slot, 8))
  }

  /** An original run of `n` steps that never executes a changed byte. */
  ghost predicate RunsOutside(isa: Isa, code: Memory, changed: iset<int>, s: State, n: nat)
    decreases n
  {
    n > 0 ==>
      && InsnAvoids(isa, code, changed, s.pc)
      && (Step(isa, code, s).Some? ==> RunsOutside(isa, code, changed, Step(isa, code, s).value, n - 1))
  }

  /** Leaving the block by running off its end leads outside the patched bytes. */
  lemma FallThroughIsOutside(isa: Isa, tools: Tools, code: Memory, target: u64)
    requires target + PATCH_SIZE + 2 * MAX_INSN <= TWO_64
    requires RelocateFrom(isa, tools, code, target, 0, PATCH_SIZE).Success?
    ensures var consumed := RelocateFrom(isa, tools, code, target, 0, PATCH_SIZE).value.bytesConsumed;
            && PATCH_SIZE <= consumed < PATCH_SIZE + MAX_INSN
            && Avoids(PatchBytes(target, PATCH_SIZE), Wrap(target + consumed), MAX_INSN)
  {
    hide InsnAt, Boundary, InsnSize, RelocateFrom;
    BytesConsumed(isa, tools, code, target, PATCH_SIZE);
    var consumed := RelocateFrom(isa, tools, code, target, 0, PATCH_SIZE).value.bytesConsumed;
    var prev := PreviousBoundary(isa, code, target, consumed);
    assert prev < PATCH_SIZE;
    PastPatch(target, target + consumed);
  }

  lemma PreviousBoundary(isa: Isa, code: Memory, source: u64, off: nat) returns (prev: nat)
    requires Boundary(isa, code, source, off) && off > 0
    ensures prev < off < prev + MAX_INSN && Boundary(isa, code, source, prev)
  {
    hide InsnAt;
    prev :| prev < off && Boundary(isa, code, source, prev) && IsInsn(isa, code, Wrap(source + prev), off - prev);
    SizeExact(isa, code, Wrap(source + prev));
  }

  lemma PastPatch(target: u64, a: int)
    requires target + PATCH_SIZE <= a && a + MAX_INSN <= TWO_64
    ensures Avoids(PatchBytes(target, PATCH_SIZE), Wrap(a), MAX_INSN)
  {
  }

  /** Away from the changed bytes, the hooked program runs exactly as the unhooked one. */
  lemma {:induction false} OutsideRunsAgree(isa: Isa, code: Memory, code': Memory, changed: iset<int>, s: State, n: nat)
    requires ReadsOwnBytes(isa) && SameBut(changed, code, code')
    requires RunsOutside(isa, code, changed, s, n)
    ensures Run(isa, code', s, n) == Run(isa, code, s, n)
    decreases n
  {
    hide InsnAvoids;
    if n > 0 {
      OutsideStepAgrees(isa, code, code', changed, s);
      hide Step, InsnAt, ReadsOwnBytes, SameBut;
      if Step(isa, code, s).Some? {
        OutsideRunsAgree(isa, code, code', changed, Step(isa, code, s).value, n - 1);
      }
    }
  }

  lemma OutsideStepAgrees(isa: Isa, code: Memory, code': Memory, changed: iset<int>, s: State)
    requires ReadsOwnBytes(isa) && SameBut(changed, code, code') && InsnAvoids(isa, code, changed, s.pc)
    ensures Step(isa, code', s) == Step(isa, code, s)
  {
    SameInsn(isa, code, code', changed, s.pc);
    var insn := InsnAt(isa, code, s.pc);
    if insn.JumpVia? {
      FetchOutside(changed, code, code', insn.slot, 8);
    }
    hide InsnAt, ReadsOwnBytes, SameBut, Fetch, Condition, Avoids;
  }

  /** Away from the changed bytes the same instruction is decoded. */
  lemma SameInsn(isa: Isa, code: Memory, code': Memory, changed: iset<int>, pc: u64)
    requires ReadsOwnBytes(isa) && SameBut(changed, code, code') && InsnAvoids(isa, code, changed, pc)
    ensures InsnAt(isa, code', pc) == InsnAt(isa, code, pc)
    ensures Fetch(code', pc, InsnAt(isa, code, pc).size) == Fetch(code, pc, InsnAt(isa, code, pc).size)
  {
    var insn := InsnAt(isa, code, pc);
    var w, w' := Fetch(code, pc, MAX_INSN), Fetch(code', pc, MAX_INSN);
    var n := if insn.Invalid? then MAX_INSN else insn.size;
    FetchOutside(changed, code, code', pc, n);
    assert w[..n] == Fetch(code, pc, n) && w'[..n] == Fetch(code', pc, n);
    hide Fetch, SameBut, Avoids;
    if insn.Invalid? {
      assert w == w';
    } else {
      DecodesAlike(isa, pc, w, w');
    }
  }

  /** Windows that agree on the bytes of an instruction decode to it. */
  lemma DecodesAlike(isa: Isa, pc: u64, w: seq<byte>, w': seq<byte>)
    requires ReadsOwnBytes(isa) && |w| == |w'| == MAX_INSN
    requires !Decode(isa, pc, w).Invalid? && w[..Decode(isa, pc, w).size] == w'[..Decode(isa, pc, w).size]
    ensures Decode(isa, pc, w') == Decode(isa, pc, w)
  {
    var insn := Decode(isa, pc, w);
    var n := insn.size;
    assert forall i :: 0 <= i < n ==> w[i] == w[..n][i] && w'[i] == w'[..n][i];
    match insn
    case Jump(5, _) => assert w[1..5] == w'[1..5];
    case Branch(_, 6, _) => assert w[2..6] == w'[2..6];
    case JumpVia(_, _) => assert w[2..6] == w'[2..6];
    case _ =>
  }

  /** A run of `n` steps in which no instruction reads a stale address before the run has written it. */
  ghost predicate FreshRun(isa: Isa, fp: Footprint, code: Memory, s: State, n: nat, stale: iset<int>)
    decreases n
  {
    n > 0 ==>
      && ReadsNothingStale(isa, fp, code, s, stale)
      && (Step(isa, code, s).Some? ==>
            FreshRun(isa, fp, code, Step(isa, code, s).value, n - 1, StaleAfterStep(isa, fp, code, s, stale)))
  }

  ghost predicate ReadsNothingStale(isa: Isa, fp: Footprint, code: Memory, s: State, stale: iset<int>) {
    var insn := InsnAt(isa, code, s.pc);
    insn.Plain? ==> forall a :: a in fp.readSet(Fetch(code, s.pc, insn.size), s.cpu.regs) ==> a !in stale
  }

  ghost function StaleAfterStep(isa: Isa, fp: Footprint, code: Memory, s: State, stale: iset<int>): iset<int> {
    var insn := InsnAt(isa, code, s.pc);
    if insn.Plain? then Minus(stale, fp.writeSet(Fetch(code, s.pc, insn.size), s.cpu.regs)) else stale
  }

  ghost function StaleAfterRun(isa: Isa, fp: Footprint, code: Memory, s: State, n: nat, stale: iset<int>): iset<int>
    decreases n
  {
    if n == 0 || Step(isa, code, s).None? then stale
    else StaleAfterRun(isa, fp, code, Step(isa, code, s).value, n - 1, StaleAfterStep(isa, fp, code, s, stale))
  }

  /** One step from agreeing states. */
  lemma StepAgrees(isa: Isa, fp: Footprint, code: Memory, s: State, s': State, stale: iset<int>)
    requires Framed(isa, fp) && ReadsNothingStale(isa, fp, code, s, stale)
    requires s.pc == s'.pc && AgreeBut(stale, s.cpu, s'.cpu) && Step(isa, code, s).Some?
    ensures var t, t' := Step(isa, code, s), Step(isa, code, s');
            && t'.Some? && t.value.pc == t'.value.pc
            && AgreeBut(StaleAfterStep(isa, fp, code, s, stale), t.value.cpu, t'.value.cpu)
  {
    var insn := InsnAt(isa, code, s.pc);
    if insn.Plain? {
      EffectAgrees(isa, fp, stale, Fetch(code, s.pc, insn.size), s.cpu, s'.cpu);
    }
    hide Framed, InsnAt, Fetch, Condition, Quad, AgreeBut;
    SameFlags(stale, s.cpu, s'.cpu);
  }

  /** Where the unhooked process goes on without executing a changed byte, the hooked one follows it step by step. */
  lemma {:induction false} HookedRunFollows(
      isa: Isa, fp: Footprint, code: Memory, code': Memory, changed: iset<int>, s: State, s': State, stale: iset<int>,
      n: nat)
    requires ReadsOwnBytes(isa) && Framed(isa, fp)
    requires SameBut(changed, code, code') && RunsOutside(isa, code, changed, s, n)
    requires FreshRun(isa, fp, code, s, n, stale) && Run(isa, code, s, n).Some?
    requires s.pc == s'.pc && AgreeBut(stale, s.cpu, s'.cpu)
    ensures var t, t' := Run(isa, code, s, n), Run(isa, code', s', n);
            && t'.Some? && t.value.pc == t'.value.pc
            && AgreeBut(StaleAfterRun(isa, fp, code, s, n, stale), t.value.cpu, t'.value.cpu)
    decreases n
  {
    hide ReadsOwnBytes, Framed, SameBut, InsnAvoids, ReadsNothingStale, StaleAfterStep, AgreeBut, InsnAt, Step;
    if n > 0 {
      StepAgrees(isa, fp, code, s, s', stale);
      OutsideStepAgrees(isa, code, code', changed, s');
      HookedRunFollows(isa, fp, code, code', changed, Step(isa, code, s).value, Step(isa, code', s').value,
                       StaleAfterStep(isa, fp, code, s, stale), n - 1);
    }
  }

  /** What an original run of `n` steps behind the moved instructions must keep to, so that a redirected thread can
      follow it: it executes no changed byte and reads nothing that redirecting touched before writing it. */
  ghost predicate GoesOn(
      isa: Isa, fp: Footprint, code: Memory, source: u64, minBytes: nat, changed: iset<int>, cpu: Cpu,
      touched: iset<int>, n: nat)
  {
    var exit := ExitState(isa, code, source, 0, minBytes, cpu);
    exit.Some? ==>
      && RunsOutside(isa, code, changed, exit.value, n) && Run(isa, code, exit.value, n).Some?
      && FreshRun(isa, fp, code, exit.value, n, StaleAfter(isa, fp, code, source, 0, minBytes, cpu, touched))
  }

  /** The redirected thread, from the block on, reaches where the original goes from its moved instructions in `n`
      steps, with a processor that agrees but for what redirecting touched and the original did not write. */
  ghost predicate Follows(
      isa: Isa, fp: Footprint, code: Memory, source: u64, minBytes: nat, code': Memory, cpu: Cpu, touched: iset<int>,
      start: State, n: nat)
  {
    var exit := ExitState(isa, code, source, 0, minBytes, cpu);
    var stale := StaleAfter(isa, fp, code, source, 0, minBytes, cpu, touched);
    && exit.Some? && Run(isa, code, exit.value, n).Some?
    && var u := Run(isa, code, exit.value, n).value;
       && Reaches(isa, code, State(source, cpu), u)
       && exists after: Cpu ::
            && Reaches(isa, code', start, State(u.pc, after))
            && AgreeBut(StaleAfterRun(isa, fp, code, exit.value, n, stale), u.cpu, after)
  }

  /** A redirected thread as a whole, through trampoline and block and `n` steps on, for any number of moved bytes and
      any change of code memory that leaves the block in place. */
  lemma RedirectedFollows(
      isa: Isa, tools: Tools, fp: Footprint, code: Memory, source: u64, minBytes: nat, code': Memory,
      changed: iset<int>, call: Trampoline.Callee, d: Trampoline.Dispatch, cpu: Cpu, writes: iset<int>, n: nat)
    requires ReadsOwnBytes(isa) && Framed(isa, fp)
    requires BlockRelocatable(isa, tools, code, source, 0, minBytes)
    requires BlockInPlace(isa, tools, code, source, minBytes, code', d) && SameBut(changed, code, code')
    requires Trampoline.FRAME + 40 <= Trampoline.Sp(cpu)
    requires Trampoline.CallbacksOk(call, d, cpu, writes)
    requires Spares(writes, Trampoline.ContextOf(cpu), Trampoline.Sp(cpu))
    requires ReadsFresh(isa, fp, code, source, 0, minBytes, cpu, Touched(cpu, writes))
    requires GoesOn(isa, fp, code, source, minBytes, changed, cpu, Touched(cpu, writes), n)
    ensures var t := Trampoline.WholeRun(call, d, cpu);
            && t.exit == Some(d.relocated)
            && Follows(isa, fp, code, source, minBytes, code', cpu, Touched(cpu, writes), State(d.relocated, t.cpu), n)
  {
    hide ReadsOwnBytes, Framed, BlockRelocatable, BlockInPlace, ReadsFresh, Step, Run, ExitState, RelocateFrom, Fetch,
      StaleAfter, AgreeBut, Trampoline.WholeRun, Trampoline.CallbacksOk, RunsOutside, FreshRun, StaleAfterRun, SameBut,
      Reaches;
    TrampolineThenBlock(isa, tools, fp, code, source, minBytes, code', call, d, cpu, writes);
    var exit := ExitState(isa, code, source, 0, minBytes, cpu).value;
    var stale := StaleAfter(isa, fp, code, source, 0, minBytes, cpu, Touched(cpu, writes));
    var start := State(d.relocated, Trampoline.WholeRun(call, d, cpu).cpu);
    var between: Cpu :| Reaches(isa, code', start, State(exit.pc, between)) && AgreeBut(stale, exit.cpu, between);
    HookedRunFollows(isa, fp, code, code', changed, exit, State(exit.pc, between), stale, n);
    var u, v := Run(isa, code, exit, n).value, Run(isa, code', State(exit.pc, between), n).value;
    RunReaches(isa, code, exit, n);
    RunReaches(isa, code', State(exit.pc, between), n);
    ReachesTrans(isa, code, State(source, cpu), exit, u);
    ReachesTrans(isa, code', start, State(exit.pc, between), v);
    assert v == State(u.pc, v.cpu);
  }

  /** The hooked function as a whole: whatever the unhooked one does in `n` steps after its patched instructions,
      without executing a changed byte and without reading what hooking touched, the hooked one does too. */
  lemma HookedFunctionFollows(
      isa: Isa, tools: Tools, fp: Footprint, code: Memory, target: u64, code': Memory, changed: iset<int>,
      trampoline: u64, call: Trampoline.Callee, d: Trampoline.Dispatch, cpu: Cpu, writes: iset<int>, n: nat)
    requires ReadsOwnBytes(isa) && Framed(isa, fp)
    requires BlockRelocatable(isa, tools, code, target, 0, PATCH_SIZE)
    requires HookInstalled(isa, tools, code, target, code', trampoline, d) && SameBut(changed, code, code')
    requires Trampoline.FRAME + 40 <= Trampoline.Sp(cpu)
    requires Trampoline.CallbacksOk(call, d, cpu, writes)
    requires Spares(writes, Trampoline.ContextOf(cpu), Trampoline.Sp(cpu))
    requires ReadsFresh(isa, fp, code, target, 0, PATCH_SIZE, cpu, Touched(cpu, writes))
    requires GoesOn(isa, fp, code, target, PATCH_SIZE, changed, cpu, Touched(cpu, writes), n)
    ensures var t := Trampoline.WholeRun(call, d, cpu);
            && Step(isa, code', State(target, cpu)) == Some(State(trampoline, cpu))
            && t.exit == Some(d.relocated)
            && Follows(isa, fp, code, target, PATCH_SIZE, code', cpu, Touched(cpu, writes),
                 State(d.relocated, t.cpu), n)
  {
    AbsoluteJumpGoes(isa, code', target, trampoline, cpu);
    hide ReadsOwnBytes, Framed, BlockRelocatable, BlockInPlace, ReadsFresh, Step, Follows, GoesOn, Fetch, SameBut,
      Trampoline.WholeRun, Trampoline.CallbacksOk;
    RedirectedFollows(isa, tools, fp, code, target, PATCH_SIZE, code', changed, call, d, cpu, writes, n);
  }

  lemma RunReaches(isa: Isa, code: Memory, s: State, n: nat)
    requires Run(isa, code, s, n).Some?
    ensures Reaches(isa, code, s, Run(isa, code, s, n).value)
  {
  }

  // ---------- The assumptions can be met ----------

  /** A processor that knows one instruction beside the decoded ones: LODSB, which loads the byte RSI points to into
      AL and moves RSI on. */
  const LODSB: byte := 0xAC

  /** Writing AL keeps the rest of RAX. */
  function WithLowByte(x: u64, b: byte): u64 {
    var high: nat := x / 256;
    256 * high + b
  }

  function Successor(x: int): u64 {
    Wrap(x + 1)
  }

  function Loaded(c: Cpu): Cpu {
    var al := Peek(c.mem, c.regs[RSI]);
    c.(regs := c.regs[RAX := WithLowByte(c.regs[RAX], al)][RSI := Successor(c.regs[RSI])])
  }

  function LoadIsa(): Isa {
    Isa(w => if |w| > 0 && w[0] == LODSB then 1 else 0, (bytes, c) => Fall(Loaded(c)))
  }

  function LoadTools(): Tools {
    Tools((addr, w) => Facts(false, false, false, 0), [])
  }

  function LoadFootprint(): Footprint {
    Footprint((bytes, regs: RegisterFile) => {regs[RSI]}, (bytes, regs) => {})
  }

  function Loads(n: nat): (bs: seq<byte>)
    ensures |bs| == n
  {
    seq<byte>(n, i requires 0 <= i < n => LODSB)
  }

  lemma LoadPiece(code: Memory, addr: u64)
    requires 0 < addr && Peek(code, addr) == LODSB
    ensures InsnAt(LoadIsa(), code, addr) == Plain(1) && InsnSize(LoadIsa(), code, addr) == 1
    ensures Piece(LoadIsa(), LoadTools(), code, addr) == [LODSB] && Relocatable(LoadIsa(), LoadTools(), code, addr)
  {
    var w := Fetch(code, addr, MAX_INSN);
    assert w[0] == Peek(code, Wrap(addr + 0)) == LODSB;
    assert w[..1] == [LODSB];
  }

  lemma {:induction false} LoadsRelocate(code: Memory, target: u64, off: nat)
    requires 0 < target && target + PATCH_SIZE <= TWO_64 && off <= PATCH_SIZE
    requires forall a :: target <= a < target + PATCH_SIZE ==> Peek(code, a) == LODSB
    ensures RelocateFrom(LoadIsa(), LoadTools(), code, target, off, PATCH_SIZE) ==
              Success(Relocated(Loads(PATCH_SIZE - off) + AbsoluteJump(Wrap(target + PATCH_SIZE)), PATCH_SIZE))
    ensures BlockRelocatable(LoadIsa(), LoadTools(), code, target, off, PATCH_SIZE)
    decreases PATCH_SIZE - off
  {
    hide AbsoluteJump, InsnSize, Piece, Relocatable, InsnAt, LoadIsa, LoadTools, Peek, Fetch, Analyze;
    var addr := Wrap(target + off);
    var jump := AbsoluteJump(Wrap(target + PATCH_SIZE));
    if off == PATCH_SIZE {
      assert Loads(0) + jump == jump;
    } else {
      LoadPiece(code, addr);
      LoadsRelocate(code, target, off + 1);
      assert [LODSB] + (Loads(PATCH_SIZE - off - 1) + jump) == Loads(PATCH_SIZE - off) + jump;
    }
  }

  /** The loads read as many bytes from RSI on as there are instructions left. */
  lemma {:induction false} LoadsReadFresh(code: Memory, target: u64, off: nat, cpu: Cpu, stale: iset<int>)
    requires 0 < target && target + PATCH_SIZE <= TWO_64 && off <= PATCH_SIZE
    requires forall a :: target <= a < target + PATCH_SIZE ==> Peek(code, a) == LODSB
    requires cpu.regs[RSI] + (PATCH_SIZE - off) < TWO_64
    requires Spares(stale, cpu.regs[RSI], cpu.regs[RSI] + (PATCH_SIZE - off))
    ensures ReadsFresh(LoadIsa(), LoadFootprint(), code, target, off, PATCH_SIZE, cpu, stale)
    decreases PATCH_SIZE - off
  {
    hide InsnSize, Piece, Relocatable, InsnAt, LoadTools, Fetch, Peek;
    if off < PATCH_SIZE {
      LoadPiece(code, Wrap(target + off));
      assert Within(cpu.regs[RSI], cpu.regs[RSI], cpu.regs[RSI] + (PATCH_SIZE - off));
      var left := Minus(stale, {});
      var next := Loaded(cpu);
      forall x | Within(x, next.regs[RSI], next.regs[RSI] + (PATCH_SIZE - (off + 1)))
        ensures x !in left
      {
        assert Within(x, cpu.regs[RSI], cpu.regs[RSI] + (PATCH_SIZE - off));
      }
      LoadsReadFresh(code, target, off + 1, next, left);
    }
  }

  /** A function that begins by loading bytes from the heap, far below the stack, can be hooked with callbacks that
      use the stack: what the transparency theorem asks for is met, for every target, block, trampoline and processor
      state with room on the stack. */
  lemma LoadsCanBeHooked(
      target: u64, trampoline: u64, d: Trampoline.Dispatch, cpu: Cpu, returnAddress: u64) returns (code: Memory)
    requires 0 < target && target + PATCH_SIZE <= d.relocated && d.relocated + 2 * PATCH_SIZE <= TWO_64
    requires Trampoline.FRAME + 48 <= Trampoline.Sp(cpu)
    requires cpu.regs[RSI] + PATCH_SIZE <= Trampoline.CallSp(d, cpu) - 8
    ensures ReadsOwnBytes(LoadIsa()) && Framed(LoadIsa(), LoadFootprint())
    ensures BlockRelocatable(LoadIsa(), LoadTools(), code, target, 0, PATCH_SIZE)
    ensures HookInstalled(LoadIsa(), LoadTools(), code, target, Poke(code, target, AbsoluteJump(trampoline)),
              trampoline, d)
    ensures var frame := Span(Trampoline.CallSp(d, cpu) - 8, Trampoline.CallSp(d, cpu));
            && Trampoline.CallbacksOk(Trampoline.PushingCallback(returnAddress), d, cpu, frame)
            && Spares(frame, Trampoline.ContextOf(cpu), Trampoline.Sp(cpu))
            && ReadsFresh(LoadIsa(), LoadFootprint(), code, target, 0, PATCH_SIZE, cpu, Touched(cpu, frame))
  {
    hide AbsoluteJump, RelocateFrom, BlockRelocatable, ReadsFresh, Fetch, Trampoline.CallbacksOk,
      Trampoline.PushingCallback, ReadsOwnBytes, Framed;
    var block := Loads(PATCH_SIZE) + AbsoluteJump(Wrap(target + PATCH_SIZE));
    code := Poke(Poke(map[], target, Loads(PATCH_SIZE)), d.relocated, block);
    PokeHolds(Poke(map[], target, Loads(PATCH_SIZE)), d.relocated, block);
    LoadIsaIsFit();
    LoadsRelocate(code, target, 0);
    assert Avoids(PatchBytes(target, PATCH_SIZE), d.relocated, |block|);
    PatchInstallsHook(LoadIsa(), LoadTools(), code, target, trampoline, d);
    Trampoline.PushingCallbackIsFit(d, cpu, returnAddress);
    LoadsReadFresh(code, target, 0, cpu, Touched(cpu, Span(Trampoline.CallSp(d, cpu) - 8, Trampoline.CallSp(d, cpu))));
  }

  lemma LoadIsaIsFit()
    ensures ReadsOwnBytes(LoadIsa()) && Framed(LoadIsa(), LoadFootprint())
  {
    hide Peek;
  }
}
