/** The register-saving trampoline of code_relocator.cc, x86-64 branch, for both calling conventions. */
module Trampoline {
  import opened Results
  import opened Words
  import opened X86Machine

  type Reg = r: nat | r < 16

  /** The instructions the trampoline is assembled from. */
  datatype Asm =
    | PushFlags
    | Push(r: Reg)
    | Pop(r: Reg)
    | PopFlags
    | MovReg(dst: Reg, src: Reg)
    | MovImm(dst: Reg, imm: u64)
    | AddImm(dst: Reg, n: nat)
    | SubImm(dst: Reg, n: nat)
    | CallReg(r: Reg)
    | JumpTo(target: u64)

  /** A called function, from its entry to its return. */
  type Callee = (u64, Cpu) -> Cpu

  datatype Call = Call(callee: u64, cpu: Cpu)

  /** A run so far: the processor, the calls made, and where control went if it left. */
  datatype Trace = Trace(cpu: Cpu, calls: seq<Call>, exit: Option<u64>)

  function SetReg(c: Cpu, r: Reg, v: u64): Cpu {
    c.(regs := c.regs[r := v])
  }

  /** The stack pointer, as an unbounded number. */
  function Sp(c: Cpu): int {
    c.regs[RSP]
  }

  function PushValue(c: Cpu, v: u64): Cpu {
    var sp := Wrap(Sp(c) - 8);
    SetReg(c, RSP, sp).(mem := PokeQuad(c.mem, sp, v))
  }

  function Plus(x: int, n: int): u64 {
    Wrap(x + n)
  }

  function StepAsm(call: Callee, i: Asm, t: Trace): Trace {
    var c := t.cpu;
    if t.exit.Some? then t
    else
      match i
      case PushFlags => t.(cpu := PushValue(c, c.flags))
      case Push(r) => t.(cpu := PushValue(c, c.regs[r]))
      case Pop(r) => t.(cpu := SetReg(SetReg(c, RSP, Wrap(Sp(c) + 8)), r, Quad(c.mem, c.regs[RSP])))
      case PopFlags => t.(cpu := SetReg(c, RSP, Wrap(Sp(c) + 8)).(flags := Quad(c.mem, c.regs[RSP])))
      case MovReg(dst, src) => t.(cpu := SetReg(c, dst, c.regs[src]))
      case MovImm(dst, imm) => t.(cpu := SetReg(c, dst, imm))
      case AddImm(dst, n) => t.(cpu := SetReg(c, dst, Plus(c.regs[dst], n)))
      case SubImm(dst, n) => t.(cpu := SetReg(c, dst, Plus(c.regs[dst], 0 - n)))
      case CallReg(r) => t.(cpu := call(c.regs[r], c), calls := t.calls + [Call(c.regs[r], c)])
      case JumpTo(target) => t.(exit := Some(target))
  }

  function RunAsm(call: Callee, prog: seq<Asm>, t: Trace): Trace {
    if prog == [] then t else RunAsm(call, prog[1..], StepAsm(call, prog[0], t))
  }

  lemma {:induction false} RunAppend(call: Callee, p: seq<Asm>, q: seq<Asm>, t: Trace)
    ensures RunAsm(call, p + q, t) == RunAsm(call, q, RunAsm(call, p, t))
    decreases |p|
  {
    if p == [] {
      assert p + q == q;
    } else {
      assert (p + q)[1..] == p[1..] + q;
      RunAppend(call, p[1..], q, StepAsm(call, p[0], t));
    }
  }

  // ---------- The emitted program ----------

  /** Registers in the order they are pushed. */
  const SAVED: seq<Reg> := [RAX, RCX, RDX, RBX, RBP, RSI, RDI, 8, 9, 10, 11, 12, 13, 14, 15]
  const RESTORED: seq<Reg> := [15, 14, 13, 12, 11, 10, 9, 8, RDI, RSI, RBP, RBX, RDX, RCX, RAX]

  datatype Abi = SystemV | Microsoft {
    function Arg0(): Reg { if SystemV? then RDI else RCX }
    function Arg1(): Reg { if SystemV? then RSI else RDX }
    function Reserve(): nat { if SystemV? then 0x8 else 0x28 }
  }

  datatype Dispatch = Dispatch(abi: Abi, onEnter: u64, onLeave: Option<u64>, userData: u64, relocated: u64)

  function Pushes(rs: seq<Reg>): seq<Asm> {
    seq(|rs|, i requires 0 <= i < |rs| => Push(rs[i]))
  }

  function Pops(rs: seq<Reg>): seq<Asm> {
    seq(|rs|, i requires 0 <= i < |rs| => Pop(rs[i]))
  }

  function EnterCall(d: Dispatch): seq<Asm> {
    [MovReg(d.abi.Arg0(), RSP), MovImm(d.abi.Arg1(), d.userData), SubImm(RSP, d.abi.Reserve()),
     MovImm(RAX, d.onEnter), CallReg(RAX)]
  }

  function LeaveCall(d: Dispatch): seq<Asm> {
    match d.onLeave
    case None => []
    case Some(f) =>
      [MovReg(d.abi.Arg0(), RSP), AddImm(d.abi.Arg0(), d.abi.Reserve()), MovImm(d.abi.Arg1(), d.userData),
       MovImm(RAX, f), CallReg(RAX)]
  }

  function Save(): seq<Asm> {
    [PushFlags] + Pushes(SAVED)
  }

  function Restore(d: Dispatch): seq<Asm> {
    [AddImm(RSP, d.abi.Reserve())] + Pops(RESTORED) + [PopFlags, JumpTo(d.relocated)]
  }

  function Program(d: Dispatch): seq<Asm> {
    Save() + EnterCall(d) + LeaveCall(d) + Restore(d)
  }

  /** Emits the trampoline, instruction by instruction. */
  method BuildTrampoline(d: Dispatch) returns (code: seq<Asm>)
    ensures code == Program(d)
  {
    code := [PushFlags, Push(RAX), Push(RCX), Push(RDX), Push(RBX), Push(RBP), Push(RSI), Push(RDI),
             Push(8), Push(9), Push(10), Push(11), Push(12), Push(13), Push(14), Push(15)];
    assert code == Save();
    code := code + [MovReg(d.abi.Arg0(), RSP), MovImm(d.abi.Arg1(), d.userData), SubImm(RSP, d.abi.Reserve())];
    code := code + [MovImm(RAX, d.onEnter), CallReg(RAX)];
    assert code == Save() + EnterCall(d);
    if d.onLeave.Some? {
      code := code + [MovReg(d.abi.Arg0(), RSP), AddImm(d.abi.Arg0(), d.abi.Reserve())];
      code := code + [MovImm(d.abi.Arg1(), d.userData)];
      code := code + [MovImm(RAX, d.onLeave.value), CallReg(RAX)];
    }
    assert code == Save() + EnterCall(d) + LeaveCall(d);
    ghost var before := code;
    ghost var tail := [AddImm(RSP, d.abi.Reserve()),
             Pop(15), Pop(14), Pop(13), Pop(12), Pop(11), Pop(10), Pop(9), Pop(8),
             Pop(RDI), Pop(RSI), Pop(RBP), Pop(RBX), Pop(RDX), Pop(RCX), Pop(RAX), PopFlags, JumpTo(d.relocated)];
    assert tail == Restore(d);
    code := code + [AddImm(RSP, d.abi.Reserve()),
             Pop(15), Pop(14), Pop(13), Pop(12), Pop(11), Pop(10), Pop(9), Pop(8),
             Pop(RDI), Pop(RSI), Pop(RBP), Pop(RBX), Pop(RDX), Pop(RCX), Pop(RAX), PopFlags, JumpTo(d.relocated)];
  }

  // ---------- Saving and restoring ----------

  lemma PushEffect(c: Cpu, v: u64)
    requires Sp(c) >= 8
    ensures var c' := PushValue(c, v);
            && c' == c.(regs := c.regs[RSP := Sp(c) - 8], mem := c'.mem)
            && Quad(c'.mem, Sp(c) - 8) == v && SameBut(Span(Sp(c) - 8, Sp(c)), c.mem, c'.mem)
  {
    PokeQuadReads(c.mem, Sp(c) - 8, v);
  }

  lemma {:induction false} PushesEffect(call: Callee, rs: seq<Reg>, t: Trace)
    requires t.exit.None? && RSP !in rs && 8 * |rs| <= Sp(t.cpu)
    ensures var sp := Sp(t.cpu); var t' := RunAsm(call, Pushes(rs), t);
            && t' == t.(cpu := t'.cpu)
            && t'.cpu.regs == t.cpu.regs[RSP := sp - 8 * |rs|] && t'.cpu.flags == t.cpu.flags
            && (forall i {:trigger rs[i]} :: 0 <= i < |rs| ==> Quad(t'.cpu.mem, sp - 8 * (i + 1)) == t.cpu.regs[rs[i]])
            && SameBut(Span(sp - 8 * |rs|, sp), t.cpu.mem, t'.cpu.mem)
    decreases |rs|
  {
    hide Quad, PushValue;
    if rs != [] {
      PushEffect(t.cpu, t.cpu.regs[rs[0]]);
      var sp := Sp(t.cpu);
      var u := StepAsm(call, Push(rs[0]), t);
      var t' := RunAsm(call, Pushes(rs), t);
      assert Pushes(rs)[1..] == Pushes(rs[1..]);
      PushesEffect(call, rs[1..], u);
      QuadAgrees(u.cpu.mem, t'.cpu.mem, sp - 8);
      forall i | 0 <= i < |rs|
        ensures Quad(t'.cpu.mem, sp - 8 * (i + 1)) == t.cpu.regs[rs[i]]
      {
        if i > 0 {
          assert rs[i] == rs[1..][i - 1];
        }
      }
    }
  }

  lemma {:induction false} PopsEffect(call: Callee, rs: seq<Reg>, t: Trace)
    requires t.exit.None? && RSP !in rs && Sp(t.cpu) + 8 * |rs| < TWO_64
    requires forall i, j :: 0 <= i < j < |rs| ==> rs[i] != rs[j]
    ensures var sp := Sp(t.cpu); var t' := RunAsm(call, Pops(rs), t);
            && t' == t.(cpu := t'.cpu)
            && t'.cpu.regs[RSP] == sp + 8 * |rs| && t'.cpu.flags == t.cpu.flags && t'.cpu.mem == t.cpu.mem
            && (forall i {:trigger rs[i]} :: 0 <= i < |rs| ==> t'.cpu.regs[rs[i]] == Quad(t.cpu.mem, sp + 8 * i))
            && (forall r: Reg :: r !in rs && r != RSP ==> t'.cpu.regs[r] == t.cpu.regs[r])
    decreases |rs|
  {
    hide Quad;
    if rs != [] {
      var sp := Sp(t.cpu);
      var u := StepAsm(call, Pop(rs[0]), t);
      var t' := RunAsm(call, Pops(rs), t);
      assert Pops(rs)[1..] == Pops(rs[1..]);
      PopsEffect(call, rs[1..], u);
      forall i | 0 <= i < |rs|
        ensures t'.cpu.regs[rs[i]] == Quad(t.cpu.mem, sp + 8 * i)
      {
        if i > 0 {
          assert rs[i] == rs[1..][i - 1];
        }
      }
    }
  }

  // ---------- The whole run ----------

  /** Bytes of the register snapshot: flags and fifteen registers. */
  const FRAME := 128

  /** Address of the snapshot handed to the callbacks. */
  function ContextOf(cpu: Cpu): int {
    Sp(cpu) - FRAME
  }

  /** The bytes of the snapshot: from its address up to the stack pointer on entry. */
  ghost function SnapshotBytes(cpu: Cpu): iset<int> {
    Span(ContextOf(cpu), Sp(cpu))
  }

  /** The stack pointer callbacks are called with. */
  function CallSp(d: Dispatch, cpu: Cpu): int {
    ContextOf(cpu) - d.abi.Reserve()
  }

  /** Called in this state, the callback returns with the stack pointer it got and writes nothing but the given
      addresses: its own frame, and whatever data it is for. */
  ghost predicate CallbackOk(call: Callee, c: Call, writes: iset<int>) {
    Sp(call(c.callee, c.cpu)) == Sp(c.cpu) && SameBut(writes, c.cpu.mem, call(c.callee, c.cpu).mem)
  }

  /** What the trampoline needs of its callbacks, in the calls it really makes. */
  ghost predicate CallbacksOk(call: Callee, d: Dispatch, cpu: Cpu, writes: iset<int>) {
    AllOk(call, Dispatched(call, d, cpu).calls, writes)
  }

  ghost predicate AllOk(call: Callee, calls: seq<Call>, writes: iset<int>) {
    forall i :: 0 <= i < |calls| ==> CallbackOk(call, calls[i], writes)
  }

  function Start(cpu: Cpu): Trace {
    Trace(cpu, [], None)
  }

  /** The run up to the point where the callbacks have returned. */
  function Dispatched(call: Callee, d: Dispatch, cpu: Cpu): Trace {
    RunAsm(call, Save() + EnterCall(d) + LeaveCall(d), Start(cpu))
  }

  function WholeRun(call: Callee, d: Dispatch, cpu: Cpu): Trace {
    RunAsm(call, Program(d), Start(cpu))
  }

  lemma SaveEffect(call: Callee, cpu: Cpu)
    requires FRAME <= Sp(cpu)
    ensures var t := RunAsm(call, Save(), Start(cpu));
            && t == Start(t.cpu)
            && t.cpu.regs == cpu.regs[RSP := ContextOf(cpu)] && SameBut(SnapshotBytes(cpu), cpu.mem, t.cpu.mem)
            && Snapshot(t.cpu.mem, ContextOf(cpu), cpu.regs, cpu.flags)
  {
    hide Quad, PushValue;
    RunAppend(call, [PushFlags], Pushes(SAVED), Start(cpu));
    var u := StepAsm(call, PushFlags, Start(cpu));
    PushEffect(cpu, cpu.flags);
    assert RunAsm(call, [PushFlags], Start(cpu)) == u;
    PushesEffect(call, SAVED, u);
    var m := RunAsm(call, Save(), Start(cpu)).cpu.mem;
    QuadAgrees(u.cpu.mem, m, Sp(cpu) - 8);
    forall i | 0 <= i < 15
      ensures Quad(m, ContextOf(cpu) + 8 * i) == cpu.regs[RESTORED[i]]
    {
      assert SAVED[14 - i] == RESTORED[i];
    }
  }

  /** The snapshot at `ctx` holds these registers and flags. */
  ghost predicate Snapshot(m: Memory, ctx: int, regs: RegisterFile, flags: u64) {
    && (forall i :: 0 <= i < 15 ==> Quad(m, ctx + 8 * i) == regs[RESTORED[i]])
    && Quad(m, ctx + 120) == flags
  }

  /** The snapshot, quad by quad from its address up: R15 down to R8, then RDI, RSI, RBP, RBX, RDX, RCX and RAX, and
      the flags on top. */
  lemma SnapshotLayout(m: Memory, ctx: int, regs: RegisterFile, flags: u64)
    ensures Snapshot(m, ctx, regs, flags) <==>
              && Quad(m, ctx) == regs[15] && Quad(m, ctx + 8) == regs[14] && Quad(m, ctx + 16) == regs[13]
              && Quad(m, ctx + 24) == regs[12] && Quad(m, ctx + 32) == regs[11] && Quad(m, ctx + 40) == regs[10]
              && Quad(m, ctx + 48) == regs[9] && Quad(m, ctx + 56) == regs[8] && Quad(m, ctx + 64) == regs[7]
              && Quad(m, ctx + 72) == regs[6] && Quad(m, ctx + 80) == regs[5] && Quad(m, ctx + 88) == regs[3]
              && Quad(m, ctx + 96) == regs[2] && Quad(m, ctx + 104) == regs[1] && Quad(m, ctx + 112) == regs[0]
              && Quad(m, ctx + 120) == flags
  {
    hide Quad;
    var r := RESTORED;
    assert r[0] == 15 && r[1] == 14 && r[2] == 13 && r[3] == 12 && r[4] == 11 && r[5] == 10 && r[6] == 9 && r[7] == 8;
    assert r[8] == 7 && r[9] == 6 && r[10] == 5 && r[11] == 3 && r[12] == 2 && r[13] == 1 && r[14] == 0;
    assert Snapshot(m, ctx, regs, flags) <==>
             (forall i :: 0 <= i < 15 ==> Quad(m, ctx + 8 * i) == regs[r[i]]) && Quad(m, ctx + 120) == flags;
  }

  /** A callback gets the address of the snapshot, 128 bytes under the stack pointer on entry, and the user data, where
      the calling convention has a function's first two arguments: in the hardware's registers 7 and 6 (System V), or in
      1 and 2 (Microsoft) with a home area of 32 bytes between its stack pointer and the snapshot.  Eight bytes more
      align the stack: where the hooked code was entered like any function, so is the callback. */
  ghost predicate CallMade(d: Dispatch, cpu: Cpu, c: Call, callee: u64) {
    && c.callee == callee
    && ArgumentsPassed(d, c.cpu.regs, Sp(cpu) - 128)
    && Sp(c.cpu) == CallSp(d, cpu)
    && (cpu.regs[4] as int % 16 == 8 ==> c.cpu.regs[4] as int % 16 == 0)
  }

  ghost predicate ArgumentsPassed(d: Dispatch, regs: RegisterFile, snapshot: int) {
    match d.abi
    case SystemV => regs[7] == snapshot && regs[6] == d.userData && regs[4] == snapshot - 8
    case Microsoft => regs[1] == snapshot && regs[2] == d.userData && regs[4] == snapshot - 8 - 32
  }

  lemma EnterEffect(call: Callee, d: Dispatch, cpu: Cpu, t: Trace)
    requires FRAME + 40 <= Sp(cpu) && t == Start(t.cpu) && Sp(t.cpu) == ContextOf(cpu)
    ensures var u := RunAsm(call, EnterCall(d), t);
            && |u.calls| == 1 && u.exit.None? && CallMade(d, cpu, u.calls[0], d.onEnter)
            && u.calls[0].cpu.mem == t.cpu.mem && u.cpu == call(d.onEnter, u.calls[0].cpu)
  {
    hide StepAsm;
    var p := EnterCall(d);
    Run5(call, p, t);
    EnterArguments(call, d, cpu, t);
    var t4 := StepAsm(call, p[3], StepAsm(call, p[2], StepAsm(call, p[1], StepAsm(call, p[0], t))));
    CallStep(call, RAX, t4);
  }

  /** The four instructions before the first call set up its arguments and reserve its outgoing area. */
  lemma EnterArguments(call: Callee, d: Dispatch, cpu: Cpu, t: Trace)
    requires FRAME + 40 <= Sp(cpu) && t.exit.None? && Sp(t.cpu) == ContextOf(cpu)
    ensures var p := EnterCall(d);
            var t4 := StepAsm(call, p[3], StepAsm(call, p[2], StepAsm(call, p[1], StepAsm(call, p[0], t))));
            && t4 == t.(cpu := t4.cpu) && t4.cpu.mem == t.cpu.mem && Sp(t4.cpu) == Sp(t.cpu) - d.abi.Reserve()
            && t4.cpu.regs[d.abi.Arg0()] == ContextOf(cpu) && t4.cpu.regs[d.abi.Arg1()] == d.userData
            && t4.cpu.regs[RAX] == d.onEnter
  {
    var p := EnterCall(d);
    var t1 := StepAsm(call, p[0], t);
    var t2 := StepAsm(call, p[1], t1);
    var t3 := StepAsm(call, p[2], t2);
    if d.abi.SystemV? {
      assert t1.cpu.regs[RDI] == ContextOf(cpu) && Sp(t2.cpu) == Sp(t.cpu);
      assert t3.cpu.regs[RDI] == ContextOf(cpu) && t3.cpu.regs[RSI] == d.userData;
    } else {
      assert t1.cpu.regs[RCX] == ContextOf(cpu) && Sp(t2.cpu) == Sp(t.cpu);
      assert t3.cpu.regs[RCX] == ContextOf(cpu) && t3.cpu.regs[RDX] == d.userData;
    }
  }

  lemma LeaveEffect(call: Callee, d: Dispatch, cpu: Cpu, t: Trace)
    requires FRAME + 40 <= Sp(cpu) && d.onLeave.Some? && t.exit.None? && Sp(t.cpu) == CallSp(d, cpu)
    ensures var u := RunAsm(call, LeaveCall(d), t);
            && u.exit.None? && |u.calls| == |t.calls| + 1 && u.calls[..|t.calls|] == t.calls
            && CallMade(d, cpu, u.calls[|t.calls|], d.onLeave.value)
            && u.calls[|t.calls|].cpu.mem == t.cpu.mem && u.cpu == call(d.onLeave.value, u.calls[|t.calls|].cpu)
  {
    hide StepAsm;
    var p := LeaveCall(d);
    Run5(call, p, t);
    LeaveArguments(call, d, cpu, t);
    var t4 := StepAsm(call, p[3], StepAsm(call, p[2], StepAsm(call, p[1], StepAsm(call, p[0], t))));
    CallStep(call, RAX, t4);
  }

  lemma CallStep(call: Callee, r: Reg, t: Trace)
    requires t.exit.None?
    ensures var f := t.cpu.regs[r];
            StepAsm(call, CallReg(r), t) == t.(cpu := call(f, t.cpu), calls := t.calls + [Call(f, t.cpu)])
  {
  }

  /** The four instructions before the second call set up its arguments. */
  lemma LeaveArguments(call: Callee, d: Dispatch, cpu: Cpu, t: Trace)
    requires FRAME + 40 <= Sp(cpu) && d.onLeave.Some?
    requires t.exit.None? && Sp(t.cpu) == ContextOf(cpu) - d.abi.Reserve()
    ensures var p := LeaveCall(d);
            var t4 := StepAsm(call, p[3], StepAsm(call, p[2], StepAsm(call, p[1], StepAsm(call, p[0], t))));
            && t4 == t.(cpu := t4.cpu) && t4.cpu.mem == t.cpu.mem && Sp(t4.cpu) == Sp(t.cpu)
            && t4.cpu.regs[d.abi.Arg0()] == ContextOf(cpu) && t4.cpu.regs[d.abi.Arg1()] == d.userData
            && t4.cpu.regs[RAX] == d.onLeave.value
  {
    var p := LeaveCall(d);
    var t1 := StepAsm(call, p[0], t);
    var t2 := StepAsm(call, p[1], t1);
    var t3 := StepAsm(call, p[2], t2);
    if d.abi.SystemV? {
      assert t2.cpu.regs[RDI] == ContextOf(cpu) && Sp(t2.cpu) == Sp(t.cpu);
      assert t3.cpu.regs[RDI] == ContextOf(cpu) && t3.cpu.regs[RSI] == d.userData;
    } else {
      assert t2.cpu.regs[RCX] == ContextOf(cpu) && Sp(t2.cpu) == Sp(t.cpu);
      assert t3.cpu.regs[RCX] == ContextOf(cpu) && t3.cpu.regs[RDX] == d.userData;
    }
  }

  lemma Run5(call: Callee, p: seq<Asm>, t: Trace)
    requires |p| == 5
    ensures RunAsm(call, p, t) ==
            StepAsm(call, p[4], StepAsm(call, p[3], StepAsm(call, p[2], StepAsm(call, p[1], StepAsm(call, p[0], t)))))
  {
    hide StepAsm;
    var t1 := StepAsm(call, p[0], t);
    var t2 := StepAsm(call, p[1], t1);
    var t3 := StepAsm(call, p[2], t2);
    assert RunAsm(call, p, t) == RunAsm(call, p[1..], t1);
    var t4 := StepAsm(call, p[3], t3);
    assert p[1..][1..] == p[2..] && p[2..][1..] == p[3..] && p[3..][1..] == p[4..] && p[4..][1..] == [];
    assert RunAsm(call, p[1..], t1) == RunAsm(call, p[2..], t2) == RunAsm(call, p[3..], t3) == RunAsm(call, p[4..], t4);
    var t5 := StepAsm(call, p[4], t4);
    assert RunAsm(call, p[4..], t4) == RunAsm(call, [], t5) == t5;
  }

  /** Both callbacks are called, in order, with the same snapshot pointer, user data and alignment; no byte but
      those of the snapshot and those the callbacks write has changed. */
  lemma TrampolineDispatches(call: Callee, d: Dispatch, cpu: Cpu, writes: iset<int>)
    requires FRAME + 40 <= Sp(cpu) && CallbacksOk(call, d, cpu, writes)
    ensures var t := Dispatched(call, d, cpu);
            && t.exit.None? && |t.calls| == (if d.onLeave.Some? then 2 else 1)
            && CallMade(d, cpu, t.calls[0], d.onEnter)
            && Snapshot(t.calls[0].cpu.mem, ContextOf(cpu), cpu.regs, cpu.flags)
            && (d.onLeave.Some? ==>
                  && CallMade(d, cpu, t.calls[1], d.onLeave.value)
                  && t.calls[1].cpu.mem == call(d.onEnter, t.calls[0].cpu).mem)
            && t.cpu == call(t.calls[|t.calls| - 1].callee, t.calls[|t.calls| - 1].cpu)
            && Sp(t.cpu) == CallSp(d, cpu) && SameBut(SnapshotBytes(cpu) + writes, cpu.mem, t.cpu.mem)
  {
    hide StepAsm, Snapshot, EnterCall, LeaveCall, Save;
    var p := Save() + EnterCall(d);
    RunAppend(call, p, LeaveCall(d), Start(cpu));
    RunAppend(call, Save(), EnterCall(d), Start(cpu));
    SaveEffect(call, cpu);
    var t1 := RunAsm(call, Save(), Start(cpu));
    EnterEffect(call, d, cpu, t1);
    var t2 := RunAsm(call, EnterCall(d), t1);
    CallsGrow(call, LeaveCall(d), t2);
    assert CallbackOk(call, t2.calls[0], writes);
    if d.onLeave.Some? {
      LeaveEffect(call, d, cpu, t2);
      assert CallbackOk(call, Dispatched(call, d, cpu).calls[1], writes);
    } else {
      LeaveNothing(call, d, t2);
    }
  }

  /** No instruction forgets a call that was made. */
  lemma {:induction false} CallsGrow(call: Callee, p: seq<Asm>, t: Trace)
    ensures t.calls <= RunAsm(call, p, t).calls
    decreases |p|
  {
    if p != [] {
      CallsGrow(call, p[1..], StepAsm(call, p[0], t));
    }
  }

  /** Callbacks that keep to the given addresses whenever they are called with the trampoline's arguments and stack do
      so in the calls it makes. */
  lemma FitFromEverywhere(call: Callee, d: Dispatch, cpu: Cpu, writes: iset<int>)
    requires FRAME + 40 <= Sp(cpu)
    requires forall c: Call {:trigger CallbackOk(call, c, writes)} ::
               CallMade(d, cpu, c, c.callee) ==> CallbackOk(call, c, writes)
    ensures CallbacksOk(call, d, cpu, writes)
  {
    hide StepAsm, Snapshot, EnterCall, LeaveCall, Save;
    var p := Save() + EnterCall(d);
    RunAppend(call, p, LeaveCall(d), Start(cpu));
    RunAppend(call, Save(), EnterCall(d), Start(cpu));
    SaveEffect(call, cpu);
    var t1 := RunAsm(call, Save(), Start(cpu));
    EnterEffect(call, d, cpu, t1);
    var t2 := RunAsm(call, EnterCall(d), t1);
    CallsGrow(call, LeaveCall(d), t2);
    assert CallbackOk(call, t2.calls[0], writes);
    if d.onLeave.Some? {
      LeaveEffect(call, d, cpu, t2);
    } else {
      LeaveNothing(call, d, t2);
    }
  }

  lemma LeaveNothing(call: Callee, d: Dispatch, t: Trace)
    requires d.onLeave.None?
    ensures RunAsm(call, LeaveCall(d), t) == t
  {
  }

  /** Every register and the flags are reloaded from the snapshot as the callbacks left it, the stack pointer is
      back where it was, and control leaves for the relocated code. */
  lemma TrampolineRestores(call: Callee, d: Dispatch, cpu: Cpu, writes: iset<int>)
    requires FRAME + 40 <= Sp(cpu) && CallbacksOk(call, d, cpu, writes)
    ensures var t := WholeRun(call, d, cpu); var m := Dispatched(call, d, cpu).cpu.mem;
            && t.exit == Some(d.relocated) && t.calls == Dispatched(call, d, cpu).calls
            && Snapshot(m, ContextOf(cpu), t.cpu.regs, t.cpu.flags)
            && Sp(t.cpu) == Sp(cpu) && t.cpu.mem == m && SameBut(SnapshotBytes(cpu) + writes, cpu.mem, m)
  {
    TrampolineDispatches(call, d, cpu, writes);
    var t0 := Dispatched(call, d, cpu);
    RestoreEffect(call, d, t0, ContextOf(cpu));
    hide StepAsm, CallMade, EnterCall, LeaveCall, Save, Restore;
    RunAppend(call, Save() + EnterCall(d) + LeaveCall(d), Restore(d), Start(cpu));
  }

  lemma RestoreEffect(call: Callee, d: Dispatch, t: Trace, ctx: int)
    requires t.exit.None? && Sp(t.cpu) == ctx - d.abi.Reserve() && 0 <= ctx && ctx + FRAME < TWO_64
    ensures var u := RunAsm(call, Restore(d), t);
            && u.exit == Some(d.relocated) && u.calls == t.calls && u.cpu.mem == t.cpu.mem
            && Snapshot(t.cpu.mem, ctx, u.cpu.regs, u.cpu.flags) && Sp(u.cpu) == ctx + FRAME
  {
    hide Quad, Restore, StepAsm, Pops, RunAsm;
    var p := [AddImm(RSP, d.abi.Reserve())];
    var q := [PopFlags, JumpTo(d.relocated)];
    var t1 := t.(cpu := SetReg(t.cpu, RSP, ctx));
    RestoreParts(d);
    Readjust(call, d.abi.Reserve(), t, ctx);
    RunAppend(call, p + Pops(RESTORED), q, t);
    RunAppend(call, p, Pops(RESTORED), t);
    PopRegisters(call, t1);
    FlagsAndJump(call, d, RunAsm(call, Pops(RESTORED), t1));
  }

  lemma RestoreParts(d: Dispatch)
    ensures Restore(d) == [AddImm(RSP, d.abi.Reserve())] + Pops(RESTORED) + [PopFlags, JumpTo(d.relocated)]
  {
  }

  /** The outgoing area of the calls is given up. */
  lemma Readjust(call: Callee, n: nat, t: Trace, ctx: int)
    requires t.exit.None? && Sp(t.cpu) == ctx - n && 0 <= ctx < TWO_64
    ensures RunAsm(call, [AddImm(RSP, n)], t) == t.(cpu := SetReg(t.cpu, RSP, ctx))
  {
    hide RunAsm;
    OneStep(call, AddImm(RSP, n), t);
    assert Plus(Sp(t.cpu), n) == ctx;
  }

  lemma OneStep(call: Callee, i: Asm, t: Trace)
    ensures RunAsm(call, [i], t) == StepAsm(call, i, t)
  {
    hide StepAsm;
    assert [i][1..] == [];
  }

  lemma PopRegisters(call: Callee, t: Trace)
    requires t.exit.None? && Sp(t.cpu) + FRAME < TWO_64
    ensures var u := RunAsm(call, Pops(RESTORED), t);
            && u == t.(cpu := u.cpu) && u.cpu.mem == t.cpu.mem && Sp(u.cpu) == Sp(t.cpu) + 120
            && forall i :: 0 <= i < 15 ==> Quad(t.cpu.mem, Sp(t.cpu) + 8 * i) == u.cpu.regs[RESTORED[i]]
  {
    hide Quad, StepAsm, Pops;
    assert |RESTORED| == 15 && forall i, j :: 0 <= i < j < |RESTORED| ==> RESTORED[i] != RESTORED[j];
    PopsEffect(call, RESTORED, t);
  }

  lemma FlagsAndJump(call: Callee, d: Dispatch, t: Trace)
    requires t.exit.None? && Sp(t.cpu) + 8 < TWO_64
    ensures RunAsm(call, [PopFlags, JumpTo(d.relocated)], t)
         == t.(cpu := t.cpu.(regs := t.cpu.regs[RSP := Sp(t.cpu) + 8], flags := Quad(t.cpu.mem, Sp(t.cpu))),
               exit := Some(d.relocated))
  {
    hide Quad;
    var q := [PopFlags, JumpTo(d.relocated)];
    var t1 := StepAsm(call, q[0], t);
    assert q[1..] == [JumpTo(d.relocated)] && q[1..][1..] == [];
    assert RunAsm(call, q, t) == RunAsm(call, q[1..], t1) == StepAsm(call, q[1], t1);
  }

  // ---------- What the callbacks can and cannot change ----------

  lemma SnapshotDetermines(m: Memory, ctx: int, r: RegisterFile, f: u64, r': RegisterFile, f': u64)
    requires Snapshot(m, ctx, r, f) && Snapshot(m, ctx, r', f') && r[RSP] == r'[RSP]
    ensures r == r' && f == f'
  {
    hide Quad;
    forall k | 0 <= k < 16
      ensures r[k] == r'[k]
    {
      if k != RSP {
        var i := SlotIndex(k);
        assert RESTORED[i] == k;
      }
    }
  }

  /** Position in the snapshot, in quads, of a general-purpose register. */
  function SlotIndex(r: nat): (i: nat)
    requires r < 16 && r != RSP
    ensures i < 15 && RESTORED[i] == r
  {
    if r >= 8 then 15 - r
    else if r == RDI then 8
    else if r == RSI then 9
    else if r == RBP then 10
    else if r == RBX then 11
    else if r == RDX then 12
    else if r == RCX then 13
    else 14
  }

  lemma SnapshotAgrees(m: Memory, m': Memory, ctx: int, r: RegisterFile, f: u64, writes: iset<int>)
    requires 0 <= ctx && ctx + FRAME <= TWO_64 && Spares(writes, ctx, ctx + FRAME)
    requires Snapshot(m, ctx, r, f) && SameBut(writes, m, m')
    ensures Snapshot(m', ctx, r, f)
  {
    hide Quad, Peek;
    forall i | 0 <= i < 16
      ensures Quad(m, ctx + 8 * i) == Quad(m', ctx + 8 * i)
    {
      forall x | Within(x, ctx + 8 * i, ctx + 8 * i + 8)
        ensures x !in writes
      {
        assert Within(x, ctx, ctx + FRAME);
      }
      QuadSpared(writes, m, m', ctx + 8 * i);
    }
    assert ctx + 8 * 15 == ctx + 120;
  }

  /** With callbacks that leave the snapshot alone, the trampoline is invisible to the code behind it: registers
      and flags are as on entry, and no byte but the snapshot's and the callbacks' own has changed. */
  lemma TrampolineTransparent(call: Callee, d: Dispatch, cpu: Cpu, writes: iset<int>)
    requires FRAME + 40 <= Sp(cpu) && CallbacksOk(call, d, cpu, writes) && Spares(writes, ContextOf(cpu), Sp(cpu))
    ensures var t := WholeRun(call, d, cpu);
            && t.exit == Some(d.relocated)
            && t.cpu.regs == cpu.regs && t.cpu.flags == cpu.flags
            && SameBut(SnapshotBytes(cpu) + writes, cpu.mem, t.cpu.mem)
  {
    hide Snapshot, Dispatched, WholeRun, Quad, Peek;
    var ctx := ContextOf(cpu);
    TrampolineDispatches(call, d, cpu, writes);
    TrampolineRestores(call, d, cpu, writes);
    var t, calls := WholeRun(call, d, cpu), Dispatched(call, d, cpu).calls;
    var m := Dispatched(call, d, cpu).cpu.mem;
    assert CallbackOk(call, calls[0], writes) && CallbackOk(call, calls[|calls| - 1], writes);
    assert SameBut(writes, calls[0].cpu.mem, m);
    SnapshotAgrees(calls[0].cpu.mem, m, ctx, cpu.regs, cpu.flags, writes);
    SnapshotDetermines(m, ctx, cpu.regs, cpu.flags, t.cpu.regs, t.cpu.flags);
  }

  /** The snapshot after one of its quads is overwritten. */
  function Overwrite(k: nat, v: u64, cpu: Cpu): Cpu
    requires k < 16
  {
    if k < 15 then SetReg(cpu, RESTORED[k], v) else cpu.(flags := v)
  }

  /** A quad written elsewhere in the snapshot leaves the other quads as they are. */
  lemma PokeSlot(m: Memory, ctx: int, k: nat, v: u64, cpu: Cpu)
    requires k < 16 && 0 <= ctx && ctx + FRAME <= TWO_64 && Snapshot(m, ctx, cpu.regs, cpu.flags)
    ensures Snapshot(PokeQuad(m, ctx + 8 * k, v), ctx, Overwrite(k, v, cpu).regs, Overwrite(k, v, cpu).flags)
  {
    hide Quad, PokeQuad;
    var m' := PokeQuad(m, ctx + 8 * k, v);
    QuadsAfterPoke(m, ctx, k, v);
    assert ctx + 8 * 15 == ctx + 120;
    assert forall i, j :: 0 <= i < j < 15 ==> RESTORED[i] != RESTORED[j];
  }

  lemma QuadsAfterPoke(m: Memory, ctx: int, k: nat, v: u64)
    requires k < 16 && 0 <= ctx && ctx + FRAME <= TWO_64
    ensures forall i :: 0 <= i < 16 ==>
              Quad(PokeQuad(m, ctx + 8 * k, v), ctx + 8 * i) == if i == k then v else Quad(m, ctx + 8 * i)
  {
    var m' := PokeQuad(m, ctx + 8 * k, v);
    forall i | 0 <= i < 16
      ensures Quad(m', ctx + 8 * i) == if i == k then v else Quad(m, ctx + 8 * i)
    {
      if i == k {
        PokeQuadReads(m, ctx + 8 * k, v);
      } else {
        QuadAgrees(m, m', ctx + 8 * i);
      }
    }
  }

  /** In the call it gets, the first callback writes the value `v` to quad `k` of the snapshot, and otherwise only the
      given addresses; the second one writes only those. */
  ghost predicate WritesSlot(call: Callee, d: Dispatch, cpu: Cpu, k: nat, v: u64, writes: iset<int>) {
    var calls := Dispatched(call, d, cpu).calls;
    && (forall i :: 0 < i < |calls| ==> CallbackOk(call, calls[i], writes))
    && calls != [] && SlotPoked(call, calls[0], ContextOf(cpu) + 8 * k, v, writes)
  }

  ghost predicate SlotPoked(call: Callee, c: Call, a: int, v: u64, writes: iset<int>) {
    Sp(call(c.callee, c.cpu)) == Sp(c.cpu) && SameBut(writes, PokeQuad(c.cpu.mem, a, v), call(c.callee, c.cpu).mem)
  }

  /** A callback that writes one quad of the snapshot changes exactly the register saved there. */
  lemma OneSlotWritten(call: Callee, d: Dispatch, cpu: Cpu, k: nat, v: u64, writes: iset<int>)
    requires FRAME + 40 <= Sp(cpu) && k < 16 && Spares(writes, ContextOf(cpu), Sp(cpu))
    requires WritesSlot(call, d, cpu, k, v, writes)
    ensures var t := WholeRun(call, d, cpu);
            && t.exit == Some(d.relocated)
            && t.cpu.regs == Overwrite(k, v, cpu).regs && t.cpu.flags == Overwrite(k, v, cpu).flags
            && SameBut(SnapshotBytes(cpu) + writes, cpu.mem, t.cpu.mem)
  {
    hide Snapshot, Dispatched, WholeRun, Quad, PokeQuad, Peek;
    var ctx := ContextOf(cpu);
    var all := SnapshotBytes(cpu) + writes;
    SlotWriterOk(call, d, cpu, k, v, writes);
    TrampolineDispatches(call, d, cpu, all);
    TrampolineRestores(call, d, cpu, all);
    var t, calls := WholeRun(call, d, cpu), Dispatched(call, d, cpu).calls;
    var m := Dispatched(call, d, cpu).cpu.mem;
    var poked := PokeQuad(calls[0].cpu.mem, ctx + 8 * k, v);
    var cpu' := Overwrite(k, v, cpu);
    PokeSlot(calls[0].cpu.mem, ctx, k, v, cpu);
    assert SlotPoked(call, calls[0], ctx + 8 * k, v, writes);
    assert SameBut(writes, poked, call(d.onEnter, calls[0].cpu).mem);
    assert d.onLeave.Some? ==> CallbackOk(call, calls[1], writes);
    assert SameBut(writes, poked, m);
    SnapshotAgrees(poked, m, ctx, cpu'.regs, cpu'.flags, writes);
    SnapshotDetermines(m, ctx, cpu'.regs, cpu'.flags, t.cpu.regs, t.cpu.flags);
  }

  lemma SlotWriterOk(call: Callee, d: Dispatch, cpu: Cpu, k: nat, v: u64, writes: iset<int>)
    requires k < 16 && WritesSlot(call, d, cpu, k, v, writes)
    ensures CallbacksOk(call, d, cpu, SnapshotBytes(cpu) + writes)
  {
    hide Peek, PokeQuad, Dispatched;
    var all := SnapshotBytes(cpu) + writes;
    var a := ContextOf(cpu) + 8 * k;
    var calls := Dispatched(call, d, cpu).calls;
    forall i | 0 <= i < |calls|
      ensures CallbackOk(call, calls[i], all)
    {
      if i == 0 {
        var c := calls[i];
        assert SlotPoked(call, c, a, v, writes);
        PokeQuadIsLocal(c.cpu.mem, a, v);
        assert forall x :: x in Span(a, a + 8) ==> x in SnapshotBytes(cpu);
      } else {
        assert CallbackOk(call, calls[i], writes);
      }
    }
  }

  // ---------- A callback that uses its stack ----------

  /** A callback that, as every compiled function does, pushes below its stack pointer: here its return address. */
  function PushingCallback(returnAddress: u64): Callee {
    (f: u64, c: Cpu) => c.(mem := PokeQuad(c.mem, Sp(c) - 8, returnAddress))
  }

  /** Such a callback meets what the trampoline asks for, with its own frame as the addresses it writes; and it
      does write them. */
  lemma PushingCallbackIsFit(d: Dispatch, cpu: Cpu, returnAddress: u64)
    requires FRAME + 48 <= Sp(cpu)
    ensures var call := PushingCallback(returnAddress);
            var frame := Span(CallSp(d, cpu) - 8, CallSp(d, cpu));
            && CallbacksOk(call, d, cpu, frame) && Spares(frame, ContextOf(cpu), Sp(cpu))
            && forall c: Call {:trigger call(c.callee, c.cpu)} :: Sp(c.cpu) == CallSp(d, cpu) ==>
                 Quad(call(c.callee, c.cpu).mem, Sp(c.cpu) - 8) == returnAddress
  {
    hide Quad, PokeQuad, Peek, Dispatched;
    var call := PushingCallback(returnAddress);
    var frame := Span(CallSp(d, cpu) - 8, CallSp(d, cpu));
    forall c: Call | Sp(c.cpu) == CallSp(d, cpu)
      ensures Quad(call(c.callee, c.cpu).mem, Sp(c.cpu) - 8) == returnAddress
      ensures CallbackOk(call, c, frame)
    {
      PokeQuadReads(c.cpu.mem, Sp(c.cpu) - 8, returnAddress);
      PokeQuadIsLocal(c.cpu.mem, Sp(c.cpu) - 8, returnAddress);
    }
    FitFromEverywhere(call, d, cpu, frame);
  }
}
