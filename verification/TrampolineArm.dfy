/** The register-saving trampoline of code_relocator.cc, ARM64 branch. */
module TrampolineArm {
  import opened Results
  import opened Words
  import opened X86Machine

  type Reg = r: nat | r < 31
  type ArmRegisters = r: seq<u64> | |r| == 31 witness seq(31, _ => 0)

  datatype ArmCpu = ArmCpu(x: ArmRegisters, sp: u64, nzcv: u64, mem: Memory)

  datatype Asm =
    | SubSp(n: nat)
    | AddSp(n: nat)
    | StorePair(r: Reg, r': Reg, off: nat)
    | Store(r: Reg, off: nat)
    | LoadPair(r: Reg, r': Reg, off: nat)
    | Load(r: Reg, off: nat)
    | AddFromSp(r: Reg, n: nat)
    | ReadFlags(r: Reg)
    | WriteFlags(r: Reg)
    | MovImm(r: Reg, imm: u64)
    | CallReg(r: Reg)
    | JumpReg(r: Reg)

  type Callee = (u64, ArmCpu) -> ArmCpu

  datatype Call = Call(callee: u64, cpu: ArmCpu)

  datatype Trace = Trace(cpu: ArmCpu, calls: seq<Call>, exit: Option<u64>)

  function Move(x: int, n: int): u64 {
    Wrap(x + n)
  }

  function StoreAt(c: ArmCpu, r: Reg, off: nat): ArmCpu {
    c.(mem := PokeQuad(c.mem, Move(c.sp, off), c.x[r]))
  }

  function LoadAt(c: ArmCpu, r: Reg, off: nat): ArmCpu {
    c.(x := c.x[r := Quad(c.mem, Move(c.sp, off))])
  }

  function StepAsm(call: Callee, i: Asm, t: Trace): Trace {
    var c := t.cpu;
    if t.exit.Some? then t
    else
      match i
      case SubSp(n) => t.(cpu := c.(sp := Move(c.sp, 0 - n)))
      case AddSp(n) => t.(cpu := c.(sp := Move(c.sp, n)))
      case StorePair(r, r', off) => t.(cpu := StoreAt(StoreAt(c, r, off), r', off + 8))
      case Store(r, off) => t.(cpu := StoreAt(c, r, off))
      case LoadPair(r, r', off) => t.(cpu := LoadAt(LoadAt(c, r, off), r', off + 8))
      case Load(r, off) => t.(cpu := LoadAt(c, r, off))
      case AddFromSp(r, n) => t.(cpu := c.(x := c.x[r := Move(c.sp, n)]))
      case ReadFlags(r) => t.(cpu := c.(x := c.x[r := c.nzcv]))
      case WriteFlags(r) => t.(cpu := c.(nzcv := c.x[r]))
      case MovImm(r, imm) => t.(cpu := c.(x := c.x[r := imm]))
      case CallReg(r) => t.(cpu := call(c.x[r], c), calls := t.calls + [Call(c.x[r], c)])
      case JumpReg(r) => t.(exit := Some(c.x[r]))
  }

  function RunAsm(call: Callee, prog: seq<Asm>, t: Trace): Trace {
    if prog == [] then t else RunAsm(call, prog[1..], StepAsm(call, prog[0], t))
  }

  lemma {:induction false} RunAppend(call: Callee, p: seq<Asm>, q: seq<Asm>, t: Trace)
    ensures RunAsm(call, p + q, t) == RunAsm(call, q, RunAsm(call, p, t))
    decreases |p|
  {
    if p == [] {
      assert p + q == q;
    } else {
      assert (p + q)[1..] == p[1..] + q;
      RunAppend(call, p[1..], q, StepAsm(call, p[0], t));
    }
  }

  // ---------- The emitted program ----------

  const FRAME := 0x110

  datatype Dispatch = Dispatch(onEnter: u64, onLeave: Option<u64>, userData: u64, relocated: u64)

  /** Register pairs (x2k, x2k+1) for `first <= k < limit`, each at its own offset. */
  function StorePairs(first: nat, limit: nat): seq<Asm>
    requires first <= limit <= 15
  {
    seq(limit - first, i requires 0 <= i < limit - first =>
      var k := first + i; StorePair(2 * k, 2 * k + 1, 16 * k))
  }

  function LoadPairs(first: nat, limit: nat): seq<Asm>
    requires first <= limit <= 15
  {
    seq(limit - first, i requires 0 <= i < limit - first =>
      var k := first + i; LoadPair(2 * k, 2 * k + 1, 16 * k))
  }

  const SAVE_REST: seq<Asm> :=
    [Store(30, 30 * 8), AddFromSp(16, FRAME), Store(16, 31 * 8), ReadFlags(16), Store(16, 32 * 8)]

  function CallOut(f: u64, userData: u64): seq<Asm> {
    [AddFromSp(0, 0), MovImm(1, userData), MovImm(16, f), CallReg(16)]
  }

  function LeaveCall(d: Dispatch): seq<Asm> {
    if d.onLeave.Some? then CallOut(d.onLeave.value, d.userData) else []
  }

  const LOAD_FLAGS: seq<Asm> := [Load(16, 32 * 8), WriteFlags(16)]

  function Tail(relocated: u64): seq<Asm> {
    [Load(30, 30 * 8), AddSp(FRAME), MovImm(16, relocated), JumpReg(16)]
  }

  function Save(): seq<Asm> {
    [SubSp(FRAME)] + StorePairs(0, 15) + SAVE_REST
  }

  function Restore(d: Dispatch): seq<Asm> {
    LOAD_FLAGS + LoadPairs(0, 15) + Tail(d.relocated)
  }

  function Program(d: Dispatch): seq<Asm> {
    Save() + CallOut(d.onEnter, d.userData) + LeaveCall(d) + Restore(d)
  }

  /** Stores x0-x27 in pairs, by a loop over even register numbers, then x28 and x29. */
  method EmitStorePairs() returns (code: seq<Asm>)
    ensures code == StorePairs(0, 15)
  {
    code := [];
    var i := 0;
    ghost var k := 0;
    while i < 28
      invariant i == 2 * k <= 28
      invariant code == StorePairs(0, k)
    {
      code := code + [StorePair(i, i + 1, i * 8)];
      i, k := i + 2, k + 1;
    }
    code := code + [StorePair(28, 29, 28 * 8)];
  }

  method EmitLoadPairs() returns (code: seq<Asm>)
    ensures code == LoadPairs(0, 15)
  {
    code := [];
    var i := 0;
    ghost var k := 0;
    while i < 28
      invariant i == 2 * k <= 28
      invariant code == LoadPairs(0, k)
    {
      code := code + [LoadPair(i, i + 1, i * 8)];
      i, k := i + 2, k + 1;
    }
    code := code + [LoadPair(28, 29, 28 * 8)];
  }

  method BuildTrampoline(d: Dispatch) returns (code: seq<Asm>)
    ensures code == Program(d)
  {
    hide StorePairs, LoadPairs;
    var stores := EmitStorePairs();
    code := [SubSp(FRAME)] + stores;
    code := code + [Store(30, 30 * 8), AddFromSp(16, FRAME), Store(16, 31 * 8), ReadFlags(16), Store(16, 32 * 8)];
    assert code == Save();
    hide Save;
    code := code + [AddFromSp(0, 0), MovImm(1, d.userData), MovImm(16, d.onEnter), CallReg(16)];
    if d.onLeave.Some? {
      code := code + [AddFromSp(0, 0), MovImm(1, d.userData), MovImm(16, d.onLeave.value), CallReg(16)];
    }
    var restore: seq<Asm> := [Load(16, 32 * 8), WriteFlags(16)];
    var loads := EmitLoadPairs();
    restore := restore + loads;
    restore := restore + [Load(30, 30 * 8), AddSp(FRAME), MovImm(16, d.relocated), JumpReg(16)];
    code := code + restore;
  }

  // ---------- Saving and restoring ----------

  ghost predicate Room(sp: int) {
    0 <= sp && sp + FRAME < TWO_64
  }

  /** The quad at `ctx + off` is `v`. */
  ghost predicate Slot(m: Memory, ctx: int, off: int, v: u64) {
    Quad(m, ctx + off) == v
  }

  lemma SlotKept(m: Memory, m': Memory, ctx: int, off: nat, v: u64)
    requires 0 <= ctx && ctx + off + 8 <= TWO_64 && Slot(m, ctx, off, v)
    requires forall x :: ctx + off <= x < ctx + off + 8 ==> Peek(m, x) == Peek(m', x)
    ensures Slot(m', ctx, off, v)
  {
    QuadAgrees(m, m', ctx + off);
  }

  lemma StoreEffect(c: ArmCpu, r: Reg, off: nat)
    requires Room(c.sp) && off + 8 <= FRAME
    ensures var c' := StoreAt(c, r, off);
            && c' == c.(mem := c'.mem) && Slot(c'.mem, c.sp, off, c.x[r])
            && forall x :: !(c.sp + off <= x < c.sp + off + 8) ==> Peek(c'.mem, x) == Peek(c.mem, x)
  {
    var sp: int := c.sp;
    PokeQuadReads(c.mem, sp + off, c.x[r]);
  }

  lemma LoadEffect(c: ArmCpu, r: Reg, off: nat)
    requires Room(c.sp) && off + 8 <= FRAME
    ensures var c' := LoadAt(c, r, off);
            && c' == c.(x := c.x[r := c'.x[r]]) && Slot(c.mem, c.sp, off, c'.x[r])
  {
    var sp: int := c.sp;
    assert Move(sp, off) == sp + off;
    hide Quad;
  }

  lemma {:induction false} StorePairsEffect(call: Callee, k: nat, t: Trace)
    requires t.exit.None? && k <= 15 && Room(t.cpu.sp)
    ensures var t' := RunAsm(call, StorePairs(k, 15), t); var sp: int := t.cpu.sp;
            && t' == t.(cpu := t.cpu.(mem := t'.cpu.mem))
            && (forall r: Reg :: 2 * k <= r < 30 ==> Slot(t'.cpu.mem, sp, 8 * r, t.cpu.x[r]))
            && (forall x :: !(sp + 16 * k <= x < sp + 240) ==> Peek(t'.cpu.mem, x) == Peek(t.cpu.mem, x))
    decreases 15 - k
  {
    hide StoreAt, Slot;
    if k < 15 {
      var c := t.cpu;
      var sp: int := c.sp;
      var c1 := StoreAt(c, 2 * k, 16 * k);
      StoreEffect(c, 2 * k, 16 * k);
      StoreEffect(c1, 2 * k + 1, 16 * k + 8);
      var u := StepAsm(call, StorePair(2 * k, 2 * k + 1, 16 * k), t);
      SlotKept(c1.mem, u.cpu.mem, sp, 16 * k, c.x[2 * k]);
      assert StorePairs(k, 15)[1..] == StorePairs(k + 1, 15);
      StorePairsEffect(call, k + 1, u);
      var m' := RunAsm(call, StorePairs(k, 15), t).cpu.mem;
      SlotKept(u.cpu.mem, m', sp, 16 * k, c.x[2 * k]);
      SlotKept(u.cpu.mem, m', sp, 16 * k + 8, c.x[2 * k + 1]);
    }
  }

  lemma {:induction false} LoadPairsEffect(call: Callee, k: nat, t: Trace)
    requires t.exit.None? && k <= 15 && Room(t.cpu.sp)
    ensures var t' := RunAsm(call, LoadPairs(k, 15), t); var sp: int := t.cpu.sp;
            && t' == t.(cpu := t.cpu.(x := t'.cpu.x))
            && (forall r: Reg :: 2 * k <= r < 30 ==> Slot(t.cpu.mem, sp, 8 * r, t'.cpu.x[r]))
            && (forall r: Reg :: r < 2 * k || r == 30 ==> t'.cpu.x[r] == t.cpu.x[r])
    decreases 15 - k
  {
    hide LoadAt, Slot;
    if k < 15 {
      var c := t.cpu;
      var c1 := LoadAt(c, 2 * k, 16 * k);
      LoadEffect(c, 2 * k, 16 * k);
      LoadEffect(c1, 2 * k + 1, 16 * k + 8);
      var u := StepAsm(call, LoadPair(2 * k, 2 * k + 1, 16 * k), t);
      assert LoadPairs(k, 15)[1..] == LoadPairs(k + 1, 15);
      LoadPairsEffect(call, k + 1, u);
    }
  }

  // ---------- The whole run ----------

  /** The snapshot: x0-x30, then the stack pointer on entry, then the flags. */
  ghost predicate Snapshot(m: Memory, ctx: int, c: ArmCpu) {
    && (forall r: Reg :: Slot(m, ctx, 8 * r, c.x[r]))
    && Slot(m, ctx, 31 * 8, Move(ctx, FRAME)) && Slot(m, ctx, 32 * 8, c.nzcv)
  }

  /** The snapshot lies 272 bytes under the stack pointer on entry, which leaves the stack aligned, and holds X0 to X30,
      that stack pointer and the flags, quad by quad. */
  lemma SnapshotLayout(m: Memory, cpu: ArmCpu)
    requires FRAME <= cpu.sp
    ensures ContextOf(cpu) == cpu.sp - 272 && (cpu.sp as int % 16 == 0 ==> ContextOf(cpu) % 16 == 0)
    ensures Snapshot(m, ContextOf(cpu), cpu) <==>
              && (forall r: Reg {:trigger cpu.x[r]} :: Quad(m, ContextOf(cpu) + 8 * r) == cpu.x[r])
              && Quad(m, ContextOf(cpu) + 248) == cpu.sp && Quad(m, ContextOf(cpu) + 256) == cpu.nzcv
  {
    var ctx := ContextOf(cpu);
    hide Quad;
    assert Move(ctx, FRAME) == cpu.sp && ctx + 31 * 8 == ctx + 248 && ctx + 32 * 8 == ctx + 256;
    assert forall r: Reg {:trigger cpu.x[r]} :: Slot(m, ctx, 8 * r, cpu.x[r]) <==> Quad(m, ctx + 8 * r) == cpu.x[r];
  }

  function Start(cpu: ArmCpu): Trace {
    Trace(cpu, [], None)
  }

  function Dispatched(call: Callee, d: Dispatch, cpu: ArmCpu): Trace {
    RunAsm(call, Save() + CallOut(d.onEnter, d.userData) + LeaveCall(d), Start(cpu))
  }

  function WholeRun(call: Callee, d: Dispatch, cpu: ArmCpu): Trace {
    RunAsm(call, Program(d), Start(cpu))
  }

  function ContextOf(cpu: ArmCpu): int {
    cpu.sp - FRAME
  }

  /** The bytes of the snapshot: from its address up to the stack pointer on entry. */
  ghost function SnapshotBytes(cpu: ArmCpu): iset<int> {
    Span(ContextOf(cpu), cpu.sp)
  }

  /** Called in this state, the callback returns with the stack pointer it got and writes nothing but the given
      addresses. */
  ghost predicate CallbackOk(call: Callee, c: Call, writes: iset<int>) {
    call(c.callee, c.cpu).sp == c.cpu.sp && SameBut(writes, c.cpu.mem, call(c.callee, c.cpu).mem)
  }

  /** What the trampoline needs of its callbacks, in the calls it really makes. */
  ghost predicate CallbacksOk(call: Callee, d: Dispatch, cpu: ArmCpu, writes: iset<int>) {
    var calls := Dispatched(call, d, cpu).calls;
    forall i :: 0 <= i < |calls| ==> CallbackOk(call, calls[i], writes)
  }

  lemma SaveEffect(call: Callee, cpu: ArmCpu)
    requires FRAME <= cpu.sp
    ensures var t := RunAsm(call, Save(), Start(cpu));
            && t == Start(t.cpu) && t.cpu.sp == ContextOf(cpu)
            && Snapshot(t.cpu.mem, ContextOf(cpu), cpu) && SameBut(SnapshotBytes(cpu), cpu.mem, t.cpu.mem)
  {
    var ctx := ContextOf(cpu);
    var t1 := Start(cpu.(sp := ctx));
    assert RunAsm(call, [SubSp(FRAME)], Start(cpu)) == t1;
    RunAppend(call, [SubSp(FRAME)], StorePairs(0, 15), Start(cpu));
    RunAppend(call, [SubSp(FRAME)] + StorePairs(0, 15), SAVE_REST, Start(cpu));
    StorePairsEffect(call, 0, t1);
    var t2 := RunAsm(call, StorePairs(0, 15), t1);
    SaveRestEffect(call, t2);
    hide StepAsm, StoreAt, StorePairs, Slot;
    var t3 := RunAsm(call, SAVE_REST, t2);
    forall r: Reg | r < 30
      ensures Slot(t3.cpu.mem, ctx, 8 * r, cpu.x[r])
    {
      SlotKept(t2.cpu.mem, t3.cpu.mem, ctx, 8 * r, cpu.x[r]);
    }
  }

  lemma SaveRestEffect(call: Callee, t: Trace)
    requires t.exit.None? && Room(t.cpu.sp)
    ensures var u := RunAsm(call, SAVE_REST, t); var c := t.cpu; var sp: int := c.sp;
            && u == t.(cpu := u.cpu) && u.cpu.sp == c.sp
            && Slot(u.cpu.mem, sp, 30 * 8, c.x[30]) && Slot(u.cpu.mem, sp, 31 * 8, Move(sp, FRAME))
            && Slot(u.cpu.mem, sp, 32 * 8, c.nzcv)
            && forall x :: !(sp + 240 <= x < sp + 264) ==> Peek(u.cpu.mem, x) == Peek(c.mem, x)
  {
    hide StoreAt, Slot, Move;
    var c := t.cpu;
    var sp: int := c.sp;
    var c1 := StoreAt(c, 30, 240);
    StoreEffect(c, 30, 240);
    var c2 := c1.(x := c1.x[16 := Move(sp, FRAME)]);
    var c3 := StoreAt(c2, 16, 248);
    StoreEffect(c2, 16, 248);
    var c4 := c3.(x := c3.x[16 := c3.nzcv]);
    var c5 := StoreAt(c4, 16, 256);
    StoreEffect(c4, 16, 256);
    SlotKept(c1.mem, c3.mem, sp, 240, c.x[30]);
    SlotKept(c3.mem, c5.mem, sp, 240, c.x[30]);
    SlotKept(c3.mem, c5.mem, sp, 248, Move(sp, FRAME));
    Run5(call, SAVE_REST, t);
  }

  lemma Run4(call: Callee, p: seq<Asm>, t: Trace)
    requires |p| == 4
    ensures RunAsm(call, p, t) ==
            StepAsm(call, p[3], StepAsm(call, p[2], StepAsm(call, p[1], StepAsm(call, p[0], t))))
  {
    hide StepAsm;
    var t1 := StepAsm(call, p[0], t);
    var t2 := StepAsm(call, p[1], t1);
    var t3 := StepAsm(call, p[2], t2);
    assert p[1..][1..] == p[2..] && p[2..][1..] == p[3..] && p[3..][1..] == [];
    assert RunAsm(call, p[1..], t1) == RunAsm(call, p[2..], t2) == RunAsm(call, p[3..], t3);
    assert RunAsm(call, p[3..], t3) == RunAsm(call, [], StepAsm(call, p[3], t3));
  }

  lemma Run5(call: Callee, p: seq<Asm>, t: Trace)
    requires |p| == 5
    ensures RunAsm(call, p, t) ==
            StepAsm(call, p[4], StepAsm(call, p[3], StepAsm(call, p[2], StepAsm(call, p[1], StepAsm(call, p[0], t)))))
  {
    Run4(call, p[1..], StepAsm(call, p[0], t));
  }

  /** A callback gets the snapshot address and the user data. */
  ghost predicate CallMade(d: Dispatch, ctx: int, c: Call, callee: u64) {
    c.callee == callee && c.cpu.x[0] == ctx && c.cpu.x[1] == d.userData && c.cpu.sp == ctx
  }

  lemma CallOutEffect(call: Callee, d: Dispatch, f: u64, t: Trace)
    requires t.exit.None?
    ensures var u := RunAsm(call, CallOut(f, d.userData), t);
            && u.exit.None? && |u.calls| == |t.calls| + 1 && u.calls[..|t.calls|] == t.calls
            && CallMade(d, t.cpu.sp, u.calls[|t.calls|], f)
            && u.calls[|t.calls|].cpu.mem == t.cpu.mem && u.cpu == call(f, u.calls[|t.calls|].cpu)
  {
    hide RunAsm;
    var p := CallOut(f, d.userData);
    var t1 := StepAsm(call, p[0], t);
    assert t1 == t.(cpu := t1.cpu) && t1.cpu.x[0] == t.cpu.sp && t1.cpu.sp == t.cpu.sp && t1.cpu.mem == t.cpu.mem;
    var t2 := StepAsm(call, p[1], t1);
    assert t2 == t.(cpu := t2.cpu) && t2.cpu.x[0] == t.cpu.sp && t2.cpu.x[1] == d.userData;
    var t3 := StepAsm(call, p[2], t2);
    Run4(call, p, t);
  }

  /** Both callbacks are called, in order, with the same snapshot pointer and user data. */
  lemma TrampolineDispatches(call: Callee, d: Dispatch, cpu: ArmCpu, writes: iset<int>)
    requires FRAME <= cpu.sp && CallbacksOk(call, d, cpu, writes)
    ensures var t := Dispatched(call, d, cpu); var ctx := ContextOf(cpu);
            && t.exit.None? && |t.calls| == (if d.onLeave.Some? then 2 else 1)
            && CallMade(d, ctx, t.calls[0], d.onEnter) && Snapshot(t.calls[0].cpu.mem, ctx, cpu)
            && (d.onLeave.Some? ==>
                  && CallMade(d, ctx, t.calls[1], d.onLeave.value)
                  && t.calls[1].cpu.mem == call(d.onEnter, t.calls[0].cpu).mem)
            && t.cpu == call(t.calls[|t.calls| - 1].callee, t.calls[|t.calls| - 1].cpu)
            && t.cpu.sp == ctx && SameBut(SnapshotBytes(cpu) + writes, cpu.mem, t.cpu.mem)
  {
    hide StepAsm, Snapshot, CallOut, Save;
    var p := Save() + CallOut(d.onEnter, d.userData);
    RunAppend(call, p, LeaveCall(d), Start(cpu));
    RunAppend(call, Save(), CallOut(d.onEnter, d.userData), Start(cpu));
    SaveEffect(call, cpu);
    var t1 := RunAsm(call, Save(), Start(cpu));
    CallOutEffect(call, d, d.onEnter, t1);
    var t2 := RunAsm(call, CallOut(d.onEnter, d.userData), t1);
    if d.onLeave.Some? {
      CallOutEffect(call, d, d.onLeave.value, t2);
      assert Dispatched(call, d, cpu).calls[0] == t2.calls[0];
    }
    assert CallbackOk(call, t2.calls[0], writes);
  }

  /** Callbacks that keep to the given addresses whenever they are called with the trampoline's arguments and stack do
      so in the calls it makes. */
  lemma FitFromEverywhere(call: Callee, d: Dispatch, cpu: ArmCpu, writes: iset<int>)
    requires FRAME <= cpu.sp
    requires forall c: Call {:trigger CallbackOk(call, c, writes)} ::
               CallMade(d, ContextOf(cpu), c, c.callee) ==> CallbackOk(call, c, writes)
    ensures CallbacksOk(call, d, cpu, writes)
  {
    hide StepAsm, Snapshot, CallOut, Save;
    var p := Save() + CallOut(d.onEnter, d.userData);
    RunAppend(call, p, LeaveCall(d), Start(cpu));
    RunAppend(call, Save(), CallOut(d.onEnter, d.userData), Start(cpu));
    SaveEffect(call, cpu);
    var t1 := RunAsm(call, Save(), Start(cpu));
    CallOutEffect(call, d, d.onEnter, t1);
    var t2 := RunAsm(call, CallOut(d.onEnter, d.userData), t1);
    assert CallbackOk(call, t2.calls[0], writes);
    if d.onLeave.Some? {
      CallOutEffect(call, d, d.onLeave.value, t2);
      assert Dispatched(call, d, cpu).calls[0] == t2.calls[0];
    }
  }

  /** Every register except X16, the stack pointer and the flags are reloaded from the snapshot as the callbacks
      left it; X16 carries the address of the relocated code. */
  lemma TrampolineRestores(call: Callee, d: Dispatch, cpu: ArmCpu, writes: iset<int>)
    requires FRAME <= cpu.sp && CallbacksOk(call, d, cpu, writes)
    ensures var t := WholeRun(call, d, cpu); var m := Dispatched(call, d, cpu).cpu.mem; var ctx := ContextOf(cpu);
            && t.exit == Some(d.relocated) && t.calls == Dispatched(call, d, cpu).calls
            && (forall r: Reg :: r != 16 ==> Slot(m, ctx, 8 * r, t.cpu.x[r]))
            && t.cpu.x[16] == d.relocated && Slot(m, ctx, 32 * 8, t.cpu.nzcv)
            && t.cpu.sp == cpu.sp && t.cpu.mem == m && SameBut(SnapshotBytes(cpu) + writes, cpu.mem, m)
  {
    TrampolineDispatches(call, d, cpu, writes);
    RestoreEffect(call, d, Dispatched(call, d, cpu));
    hide StepAsm, CallMade, CallOut, LeaveCall, Save, Snapshot, Restore;
    RunAppend(call, Save() + CallOut(d.onEnter, d.userData) + LeaveCall(d), Restore(d), Start(cpu));
  }

  lemma RestoreEffect(call: Callee, d: Dispatch, t: Trace)
    requires t.exit.None? && Room(t.cpu.sp)
    ensures var u := RunAsm(call, Restore(d), t);
            var ctx: int := t.cpu.sp; var m := t.cpu.mem;
            && u.exit == Some(d.relocated) && u.calls == t.calls && u.cpu.mem == m
            && (forall r: Reg :: r != 16 ==> Slot(m, ctx, 8 * r, u.cpu.x[r]))
            && u.cpu.x[16] == d.relocated && Slot(m, ctx, 32 * 8, u.cpu.nzcv) && u.cpu.sp == ctx + FRAME
  {
    hide Quad, StepAsm;
    RunAppend(call, LOAD_FLAGS + LoadPairs(0, 15), Tail(d.relocated), t);
    RunAppend(call, LOAD_FLAGS, LoadPairs(0, 15), t);
    var t1 := RunAsm(call, LOAD_FLAGS, t);
    FlagsEffect(call, t);
    LoadPairsEffect(call, 0, t1);
    var t2 := RunAsm(call, LoadPairs(0, 15), t1);
    TailEffect(call, d, t2);
  }

  lemma TailEffect(call: Callee, d: Dispatch, t: Trace)
    requires t.exit.None? && Room(t.cpu.sp)
    ensures var u := RunAsm(call, Tail(d.relocated), t); var sp: int := t.cpu.sp;
            && u.exit == Some(d.relocated) && u.calls == t.calls && u.cpu.mem == t.cpu.mem
            && u.cpu.nzcv == t.cpu.nzcv && u.cpu.sp == sp + FRAME
            && u.cpu.x == t.cpu.x[30 := Quad(t.cpu.mem, sp + 240)][16 := d.relocated]
  {
    hide Quad;
    Run4(call, Tail(d.relocated), t);
  }

  lemma FlagsEffect(call: Callee, t: Trace)
    requires t.exit.None? && Room(t.cpu.sp)
    ensures var u := RunAsm(call, LOAD_FLAGS, t); var sp: int := t.cpu.sp;
            && u == t.(cpu := u.cpu) && u.cpu.sp == sp && u.cpu.mem == t.cpu.mem
            && Slot(t.cpu.mem, sp, 32 * 8, u.cpu.nzcv)
  {
    hide LoadAt, Slot, RunAsm;
    LoadEffect(t.cpu, 16, 32 * 8);
    RunTwo(call, Load(16, 32 * 8), WriteFlags(16), t);
  }

  lemma RunTwo(call: Callee, i: Asm, j: Asm, t: Trace)
    ensures RunAsm(call, [i, j], t) == StepAsm(call, j, StepAsm(call, i, t))
  {
    hide StepAsm;
    var p := [i, j];
    assert p[1..] == [j] && [j][1..] == [];
    assert RunAsm(call, p, t) == RunAsm(call, [j], StepAsm(call, i, t));
  }

  /** With callbacks that leave the snapshot alone, only X16 differs behind the trampoline, and no byte but the
      snapshot's and the callbacks' own has changed. */
  lemma TrampolineTransparent(call: Callee, d: Dispatch, cpu: ArmCpu, writes: iset<int>)
    requires FRAME <= cpu.sp && CallbacksOk(call, d, cpu, writes) && Spares(writes, ContextOf(cpu), cpu.sp)
    ensures var t := WholeRun(call, d, cpu);
            && t.exit == Some(d.relocated)
            && t.cpu.x == cpu.x[16 := d.relocated] && t.cpu.sp == cpu.sp && t.cpu.nzcv == cpu.nzcv
            && SameBut(SnapshotBytes(cpu) + writes, cpu.mem, t.cpu.mem)
  {
    hide Dispatched, WholeRun, Quad, Peek;
    var ctx := ContextOf(cpu);
    TrampolineDispatches(call, d, cpu, writes);
    TrampolineRestores(call, d, cpu, writes);
    var t, calls := WholeRun(call, d, cpu), Dispatched(call, d, cpu).calls;
    var m := Dispatched(call, d, cpu).cpu.mem;
    assert CallbackOk(call, calls[0], writes) && CallbackOk(call, calls[|calls| - 1], writes);
    assert SameBut(writes, calls[0].cpu.mem, m);
    forall r: Reg | r != 16
      ensures t.cpu.x[r] == cpu.x[r]
    {
      SlotSpared(writes, calls[0].cpu.mem, m, ctx, 8 * r, cpu.x[r]);
    }
    SlotSpared(writes, calls[0].cpu.mem, m, ctx, 32 * 8, cpu.nzcv);
  }

  lemma SlotSpared(writes: iset<int>, m: Memory, m': Memory, ctx: int, off: nat, v: u64)
    requires 0 <= ctx && ctx + FRAME <= TWO_64 && off + 8 <= FRAME && Slot(m, ctx, off, v)
    requires SameBut(writes, m, m') && Spares(writes, ctx, ctx + FRAME)
    ensures Slot(m', ctx, off, v)
  {
    hide Quad, Peek;
    forall x | Within(x, ctx + off, ctx + off + 8)
      ensures x !in writes
    {
      assert Within(x, ctx, ctx + FRAME);
    }
    QuadSpared(writes, m, m', ctx + off);
  }

  // ---------- A callback that writes to the snapshot ----------

  /** Quads of the snapshot: x0-x30, the stack pointer, the flags and one of padding. */
  const QUADS := 34

  const FLAGS_QUAD := 32

  /** What the code behind the trampoline sees of a value written to quad `k`: a register or the flags.  X16 is about to
      carry the address of the relocated code, and the stack pointer is not reloaded. */
  function Overwrite(k: nat, v: u64, cpu: ArmCpu): ArmCpu {
    if k < 31 && k != 16 then cpu.(x := cpu.x[k := v])
    else if k == FLAGS_QUAD then cpu.(nzcv := v)
    else cpu
  }

  /** In the call it gets, the first callback writes the value `v` to quad `k` of the snapshot, and otherwise only the
      given addresses; the second one writes only those. */
  ghost predicate WritesSlot(call: Callee, d: Dispatch, cpu: ArmCpu, k: nat, v: u64, writes: iset<int>) {
    var calls := Dispatched(call, d, cpu).calls;
    && (forall i :: 0 < i < |calls| ==> CallbackOk(call, calls[i], writes))
    && calls != [] && SlotPoked(call, calls[0], ContextOf(cpu) + 8 * k, v, writes)
  }

  ghost predicate SlotPoked(call: Callee, c: Call, a: int, v: u64, writes: iset<int>) {
    call(c.callee, c.cpu).sp == c.cpu.sp && SameBut(writes, PokeQuad(c.cpu.mem, a, v), call(c.callee, c.cpu).mem)
  }

  /** A callback that writes one quad of the snapshot changes exactly the register, or the flags, saved there; writing
      the quads of X16 and of the stack pointer changes nothing. */
  lemma OneSlotWritten(call: Callee, d: Dispatch, cpu: ArmCpu, k: nat, v: u64, writes: iset<int>)
    requires FRAME <= cpu.sp && k < QUADS && Spares(writes, ContextOf(cpu), cpu.sp)
    requires WritesSlot(call, d, cpu, k, v, writes)
    ensures var t := WholeRun(call, d, cpu); var seen := Overwrite(k, v, cpu);
            && t.exit == Some(d.relocated)
            && t.cpu.x == seen.x[16 := d.relocated] && t.cpu.nzcv == seen.nzcv && t.cpu.sp == cpu.sp
            && SameBut(SnapshotBytes(cpu) + writes, cpu.mem, t.cpu.mem)
  {
    hide Dispatched, WholeRun, Quad, PokeQuad, Peek;
    var ctx := ContextOf(cpu);
    var all := SnapshotBytes(cpu) + writes;
    SlotWriterOk(call, d, cpu, k, v, writes);
    TrampolineDispatches(call, d, cpu, all);
    TrampolineRestores(call, d, cpu, all);
    var t, calls := WholeRun(call, d, cpu), Dispatched(call, d, cpu).calls;
    var m := Dispatched(call, d, cpu).cpu.mem;
    var poked := PokeQuad(calls[0].cpu.mem, ctx + 8 * k, v);
    assert SameBut(writes, poked, call(d.onEnter, calls[0].cpu).mem);
    assert d.onLeave.Some? ==> CallbackOk(call, calls[1], writes);
    assert SameBut(writes, poked, m);
    forall r: Reg | r != 16
      ensures t.cpu.x[r] == Overwrite(k, v, cpu).x[r]
    {
      SlotAfterPoke(calls[0].cpu.mem, ctx, k, v, r, cpu.x[r]);
      SlotSpared(writes, poked, m, ctx, 8 * r, if r == k then v else cpu.x[r]);
    }
    SlotAfterPoke(calls[0].cpu.mem, ctx, k, v, FLAGS_QUAD, cpu.nzcv);
    SlotSpared(writes, poked, m, ctx, 8 * FLAGS_QUAD, if FLAGS_QUAD == k then v else cpu.nzcv);
  }

  lemma SlotAfterPoke(m: Memory, ctx: int, k: nat, v: u64, i: nat, w: u64)
    requires k < QUADS && i < QUADS && 0 <= ctx && ctx + FRAME <= TWO_64 && Slot(m, ctx, 8 * i, w)
    ensures Slot(PokeQuad(m, ctx + 8 * k, v), ctx, 8 * i, if i == k then v else w)
  {
    if i == k {
      PokeQuadReads(m, ctx + 8 * k, v);
    } else {
      QuadAgrees(m, PokeQuad(m, ctx + 8 * k, v), ctx + 8 * i);
    }
  }

  lemma SlotWriterOk(call: Callee, d: Dispatch, cpu: ArmCpu, k: nat, v: u64, writes: iset<int>)
    requires k < QUADS && WritesSlot(call, d, cpu, k, v, writes)
    ensures CallbacksOk(call, d, cpu, SnapshotBytes(cpu) + writes)
  {
    hide Peek, PokeQuad, Dispatched;
    var all := SnapshotBytes(cpu) + writes;
    var a := ContextOf(cpu) + 8 * k;
    var calls := Dispatched(call, d, cpu).calls;
    forall i | 0 <= i < |calls|
      ensures CallbackOk(call, calls[i], all)
    {
      if i == 0 {
        PokeQuadIsLocal(calls[i].cpu.mem, a, v);
        assert forall x :: x in Span(a, a + 8) ==> x in SnapshotBytes(cpu);
      } else {
        assert CallbackOk(call, calls[i], writes);
      }
    }
  }

  // ---------- A callback that uses its stack ----------

  /** A callback that saves its link register below its stack pointer, as compiled functions do. */
  function PushingCallback(): Callee {
    (f: u64, c: ArmCpu) => c.(mem := PokeQuad(c.mem, c.sp - 8, c.x[30]))
  }

  lemma PushingCallbackIsFit(d: Dispatch, cpu: ArmCpu)
    requires FRAME + 8 <= cpu.sp
    ensures var frame := Span(ContextOf(cpu) - 8, ContextOf(cpu));
            && CallbacksOk(PushingCallback(), d, cpu, frame) && Spares(frame, ContextOf(cpu), cpu.sp)
            && forall c: Call {:trigger PushingCallback()(c.callee, c.cpu)} :: c.cpu.sp == ContextOf(cpu) ==>
                 Quad(PushingCallback()(c.callee, c.cpu).mem, c.cpu.sp - 8) == c.cpu.x[30]
  {
    hide Quad, PokeQuad, Peek, Dispatched;
    var frame := Span(ContextOf(cpu) - 8, ContextOf(cpu));
    forall c: Call | c.cpu.sp == ContextOf(cpu)
      ensures Quad(PushingCallback()(c.callee, c.cpu).mem, c.cpu.sp - 8) == c.cpu.x[30]
      ensures CallbackOk(PushingCallback(), c, frame)
    {
      var sp: int := c.cpu.sp;
      PokeQuadReads(c.cpu.mem, sp - 8, c.cpu.x[30]);
      PokeQuadIsLocal(c.cpu.mem, sp - 8, c.cpu.x[30]);
    }
    FitFromEverywhere(PushingCallback(), d, cpu, frame);
  }
}
