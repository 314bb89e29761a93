/**
  The x86-64 fragment on which hooks are judged.  Jumps, conditional jumps and the indirect jump through a
  RIP-relative literal are decoded from bytes; every other instruction is position independent and opaque:
  `length` and `effect` stand for the processor's decoder and for what the instruction does.
  Code and data are separate memories: no instruction rewrites the code that is being compared.
 */
module X86Machine {
  import opened Results
  import opened Words

  // ---------- Memory ----------

  /** Byte memory; addresses that are not mapped read as zero. */
  type Memory = map<int, byte>

  function Peek(m: Memory, a: int): byte {
    if a in m then m[a] else 0
  }

  function Fetch(m: Memory, a: int, n: nat): (bs: seq<byte>)
    ensures |bs| == n
  {
    seq<byte>(n, i requires 0 <= i < n => Peek(m, Wrap(a + i)))
  }

  /** `bs` lies in memory from address `a` on. */
  ghost predicate Holds(m: Memory, a: int, bs: seq<byte>) {
    Fetch(m, a, |bs|) == bs
  }

  lemma HoldsAt(m: Memory, a: int, bs: seq<byte>, i: nat)
    requires Holds(m, a, bs) && i < |bs|
    ensures Peek(m, Wrap(a + i)) == bs[i]
  {
    assert Fetch(m, a, |bs|)[i] == bs[i];
  }

  /** A stretch of a byte string in memory is itself in memory, at its own address. */
  lemma HoldsPart(m: Memory, a: int, bs: seq<byte>, lo: nat, hi: nat)
    requires Holds(m, a, bs) && lo <= hi <= |bs|
    ensures Holds(m, a + lo, bs[lo..hi])
  {
    var part := bs[lo..hi];
    forall i | 0 <= i < |part|
      ensures Fetch(m, a + lo, |part|)[i] == part[i]
    {
      HoldsAt(m, a, bs, lo + i);
      assert a + lo + i == a + (lo + i);
    }
  }

  lemma FetchWrap(m: Memory, a: int, n: nat)
    ensures Fetch(m, Wrap(a), n) == Fetch(m, a, n)
  {
    forall i | 0 <= i < n
      ensures Fetch(m, Wrap(a), n)[i] == Fetch(m, a, n)[i]
    {
      WrapAdd(a, i);
    }
  }

  lemma HoldsWrap(m: Memory, a: int, bs: seq<byte>)
    requires Holds(m, a, bs)
    ensures Holds(m, Wrap(a), bs)
  {
    FetchWrap(m, a, |bs|);
  }

  /** memcpy of `bs` to address `a`. */
  function Poke(m: Memory, a: int, bs: seq<byte>): (m': Memory)
    ensures forall x :: x in m' <==> x in m || a <= x < a + |bs|
    ensures forall x :: Peek(m', x) == if a <= x < a + |bs| then bs[x - a] else Peek(m, x)
    decreases |bs|
  {
    if bs == [] then m else Poke(m[a := bs[0]], a + 1, bs[1..])
  }

  lemma PokeHolds(m: Memory, a: nat, bs: seq<byte>)
    requires a + |bs| <= TWO_64
    ensures Holds(Poke(m, a, bs), a, bs)
  {
    var m' := Poke(m, a, bs);
    forall i | 0 <= i < |bs|
      ensures Fetch(m', a, |bs|)[i] == bs[i]
    {
      assert Wrap(a + i) == a + i;
    }
  }

  /** Two memories that agree on a stretch of addresses read the same there. */
  lemma FetchAgrees(m: Memory, m': Memory, a: nat, n: nat)
    requires a + n <= TWO_64
    requires forall x :: a <= x < a + n ==> Peek(m, x) == Peek(m', x)
    ensures Fetch(m, a, n) == Fetch(m', a, n)
  {
    forall i | 0 <= i < n
      ensures Fetch(m, a, n)[i] == Fetch(m', a, n)[i]
    {
      assert Wrap(a + i) == a + i;
    }
  }

  lemma QuadBound(bs: seq<byte>)
    requires |bs| == 8
    ensures FromLe(bs) < TWO_64
  {
    assert Power(256, 4) == TWO_32;
    assert Power(256, 8) == TWO_64;
    FromLeBound(bs);
  }

  lemma {:induction false} FromLeBound(bs: seq<byte>)
    ensures FromLe(bs) < Power(256, |bs|)
  {
    if bs != [] {
      FromLeBound(bs[1..]);
    }
  }

  function Quad(m: Memory, a: int): u64 {
    QuadBound(Fetch(m, a, 8));
    FromLe(Fetch(m, a, 8))
  }

  function PokeQuad(m: Memory, a: int, v: u64): Memory {
    Poke(m, a, LeBytes(v, 8))
  }

  lemma PokeQuadReads(m: Memory, a: nat, v: u64)
    requires a + 8 <= TWO_64
    ensures Quad(PokeQuad(m, a, v), a) == v
  {
    PokeHolds(m, a, LeBytes(v, 8));
    QuadRoundTrip(v);
  }

  lemma QuadAgrees(m: Memory, m': Memory, a: nat)
    requires a + 8 <= TWO_64
    requires forall x :: a <= x < a + 8 ==> Peek(m, x) == Peek(m', x)
    ensures Quad(m, a) == Quad(m', a)
  {
    FetchAgrees(m, m', a, 8);
  }

  /** Nothing but these addresses changed. */
  ghost predicate SameBut(changed: iset<int>, m: Memory, m': Memory) {
    forall x :: x !in changed ==> Peek(m, x) == Peek(m', x)
  }

  predicate Within(x: int, lo: int, hi: int) {
    lo <= x < hi
  }

  ghost function Span(lo: int, hi: int): iset<int> {
    iset x | Within(x, lo, hi)
  }

  /** None of the addresses lies in the span. */
  ghost predicate Spares(addresses: iset<int>, lo: int, hi: int) {
    forall x :: Within(x, lo, hi) ==> x !in addresses
  }

  lemma PokeQuadIsLocal(m: Memory, a: int, v: u64)
    ensures SameBut(Span(a, a + 8), m, PokeQuad(m, a, v))
  {
  }

  /** A quad that no changed address touches. */
  lemma QuadSpared(changed: iset<int>, m: Memory, m': Memory, a: nat)
    requires a + 8 <= TWO_64 && SameBut(changed, m, m') && Spares(changed, a, a + 8)
    ensures Quad(m, a) == Quad(m', a)
  {
    forall x | a <= x < a + 8
      ensures Peek(m, x) == Peek(m', x)
    {
      assert Within(x, a, a + 8);
    }
    QuadAgrees(m, m', a);
  }

  // ---------- Flags and conditions ----------

  predicate Bit(x: nat, i: nat) {
    x / Power(2, i) % 2 == 1
  }

  const CF := 0
  const PF := 2
  const ZF := 6
  const SF := 7
  const OF := 11

  /** The sixteen condition codes (Intel SDM Volume 1, Appendix B). */
  predicate Condition(cc: nat, flags: u64)
    requires cc < 16
  {
    match cc
    case 0 => Bit(flags, OF)
    case 1 => !Bit(flags, OF)
    case 2 => Bit(flags, CF)
    case 3 => !Bit(flags, CF)
    case 4 => Bit(flags, ZF)
    case 5 => !Bit(flags, ZF)
    case 6 => Bit(flags, CF) || Bit(flags, ZF)
    case 7 => !Bit(flags, CF) && !Bit(flags, ZF)
    case 8 => Bit(flags, SF)
    case 9 => !Bit(flags, SF)
    case 10 => Bit(flags, PF)
    case 11 => !Bit(flags, PF)
    case 12 => Bit(flags, SF) != Bit(flags, OF)
    case 13 => Bit(flags, SF) == Bit(flags, OF)
    case 14 => Bit(flags, ZF) || Bit(flags, SF) != Bit(flags, OF)
    case _ => !Bit(flags, ZF) && Bit(flags, SF) == Bit(flags, OF)
  }

  // ---------- Machine ----------

  /** General-purpose registers by their hardware number. */
  type RegisterFile = r: seq<u64> | |r| == 16 witness seq(16, _ => 0)

  const RAX := 0
  const RCX := 1
  const RDX := 2
  const RBX := 3
  const RSP := 4
  const RBP := 5
  const RSI := 6
  const RDI := 7

  datatype Cpu = Cpu(regs: RegisterFile, flags: u64, mem: Memory)

  datatype State = State(pc: u64, cpu: Cpu)

  /** What one instruction does: run on to the next one, or transfer control. */
  datatype Outcome = Fall(cpu: Cpu) | Goto(pc: u64, cpu: Cpu)

  datatype Isa = Isa(length: seq<byte> -> nat, effect: (seq<byte>, Cpu) -> Outcome)

  const MAX_INSN := 16

  datatype Insn =
    | Plain(size: nat)
    | Jump(size: nat, target: u64)
    | Branch(cc: nat, size: nat, target: u64)
    | JumpVia(size: nat, slot: u64)
    | Invalid(size: nat)

  function Rel32(w: seq<byte>, at: nat): int
    requires at + 4 <= |w|
  {
    Signed32(FromLe(w[at..at + 4]))
  }

  function Decode(isa: Isa, pc: u64, w: seq<byte>): (insn: Insn)
    requires |w| == MAX_INSN
    ensures insn.Branch? ==> insn.cc < 16
    ensures insn.Invalid? <==> insn.size == 0
    ensures insn.size < MAX_INSN
  {
    if w[0] == 0xE9 then Jump(5, Wrap(pc + 5 + Rel32(w, 1)))
    else if w[0] == 0xEB then Jump(2, Wrap(pc + 2 + Signed8(w[1])))
    else if 0x70 <= w[0] <= 0x7F then Branch(w[0] - 0x70, 2, Wrap(pc + 2 + Signed8(w[1])))
    else if w[0] == 0x0F && 0x80 <= w[1] <= 0x8F then Branch(w[1] - 0x80, 6, Wrap(pc + 6 + Rel32(w, 2)))
    else if w[0] == 0xFF && w[1] == 0x25 then JumpVia(6, Wrap(pc + 6 + Rel32(w, 2)))
    else
      var n := isa.length(w);
      if 1 <= n < MAX_INSN then Plain(n) else Invalid(0)
  }

  function InsnAt(isa: Isa, code: Memory, pc: u64): (insn: Insn)
    ensures insn.Branch? ==> insn.cc < 16
  {
    Decode(isa, pc, Fetch(code, pc, MAX_INSN))
  }

  /** What is none of the encodings above is what the decoder says of the 16 bytes at the address: an instruction of 1
      to 15 bytes, or nothing. */
  lemma OtherDecodes(isa: Isa, code: Memory, pc: u64, w: seq<byte>)
    requires |w| == 16 && forall i :: 0 <= i < 16 ==> w[i] == Peek(code, Wrap(pc + i))
    requires w[0] != 0xE9 && w[0] != 0xEB && !(0x70 <= w[0] < 0x80)
    requires !(w[0] == 0x0F && 0x80 <= w[1] < 0x90) && !(w[0] == 0xFF && w[1] == 0x25)
    ensures InsnAt(isa, code, pc) == if 0 < isa.length(w) <= 15 then Plain(isa.length(w)) else Invalid(0)
  {
    assert Fetch(code, pc, 16) == w;
  }

  function Execute(isa: Isa, code: Memory, s: State): Option<Outcome> {
    match InsnAt(isa, code, s.pc)
    case Plain(n) => Some(isa.effect(Fetch(code, s.pc, n), s.cpu))
    case Jump(_, target) => Some(Goto(target, s.cpu))
    case Branch(cc, _, target) => Some(if Condition(cc, s.cpu.flags) then Goto(target, s.cpu) else Fall(s.cpu))
    case JumpVia(_, slot) => Some(Goto(Quad(code, slot), s.cpu))
    case Invalid(_) => None
  }

  function Step(isa: Isa, code: Memory, s: State): Option<State> {
    match Execute(isa, code, s)
    case None => None
    case Some(Fall(cpu)) => Some(State(Wrap(s.pc + InsnAt(isa, code, s.pc).size), cpu))
    case Some(Goto(pc, cpu)) => Some(State(pc, cpu))
  }

  function Run(isa: Isa, code: Memory, s: State, n: nat): Option<State>
    decreases n
  {
    if n == 0 then Some(s)
    else
      match Step(isa, code, s)
      case None => None
      case Some(t) => Run(isa, code, t, n - 1)
  }

  /** Running from `s` passes through `t`. */
  ghost predicate Reaches(isa: Isa, code: Memory, s: State, t: State) {
    exists n: nat :: Run(isa, code, s, n) == Some(t)
  }

  lemma ReachesSelf(isa: Isa, code: Memory, s: State)
    ensures Reaches(isa, code, s, s)
  {
    assert Run(isa, code, s, 0) == Some(s);
  }

  lemma ReachesStep(isa: Isa, code: Memory, s: State, t: State, u: State)
    requires Step(isa, code, s) == Some(t) && Reaches(isa, code, t, u)
    ensures Reaches(isa, code, s, u)
  {
    var n: nat :| Run(isa, code, t, n) == Some(u);
    assert Run(isa, code, s, n + 1) == Some(u);
  }

  lemma {:induction false} RunCompose(isa: Isa, code: Memory, s: State, m: nat, n: nat)
    requires Run(isa, code, s, m).Some?
    ensures Run(isa, code, s, m + n) == Run(isa, code, Run(isa, code, s, m).value, n)
    decreases m
  {
    if m != 0 {
      var t := Step(isa, code, s).value;
      assert Run(isa, code, s, m) == Run(isa, code, t, m - 1);
      assert Run(isa, code, s, m + n) == Run(isa, code, t, m + n - 1);
      RunCompose(isa, code, t, m - 1, n);
    }
  }

  lemma ReachesTrans(isa: Isa, code: Memory, s: State, t: State, u: State)
    requires Reaches(isa, code, s, t) && Reaches(isa, code, t, u)
    ensures Reaches(isa, code, s, u)
  {
    var m: nat :| Run(isa, code, s, m) == Some(t);
    var n: nat :| Run(isa, code, t, n) == Some(u);
    RunCompose(isa, code, s, m, n);
  }

  // ---------- What the decoded encodings mean ----------

  lemma WindowHolds(code: Memory, pc: u64, bs: seq<byte>)
    requires Holds(code, pc, bs) && |bs| <= MAX_INSN
    ensures Fetch(code, pc, MAX_INSN)[..|bs|] == bs
  {
    forall i | 0 <= i < |bs|
      ensures Fetch(code, pc, MAX_INSN)[i] == bs[i]
    {
      HoldsAt(code, pc, bs, i);
    }
  }

  /** A 32-bit displacement is read back with its sign. */
  lemma DisplacementReads(w: seq<byte>, at: nat, d: int)
    requires at + 4 <= |w| && -0x8000_0000 <= d < 0x8000_0000 && w[at..at + 4] == LeBytes(d % 0x1_0000_0000, 4)
    ensures Rel32(w, at) == d
  {
    DwordRoundTrip(d % 0x1_0000_0000);
  }

  /** E9 and a 32-bit displacement: a jump relative to the end of its five bytes. */
  lemma NearJumpGoes(isa: Isa, code: Memory, pc: u64, d: int, cpu: Cpu)
    requires -0x8000_0000 <= d < 0x8000_0000 && Holds(code, pc, [0xE9] + LeBytes(d % 0x1_0000_0000, 4))
    ensures Step(isa, code, State(pc, cpu)) == Some(State(Wrap(pc + 5 + d), cpu))
  {
    var bs := [0xE9] + LeBytes(d % 0x1_0000_0000, 4);
    var w := Fetch(code, pc, MAX_INSN);
    WindowHolds(code, pc, bs);
    assert w[0] == w[..5][0] && w[1..5] == w[..5][1..] == bs[1..];
    hide Fetch, LeBytes, FromLe;
    DisplacementReads(w, 1, d);
  }

  /** EB and an 8-bit displacement: a jump relative to the end of its two bytes. */
  lemma ShortJumpGoes(isa: Isa, code: Memory, pc: u64, d: int, cpu: Cpu)
    requires -0x80 <= d < 0x80 && Holds(code, pc, [0xEB, d % 0x100])
    ensures Step(isa, code, State(pc, cpu)) == Some(State(Wrap(pc + 2 + d), cpu))
  {
    var w := Fetch(code, pc, MAX_INSN);
    WindowHolds(code, pc, [0xEB, d % 0x100]);
    assert w[0] == w[..2][0] && w[1] == w[..2][1];
  }

  /** 70 to 7F: conditional jumps with an 8-bit displacement. */
  lemma ShortBranchGoes(isa: Isa, code: Memory, pc: u64, cc: nat, d: int, cpu: Cpu)
    requires cc < 16 && -0x80 <= d < 0x80 && Holds(code, pc, [0x70 + cc, d % 0x100])
    ensures Step(isa, code, State(pc, cpu)) ==
              Some(State(Wrap(pc + 2 + if Condition(cc, cpu.flags) then d else 0), cpu))
  {
    var w := Fetch(code, pc, MAX_INSN);
    WindowHolds(code, pc, [0x70 + cc, d % 0x100]);
    assert w[0] == w[..2][0] && w[1] == w[..2][1];
    hide Condition;
  }

  /** 0F 80 to 0F 8F: conditional jumps with a 32-bit displacement. */
  lemma NearBranchGoes(isa: Isa, code: Memory, pc: u64, cc: nat, d: int, cpu: Cpu)
    requires cc < 16 && -0x8000_0000 <= d < 0x8000_0000
    requires Holds(code, pc, [0x0F, 0x80 + cc] + LeBytes(d % 0x1_0000_0000, 4))
    ensures Step(isa, code, State(pc, cpu)) ==
              Some(State(Wrap(pc + 6 + if Condition(cc, cpu.flags) then d else 0), cpu))
  {
    var bs := [0x0F, 0x80 + cc] + LeBytes(d % 0x1_0000_0000, 4);
    var w := Fetch(code, pc, MAX_INSN);
    WindowHolds(code, pc, bs);
    assert w[0] == w[..6][0] && w[1] == w[..6][1] && w[2..6] == w[..6][2..] == bs[2..];
    hide Fetch, Condition, LeBytes, FromLe;
    DisplacementReads(w, 2, d);
  }

  /** The signed reading of a word. */
  function Signed64(x: u64): int {
    if x < 0x8000_0000_0000_0000 then x else x - 0x1_0000_0000_0000_0000
  }

  /** The flags as comparing `x` with `y` leaves them: carry, zero, sign and overflow of the difference. */
  ghost predicate Compared(flags: u64, x: u64, y: u64) {
    && (flags % 2 == 1 <==> x < y)
    && (flags / 0x40 % 2 == 1 <==> x == y)
    && (flags / 0x80 % 2 == 1 <==> Wrap(x - y) >= 0x8000_0000_0000_0000)
    && (flags / 0x800 % 2 == 1 <==> Signed64(Wrap(x - y)) != Signed64(x) - Signed64(y))
  }

  /** The flags the conditions read are bits 0, 2, 6, 7 and 11 of the flags register. */
  lemma FlagBits(flags: nat)
    ensures Bit(flags, 0) <==> flags % 2 == 1
    ensures Bit(flags, 2) <==> flags / 4 % 2 == 1
    ensures Bit(flags, 6) <==> flags / 0x40 % 2 == 1
    ensures Bit(flags, 7) <==> flags / 0x80 % 2 == 1
    ensures Bit(flags, 11) <==> flags / 0x800 % 2 == 1
  {
    assert Power(2, 0) == 1 && Power(2, 2) == 4 && Power(2, 6) == 0x40;
    assert Power(2, 7) == 2 * Power(2, 6) && Power(2, 11) == 16 * Power(2, 7);
  }

  /** After a comparison the condition codes mean what their mnemonics say. */
  lemma ConditionsCompare(flags: u64, x: u64, y: u64)
    requires Compared(flags, x, y)
    ensures Condition(0, flags) <==> Signed64(Wrap(x - y)) != Signed64(x) - Signed64(y)
    ensures Condition(2, flags) <==> x < y
    ensures Condition(4, flags) <==> x == y
    ensures Condition(6, flags) <==> x <= y
    ensures Condition(8, flags) <==> Signed64(Wrap(x - y)) < 0
    ensures Condition(10, flags) <==> flags / 4 % 2 == 1
    ensures Condition(12, flags) <==> Signed64(x) < Signed64(y)
    ensures Condition(14, flags) <==> Signed64(x) <= Signed64(y)
    ensures forall cc: nat :: cc < 16 && cc % 2 == 1 ==> Condition(cc, flags) == !Condition(cc - 1, flags)
  {
    FlagBits(flags);
    hide Bit;
    assert Wrap(x - y) == if x >= y then x - y else x - y + 0x1_0000_0000_0000_0000;
  }
}
