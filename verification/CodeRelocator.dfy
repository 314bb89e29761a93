/** The relocating copier and the patch encoder of code_relocator.cc, on x86-64. */
module CodeRelocator {
  import opened Results
  import opened Words
  import opened X86Machine

  const PATCH_SIZE := 14

  /** What the disassembler reports about one instruction. */
  datatype Facts = Facts(isPcRelative: bool, isBranch: bool, isCall: bool, target: u64)

  /** The disassembler's answers for instructions outside the decoded encodings, and the assembler's bytes
      for a jump to a label that is never bound. */
  datatype Tools = Tools(facts: (u64, seq<byte>) -> Facts, unboundJump: seq<byte>)

  datatype RelocationError = CannotDisassemble(address: u64)

  datatype Relocated = Relocated(code: seq<byte>, bytesConsumed: nat)

  // ---------- Emission ----------

  /** JMP [RIP+0] followed by its 8-byte literal. */
  function AbsoluteJump(target: u64): (bs: seq<byte>)
    ensures |bs| == PATCH_SIZE
  {
    [0xFF, 0x25, 0, 0, 0, 0] + LeBytes(target, 8)
  }

  function Analyze(isa: Isa, tools: Tools, code: Memory, addr: u64): Facts {
    match InsnAt(isa, code, addr)
    case Jump(_, target) => Facts(true, true, false, target)
    case Branch(_, _, target) => Facts(true, true, false, target)
    case _ => tools.facts(addr, Fetch(code, addr, MAX_INSN))
  }

  /** Size reported by disassembleOne: 0 at the null address and where nothing decodes. */
  function InsnSize(isa: Isa, code: Memory, addr: u64): (n: nat)
    ensures n < MAX_INSN
  {
    if addr == 0 then 0 else InsnAt(isa, code, addr).size
  }

  lemma SizeAgrees(isa: Isa, code: Memory, addr: u64)
    requires InsnSize(isa, code, addr) > 0
    ensures addr != 0 && InsnAt(isa, code, addr).size == InsnSize(isa, code, addr)
  {
  }

  function ConditionCode(first: byte, second: byte): nat {
    if 0x70 <= first <= 0x7F then first - 0x70
    else if first == 0x0F then (second - 0x80) % 256
    else 0
  }

  /** Jcc over an absolute jump, with the condition negated by flipping its low bit. */
  function ConditionalJump(cc: nat, target: u64): seq<byte> {
    [0x0F, (0x80 + XorOne(cc)) % 256] + LeBytes(14, 4) + AbsoluteJump(target)
  }

  /** The bytes emitted for the instruction at `addr`. */
  function Piece(isa: Isa, tools: Tools, code: Memory, addr: u64): seq<byte> {
    var w := Fetch(code, addr, MAX_INSN);
    var verbatim := w[..InsnSize(isa, code, addr)];
    var facts := Analyze(isa, tools, code, addr);
    if !facts.isPcRelative then verbatim
    else if w[0] == 0xE9 then AbsoluteJump(facts.target)
    else if w[0] == 0xE8 then [0xFF, 0x15, 2, 0, 0, 0] + tools.unboundJump + LeBytes(facts.target, 8)
    else if facts.isBranch && !facts.isCall then ConditionalJump(ConditionCode(w[0], w[1]), facts.target)
    else verbatim
  }

  /** What is emitted from offset `off` on, until at least `minBytes` bytes are covered. */
  function RelocateFrom(isa: Isa, tools: Tools, code: Memory, source: u64, off: nat, minBytes: nat)
    : Result<Relocated, RelocationError>
    decreases minBytes - off
  {
    var addr := Wrap(source + off);
    if off >= minBytes then Success(Relocated(AbsoluteJump(addr), off))
    else
      var size := InsnSize(isa, code, addr);
      if size == 0 then Failure(CannotDisassemble(addr))
      else
        match RelocateFrom(isa, tools, code, source, off + size, minBytes)
        case Failure(e) => Failure(e)
        case Success(rest) => Success(rest.(code := Piece(isa, tools, code, addr) + rest.code))
  }

  function Prepend(bytes: seq<byte>, r: Result<Relocated, RelocationError>): Result<Relocated, RelocationError> {
    match r
    case Failure(e) => Failure(e)
    case Success(rest) => Success(rest.(code := bytes + rest.code))
  }

  method BuildRelocatedCode(isa: Isa, tools: Tools, code: Memory, source: u64, minBytes: nat)
    returns (result: Result<Relocated, RelocationError>)
    ensures result == RelocateFrom(isa, tools, code, source, 0, minBytes)
  {
    hide InsnSize, Piece, AbsoluteJump;
    var emitted: seq<byte> := [];
    var srcOffset: nat := 0;
    ghost var whole := RelocateFrom(isa, tools, code, source, 0, minBytes);
    assert whole.Success? ==> [] + whole.value.code == whole.value.code;
    while srcOffset < minBytes
      invariant whole == Prepend(emitted, RelocateFrom(isa, tools, code, source, srcOffset, minBytes))
      decreases minBytes - srcOffset
    {
      var addr := Wrap(source + srcOffset);
      var insnSize := InsnSize(isa, code, addr);
      if insnSize == 0 {
        return Failure(CannotDisassemble(addr));
      }
      var piece := Piece(isa, tools, code, addr);
      ghost var rest := RelocateFrom(isa, tools, code, source, srcOffset + insnSize, minBytes);
      assert rest.Success? ==> emitted + (piece + rest.value.code) == emitted + piece + rest.value.code;
      emitted := emitted + piece;
      srcOffset := srcOffset + insnSize;
    }
    emitted := emitted + AbsoluteJump(Wrap(source + srcOffset));
    return Success(Relocated(emitted, srcOffset));
  }

  /** What a relative call becomes: FF 15 with displacement 2, which calls through the quad two bytes behind it.  With
      an unbound jump of two bytes that quad is the literal with the target, and it ends the piece. */
  lemma CallPiece(isa: Isa, tools: Tools, code: Memory, addr: u64)
    requires Fetch(code, addr, MAX_INSN)[0] == 0xE8 && Analyze(isa, tools, code, addr).isPcRelative
    ensures var p := Piece(isa, tools, code, addr);
            && p[..2] == [0xFF, 0x15] && FromLe(p[2..6]) == 2
            && (|tools.unboundJump| == 2 ==> |p| == 16 && FromLe(p[8..]) == Analyze(isa, tools, code, addr).target)
  {
    var target := Analyze(isa, tools, code, addr).target;
    var p := Piece(isa, tools, code, addr);
    hide Piece, Fetch;
    assert p == [0xFF, 0x15, 2, 0, 0, 0] + tools.unboundJump + LeBytes(target, 8) by {
      CallBytes(isa, tools, code, addr);
    }
    DwordRoundTrip(2);
    assert LeBytes(2, 4) == [2] + LeBytes(0, 3) && LeBytes(0, 3) == [0] + LeBytes(0, 2);
    assert LeBytes(0, 2) == [0] + LeBytes(0, 1) && LeBytes(0, 1) == [0] + LeBytes(0, 0);
    assert p[2..6] == LeBytes(2, 4);
    QuadRoundTrip(target);
    if |tools.unboundJump| == 2 {
      assert p[8..] == LeBytes(target, 8);
    }
  }

  lemma CallBytes(isa: Isa, tools: Tools, code: Memory, addr: u64)
    requires Fetch(code, addr, MAX_INSN)[0] == 0xE8 && Analyze(isa, tools, code, addr).isPcRelative
    ensures Piece(isa, tools, code, addr) ==
              [0xFF, 0x15, 2, 0, 0, 0] + tools.unboundJump + LeBytes(Analyze(isa, tools, code, addr).target, 8)
  {
  }

  // ---------- How much is consumed ----------

  /** `off` is where some instruction of the linear decoding from `source` starts or ends. */
  ghost predicate Boundary(isa: Isa, code: Memory, source: u64, off: nat) {
    off == 0 ||
    exists prev: nat :: prev < off && Boundary(isa, code, source, prev) &&
      IsInsn(isa, code, Wrap(source + prev), off - prev)
  }

  /** An instruction of `n` bytes decodes at `a`, which is not the null address. */
  predicate IsInsn(isa: Isa, code: Memory, a: u64, n: nat) {
    a != 0 && !InsnAt(isa, code, a).Invalid? && InsnAt(isa, code, a).size == n
  }

  /** The size the disassembler reports is that of the instruction there; 0 says that there is none, or no address. */
  lemma SizeExact(isa: Isa, code: Memory, a: u64)
    ensures InsnSize(isa, code, a) > 0 ==> IsInsn(isa, code, a, InsnSize(isa, code, a))
    ensures InsnSize(isa, code, a) == 0 <==> a == 0 || InsnAt(isa, code, a).Invalid?
    ensures forall n: nat :: IsInsn(isa, code, a, n) ==> InsnSize(isa, code, a) == n > 0
  {
  }

  lemma BoundaryNext(isa: Isa, code: Memory, source: u64, off: nat)
    requires Boundary(isa, code, source, off) && InsnSize(isa, code, Wrap(source + off)) > 0
    ensures Boundary(isa, code, source, off + InsnSize(isa, code, Wrap(source + off)))
  {
    SizeExact(isa, code, Wrap(source + off));
    hide InsnAt, InsnSize, IsInsn;
    var next := off + InsnSize(isa, code, Wrap(source + off));
    assert IsInsn(isa, code, Wrap(source + off), next - off);
  }

  /** No boundary lies strictly inside an instruction that starts at a boundary. */
  lemma {:induction false} BoundariesDoNotOverlap(isa: Isa, code: Memory, source: u64, off: nat, b: nat)
    requires Boundary(isa, code, source, off) && Boundary(isa, code, source, b) && off < b
    ensures InsnSize(isa, code, Wrap(source + off)) > 0
    ensures off + InsnSize(isa, code, Wrap(source + off)) <= b
    decreases off + b
  {
    hide InsnAt, InsnSize, IsInsn;
    var prev: nat :| prev < b && Boundary(isa, code, source, prev) && IsInsn(isa, code, Wrap(source + prev), b - prev);
    SizeExact(isa, code, Wrap(source + prev));
    if off < prev {
      BoundariesDoNotOverlap(isa, code, source, off, prev);
    } else if prev < off {
      BoundariesDoNotOverlap(isa, code, source, prev, off);
    }
  }

  /** The decoding reaches `b`, and the address there is null or nothing decodes there. */
  ghost predicate StuckAt(isa: Isa, code: Memory, source: u64, b: nat) {
    Boundary(isa, code, source, b) && (Wrap(source + b) == 0 || InsnAt(isa, code, Wrap(source + b)).Invalid?)
  }

  /** The decoding gets stuck before `minBytes`. */
  ghost predicate Stuck(isa: Isa, code: Memory, source: u64, minBytes: nat) {
    exists b: nat :: b < minBytes && StuckAt(isa, code, source, b)
  }

  /** The failure names the address at which the decoding gets stuck. */
  ghost predicate NothingDecodes(isa: Isa, code: Memory, source: u64, minBytes: nat, error: RelocationError) {
    exists b: nat :: b < minBytes && StuckAt(isa, code, source, b) && error == CannotDisassemble(Wrap(source + b))
  }

  lemma {:induction false} ConsumedFrom(isa: Isa, tools: Tools, code: Memory, source: u64, off: nat, minBytes: nat)
    requires Boundary(isa, code, source, off)
    requires forall b: nat :: Boundary(isa, code, source, b) && b >= minBytes ==> b >= off
    ensures var r := RelocateFrom(isa, tools, code, source, off, minBytes);
            r.Success? ==>
              && r.value.bytesConsumed >= minBytes
              && Boundary(isa, code, source, r.value.bytesConsumed)
              && forall b: nat :: Boundary(isa, code, source, b) && b >= minBytes ==> b >= r.value.bytesConsumed
    ensures var r := RelocateFrom(isa, tools, code, source, off, minBytes);
            r.Failure? ==> NothingDecodes(isa, code, source, minBytes, r.error)
    decreases minBytes - off
  {
    SizeExact(isa, code, Wrap(source + off));
    hide InsnSize, Piece, InsnAt;
    var size := InsnSize(isa, code, Wrap(source + off));
    if off < minBytes && size > 0 {
      BoundaryNext(isa, code, source, off);
      forall b: nat | Boundary(isa, code, source, b) && b >= minBytes
        ensures b >= off + size
      {
        BoundariesDoNotOverlap(isa, code, source, off, b);
      }
      ConsumedFrom(isa, tools, code, source, off + size, minBytes);
    } else if off < minBytes {
      assert StuckAt(isa, code, source, off);
    }
  }

  /** bytesConsumed is the least instruction boundary at or past minBytes; the copy fails exactly when the linear
      decoding reaches no such boundary, which is when it gets stuck before. */
  lemma BytesConsumed(isa: Isa, tools: Tools, code: Memory, source: u64, minBytes: nat)
    ensures var r := RelocateFrom(isa, tools, code, source, 0, minBytes);
            && (r.Success? <==> exists b: nat :: Boundary(isa, code, source, b) && b >= minBytes)
            && (r.Success? ==>
                  && r.value.bytesConsumed >= minBytes
                  && Boundary(isa, code, source, r.value.bytesConsumed)
                  && forall b: nat :: Boundary(isa, code, source, b) && b >= minBytes ==> b >= r.value.bytesConsumed)
            && (r.Failure? ==> NothingDecodes(isa, code, source, minBytes, r.error))
            && (r.Failure? <==> Stuck(isa, code, source, minBytes))
  {
    hide InsnAt;
    ConsumedFrom(isa, tools, code, source, 0, minBytes);
    if b: nat :| b < minBytes && StuckAt(isa, code, source, b) {
      var r := RelocateFrom(isa, tools, code, source, 0, minBytes);
      SizeExact(isa, code, Wrap(source + b));
      if r.Success? {
        BoundariesDoNotOverlap(isa, code, source, b, r.value.bytesConsumed);
      }
    }
    if b: nat :| Boundary(isa, code, source, b) && b >= minBytes {
      SucceedsBefore(isa, tools, code, source, 0, minBytes, b);
    }
  }

  lemma {:induction false} SucceedsBefore(
    isa: Isa, tools: Tools, code: Memory, source: u64, off: nat, minBytes: nat, b: nat)
    requires Boundary(isa, code, source, off) && Boundary(isa, code, source, b) && off <= b && minBytes <= b
    ensures RelocateFrom(isa, tools, code, source, off, minBytes).Success?
    decreases minBytes - off
  {
    hide InsnSize, InsnAt, IsInsn, Piece, Boundary;
    if off < minBytes {
      BoundariesDoNotOverlap(isa, code, source, off, b);
      BoundaryNext(isa, code, source, off);
      SucceedsBefore(isa, tools, code, source, off + InsnSize(isa, code, Wrap(source + off)), minBytes, b);
    }
  }

  /** A jump by E9, a conditional jump, or an instruction that is no branch, at an address that is not null. */
  predicate OrdinaryInsn(isa: Isa, tools: Tools, code: Memory, addr: u64) {
    var w := Fetch(code, addr, MAX_INSN);
    addr != 0 &&
    match InsnAt(isa, code, addr)
    case Jump(_, _) => w[0] == 0xE9
    case Branch(_, _, _) => true
    case Plain(_) => w[0] != 0xE8 && !tools.facts(addr, w).isBranch
    case _ => false
  }

  ghost predicate Ordinary(isa: Isa, tools: Tools, code: Memory, source: u64, off: nat, minBytes: nat)
    decreases minBytes - off
  {
    var addr := Wrap(source + off);
    var size := InsnAt(isa, code, addr).size;
    off < minBytes ==>
      size > 0 && OrdinaryInsn(isa, tools, code, addr) && Ordinary(isa, tools, code, source, off + size, minBytes)
  }

  /** A block of such instructions is always copied, and is one the copier handles. */
  lemma OrdinaryIsCopied(isa: Isa, tools: Tools, code: Memory, source: u64, off: nat, minBytes: nat)
    requires Ordinary(isa, tools, code, source, off, minBytes)
    ensures RelocateFrom(isa, tools, code, source, off, minBytes).Success?
    ensures BlockRelocatable(isa, tools, code, source, off, minBytes)
  {
    hide *;
    OrdinarySucceeds(isa, tools, code, source, off, minBytes);
    OrdinaryRelocatable(isa, tools, code, source, off, minBytes);
  }

  lemma {:induction false} OrdinarySucceeds(
    isa: Isa, tools: Tools, code: Memory, source: u64, off: nat, minBytes: nat)
    requires Ordinary(isa, tools, code, source, off, minBytes)
    ensures RelocateFrom(isa, tools, code, source, off, minBytes).Success?
    decreases minBytes - off
  {
    hide *;
    if off < minBytes {
      OrdinaryNext(isa, tools, code, source, off, minBytes);
      OrdinarySucceeds(isa, tools, code, source, off + InsnSize(isa, code, Wrap(source + off)), minBytes);
      SucceedsNext(isa, tools, code, source, off, minBytes);
    } else {
      NothingLeft(isa, tools, code, source, off, minBytes);
    }
  }

  lemma {:induction false} OrdinaryRelocatable(
    isa: Isa, tools: Tools, code: Memory, source: u64, off: nat, minBytes: nat)
    requires Ordinary(isa, tools, code, source, off, minBytes)
    ensures BlockRelocatable(isa, tools, code, source, off, minBytes)
    decreases minBytes - off
  {
    hide *;
    if off < minBytes {
      OrdinaryNext(isa, tools, code, source, off, minBytes);
      OrdinaryRelocatable(isa, tools, code, source, off + InsnSize(isa, code, Wrap(source + off)), minBytes);
      RelocatableNext(isa, tools, code, source, off, minBytes);
    } else {
      NothingLeft(isa, tools, code, source, off, minBytes);
    }
  }

  lemma NothingLeft(isa: Isa, tools: Tools, code: Memory, source: u64, off: nat, minBytes: nat)
    requires off >= minBytes
    ensures RelocateFrom(isa, tools, code, source, off, minBytes).Success?
    ensures BlockRelocatable(isa, tools, code, source, off, minBytes)
  {
  }

  lemma OrdinaryNext(isa: Isa, tools: Tools, code: Memory, source: u64, off: nat, minBytes: nat)
    requires off < minBytes && Ordinary(isa, tools, code, source, off, minBytes)
    ensures var size := InsnSize(isa, code, Wrap(source + off));
            && size > 0 && Relocatable(isa, tools, code, Wrap(source + off))
            && Ordinary(isa, tools, code, source, off + size, minBytes)
  {
    hide OrdinaryInsn, InsnSize, InsnAt, Relocatable;
    OrdinaryIsHandled(isa, tools, code, Wrap(source + off));
  }

  lemma SucceedsNext(isa: Isa, tools: Tools, code: Memory, source: u64, off: nat, minBytes: nat)
    requires off < minBytes && InsnSize(isa, code, Wrap(source + off)) > 0
    requires RelocateFrom(isa, tools, code, source, off + InsnSize(isa, code, Wrap(source + off)), minBytes).Success?
    ensures RelocateFrom(isa, tools, code, source, off, minBytes).Success?
  {
    hide InsnSize, Piece;
  }

  lemma RelocatableNext(isa: Isa, tools: Tools, code: Memory, source: u64, off: nat, minBytes: nat)
    requires off < minBytes && InsnSize(isa, code, Wrap(source + off)) > 0
    requires Relocatable(isa, tools, code, Wrap(source + off))
    requires BlockRelocatable(isa, tools, code, source, off + InsnSize(isa, code, Wrap(source + off)), minBytes)
    ensures BlockRelocatable(isa, tools, code, source, off, minBytes)
  {
    hide InsnSize, Relocatable;
  }

  lemma OrdinaryIsHandled(isa: Isa, tools: Tools, code: Memory, addr: u64)
    requires OrdinaryInsn(isa, tools, code, addr)
    ensures InsnSize(isa, code, addr) == InsnAt(isa, code, addr).size && Relocatable(isa, tools, code, addr)
  {
    hide Fetch;
  }

  // ---------- Meaning of the emitted pieces ----------

  /** A decoder reads only the bytes of the instruction it reports, and 0F and FF never stand alone. */
  ghost predicate ReadsOwnBytes(isa: Isa) {
    && (forall w, w': seq<byte> {:trigger isa.length(w), isa.length(w')} ::
          |w| == |w'| == MAX_INSN && 1 <= isa.length(w) < MAX_INSN && w[..isa.length(w)] == w'[..isa.length(w)] ==>
            isa.length(w') == isa.length(w))
    && (forall w: seq<byte> {:trigger isa.length(w)} ::
          |w| == MAX_INSN && w[0] in {0x0F, 0xFF} ==> isa.length(w) != 1)
  }

  /** The instruction at `addr` is one the copier handles: JMP rel32, a conditional jump, or an instruction
      that does not depend on its address and is copied verbatim. */
  predicate Relocatable(isa: Isa, tools: Tools, code: Memory, addr: u64) {
    var w := Fetch(code, addr, MAX_INSN);
    var facts := Analyze(isa, tools, code, addr);
    match InsnAt(isa, code, addr)
    case Jump(n, _) => w[0] == 0xE9
    case Branch(_, _, _) => true
    case Plain(n) => facts.isPcRelative ==> w[0] != 0xE8 && (facts.isBranch ==> facts.isCall)
    case _ => false
  }

  lemma NegatedCondition(cc: nat, flags: u64)
    requires cc < 16
    ensures XorOne(cc) < 16 && Condition(XorOne(cc), flags) == !Condition(cc, flags)
  {
  }

  lemma AbsoluteJumpGoes(isa: Isa, code: Memory, at: u64, target: u64, cpu: Cpu)
    requires Holds(code, at, AbsoluteJump(target))
    ensures Step(isa, code, State(at, cpu)) == Some(State(target, cpu))
  {
    var bs := AbsoluteJump(target);
    var w := Fetch(code, at, MAX_INSN);
    forall i: nat | i < 14
      ensures w[i] == bs[i]
    {
      HoldsAt(code, at, bs, i);
    }
    assert w[2..6] == LeBytes(0, 4);
    DwordRoundTrip(0);
    HoldsPart(code, at, bs, 6, 14);
    assert bs[6..14] == LeBytes(target, 8);
    FetchWrap(code, at + 6, 8);
    QuadRoundTrip(target);
  }

  lemma ConditionalJumpDecodes(isa: Isa, code: Memory, at: u64, cc: nat, target: u64)
    requires cc < 16 && Holds(code, at, ConditionalJump(cc, target))
    ensures XorOne(cc) < 16
    ensures InsnAt(isa, code, at) == Branch(XorOne(cc), 6, Wrap(at + 20))
    ensures Holds(code, Wrap(at + 6), AbsoluteJump(target))
  {
    var bs := ConditionalJump(cc, target);
    var w := Fetch(code, at, MAX_INSN);
    NegatedCondition(cc, 0);
    forall i: nat | i < 6
      ensures w[i] == bs[i]
    {
      HoldsAt(code, at, bs, i);
    }
    assert w[2..6] == LeBytes(14, 4);
    DwordRoundTrip(14);
    HoldsPart(code, at, bs, 6, 20);
    assert bs[6..20] == AbsoluteJump(target);
    FetchWrap(code, at + 6, 14);
  }

  /** The emitted pair transfers control to `target` exactly when `cc` holds; otherwise it ends at its own
      last byte, with nothing else changed. */
  lemma ConditionalJumpGoes(isa: Isa, code: Memory, at: u64, cc: nat, target: u64, cpu: Cpu)
    requires cc < 16 && Holds(code, at, ConditionalJump(cc, target))
    ensures Reaches(isa, code, State(at, cpu),
                    State(if Condition(cc, cpu.flags) then target else Wrap(at + 20), cpu))
  {
    ConditionalJumpDecodes(isa, code, at, cc, target);
    NegatedCondition(cc, cpu.flags);
    var s := State(at, cpu);
    if Condition(cc, cpu.flags) {
      var t := State(Wrap(at + 6), cpu);
      var u := State(target, cpu);
      AbsoluteJumpGoes(isa, code, t.pc, target, cpu);
      ReachesSelf(isa, code, u);
      ReachesStep(isa, code, t, u, u);
      ReachesStep(isa, code, s, t, u);
    } else {
      var t := State(Wrap(at + 20), cpu);
      ReachesSelf(isa, code, t);
      ReachesStep(isa, code, s, t, t);
    }
  }

  /** A verbatim copy of an opaque instruction decodes and acts as the original does. */
  lemma CopyActs(isa: Isa, code: Memory, addr: u64, code': Memory, at: u64, cpu: Cpu)
    requires ReadsOwnBytes(isa)
    requires InsnAt(isa, code, addr).Plain?
    requires Holds(code', at, Fetch(code, addr, MAX_INSN)[..InsnAt(isa, code, addr).size])
    ensures InsnAt(isa, code', at) == InsnAt(isa, code, addr)
    ensures Execute(isa, code', State(at, cpu)) == Execute(isa, code, State(addr, cpu))
  {
    var n := InsnAt(isa, code, addr).size;
    var w, w' := Fetch(code, addr, MAX_INSN), Fetch(code', at, MAX_INSN);
    forall i: nat | i < n
      ensures w'[i] == w[i]
    {
      HoldsAt(code', at, w[..n], i);
    }
    assert w[..n] == w'[..n];
    assert isa.length(w') == isa.length(w);
    assert Fetch(code', at, n) == w'[..n] && Fetch(code, addr, n) == w[..n];
  }

  /** Where execution of a piece ends up, given what the original instruction does. */
  function Landing(outcome: Outcome, next: u64): State {
    match outcome
    case Fall(cpu) => State(next, cpu)
    case Goto(pc, cpu) => State(pc, cpu)
  }

  /** One emitted piece does what its original instruction does: it transfers control to the same place, or
      runs on to the end of the piece. */
  lemma PieceMeaning(isa: Isa, tools: Tools, code: Memory, addr: u64, code': Memory, at: u64, cpu: Cpu)
    requires ReadsOwnBytes(isa) && addr != 0 && Relocatable(isa, tools, code, addr)
    requires Holds(code', at, Piece(isa, tools, code, addr))
    ensures Execute(isa, code, State(addr, cpu)).Some?
    ensures Reaches(isa, code', State(at, cpu),
                    Landing(Execute(isa, code, State(addr, cpu)).value,
                            Wrap(at + |Piece(isa, tools, code, addr)|)))
  {
    var s := State(at, cpu);
    var piece := Piece(isa, tools, code, addr);
    var outcome := Execute(isa, code, State(addr, cpu)).value;
    var t := Landing(outcome, Wrap(at + |piece|));
    match InsnAt(isa, code, addr)
    case Branch(cc, _, target) =>
      BranchPiece(isa, tools, code, addr);
      hide InsnAt, Piece, ConditionalJump, Relocatable, ReadsOwnBytes, Holds;
      ConditionalJumpGoes(isa, code', at, cc, target, cpu);
    case Jump(_, target) =>
      AbsoluteJumpGoes(isa, code', at, target, cpu);
      hide InsnAt, Piece, AbsoluteJump, Relocatable, ReadsOwnBytes, Holds;
      ReachesSelf(isa, code', t);
      ReachesStep(isa, code', s, t, t);
    case Plain(n) =>
      assert piece == Fetch(code, addr, MAX_INSN)[..n];
      CopyActs(isa, code, addr, code', at, cpu);
      hide InsnAt, Piece, Relocatable, ReadsOwnBytes, Holds;
      ReachesSelf(isa, code', t);
      ReachesStep(isa, code', s, t, t);
  }

  lemma BranchPiece(isa: Isa, tools: Tools, code: Memory, addr: u64)
    requires addr != 0 && InsnAt(isa, code, addr).Branch?
    ensures var insn := InsnAt(isa, code, addr);
            Piece(isa, tools, code, addr) == ConditionalJump(insn.cc, insn.target)
    ensures |Piece(isa, tools, code, addr)| == 20
  {
    var w := Fetch(code, addr, MAX_INSN);
    assert ConditionCode(w[0], w[1]) == InsnAt(isa, code, addr).cc;
  }

  // ---------- Meaning of the whole block ----------

  ghost predicate BlockRelocatable(isa: Isa, tools: Tools, code: Memory, source: u64, off: nat, minBytes: nat)
    decreases minBytes - off
  {
    var addr := Wrap(source + off);
    var size := InsnSize(isa, code, addr);
    off < minBytes ==>
      size > 0 && Relocatable(isa, tools, code, addr) &&
      BlockRelocatable(isa, tools, code, source, off + size, minBytes)
  }

  /** The state in which the original code leaves its block: at the first transfer of control, or after the
      first instruction boundary at or past `minBytes`. */
  ghost function ExitState(isa: Isa, code: Memory, source: u64, off: nat, minBytes: nat, cpu: Cpu): Option<State>
    decreases minBytes - off
  {
    var addr := Wrap(source + off);
    var size := InsnSize(isa, code, addr);
    if off >= minBytes then Some(State(addr, cpu))
    else if size == 0 then None
    else
      match Execute(isa, code, State(addr, cpu))
      case None => None
      case Some(Goto(pc, c)) => Some(State(pc, c))
      case Some(Fall(c)) => ExitState(isa, code, source, off + size, minBytes, c)
  }

  /** The exit state is one the original code really runs to. */
  lemma {:induction false} ExitIsReached(isa: Isa, code: Memory, source: u64, off: nat, minBytes: nat, cpu: Cpu)
    requires ExitState(isa, code, source, off, minBytes, cpu).Some?
    ensures Reaches(isa, code, State(Wrap(source + off), cpu), ExitState(isa, code, source, off, minBytes, cpu).value)
    decreases minBytes - off
  {
    hide InsnSize, Execute, InsnAt;
    var s := State(Wrap(source + off), cpu);
    var exit := ExitState(isa, code, source, off, minBytes, cpu).value;
    if off >= minBytes {
      ReachesSelf(isa, code, exit);
    } else {
      var size := InsnSize(isa, code, s.pc);
      match Execute(isa, code, s).value
      case Goto(pc, c) =>
        ReachesSelf(isa, code, exit);
        ReachesStep(isa, code, s, exit, exit);
      case Fall(c) =>
        ExitIsReached(isa, code, source, off + size, minBytes, c);
        SizeAgrees(isa, code, s.pc);
        WrapAdd(source + off, size);
        assert source + off + size == source + (off + size);
        ReachesStep(isa, code, s, State(Wrap(source + (off + size)), c), exit);
    }
  }

  lemma {:induction false} RelocatedFrom(
      isa: Isa, tools: Tools, code: Memory, source: u64, off: nat, minBytes: nat, code': Memory, at: u64, cpu: Cpu)
    requires ReadsOwnBytes(isa) && BlockRelocatable(isa, tools, code, source, off, minBytes)
    requires RelocateFrom(isa, tools, code, source, off, minBytes).Success?
    requires Holds(code', at, RelocateFrom(isa, tools, code, source, off, minBytes).value.code)
    ensures ExitState(isa, code, source, off, minBytes, cpu).Some?
    ensures Reaches(isa, code', State(at, cpu), ExitState(isa, code, source, off, minBytes, cpu).value)
    decreases minBytes - off
  {
    hide InsnSize, Execute, Piece, AbsoluteJump, Relocatable, ReadsOwnBytes, Holds, Fetch, Run;
    var addr := Wrap(source + off);
    var s := State(at, cpu);
    if off >= minBytes {
      var t := State(addr, cpu);
      AbsoluteJumpGoes(isa, code', at, addr, cpu);
      ReachesSelf(isa, code', t);
      ReachesStep(isa, code', s, t, t);
    } else {
      var size := InsnSize(isa, code, addr);
      var rest := RelocateFrom(isa, tools, code, source, off + size, minBytes).value.code;
      var piece := Piece(isa, tools, code, addr);
      var whole := piece + rest;
      HoldsPart(code', at, whole, 0, |piece|);
      HoldsPart(code', at, whole, |piece|, |whole|);
      assert whole[0..|piece|] == piece && whole[|piece|..|whole|] == rest;
      SizeAgrees(isa, code, addr);
      PieceMeaning(isa, tools, code, addr, code', at, cpu);
      match Execute(isa, code, State(addr, cpu)).value
      case Goto(pc, c) =>
      case Fall(c) =>
        var next := Wrap(at + |piece|);
        HoldsWrap(code', at + |piece|, rest);
        RelocatedFrom(isa, tools, code, source, off + size, minBytes, code', next, c);
        ReachesTrans(isa, code', s, State(next, c), ExitState(isa, code, source, off, minBytes, cpu).value);
    }
  }

  /** Relocation preserves meaning: wherever the emitted bytes are placed, running them from any processor
      state leaves the block in the very state in which the original instructions leave theirs. */
  lemma RelocationPreservesMeaning(
      isa: Isa, tools: Tools, code: Memory, source: u64, minBytes: nat, code': Memory, at: u64, cpu: Cpu)
    requires ReadsOwnBytes(isa) && BlockRelocatable(isa, tools, code, source, 0, minBytes)
    requires RelocateFrom(isa, tools, code, source, 0, minBytes).Success?
    requires Holds(code', at, RelocateFrom(isa, tools, code, source, 0, minBytes).value.code)
    ensures var exit := ExitState(isa, code, source, 0, minBytes, cpu);
            && exit.Some?
            && Reaches(isa, code, State(source, cpu), exit.value)
            && Reaches(isa, code', State(at, cpu), exit.value)
  {
    hide InsnSize, Execute, Piece, RelocateFrom, ReadsOwnBytes, Relocatable, Run;
    RelocatedFrom(isa, tools, code, source, 0, minBytes, code', at, cpu);
    ExitIsReached(isa, code, source, 0, minBytes, cpu);
  }

  /** A short JMP (EB) reaches the conditional case with condition code 0.  Its copy jumps exactly when the
      overflow flag is set, where the original always jumps. */
  lemma ShortJumpCopy(isa: Isa, tools: Tools, code: Memory, addr: u64, code': Memory, at: u64, cpu: Cpu)
    requires addr != 0 && Fetch(code, addr, 2)[0] == 0xEB
    requires Holds(code', at, Piece(isa, tools, code, addr))
    ensures InsnAt(isa, code, addr).Jump?
    ensures Step(isa, code, State(addr, cpu)) == Some(State(InsnAt(isa, code, addr).target, cpu))
    ensures Reaches(isa, code', State(at, cpu),
                    State(if Bit(cpu.flags, OF) then InsnAt(isa, code, addr).target else Wrap(at + 20), cpu))
  {
    assert Fetch(code, addr, MAX_INSN)[0] == Fetch(code, addr, 2)[0];
    ConditionalJumpGoes(isa, code', at, 0, InsnAt(isa, code, addr).target, cpu);
  }

  /** Run from its start, the `size` bytes at `at` go to the target before they run out at their end. */
  ghost predicate GoesTo(isa: Isa, code: Memory, at: u64, size: nat, target: u64, cpu: Cpu) {
    exists n: nat :: n >= 1 && Run(isa, code, State(at, cpu), n) == Some(State(target, cpu)) &&
      forall m: nat :: m < n ==> Run(isa, code, State(at, cpu), m) != Some(State(Wrap(at + size), cpu))
  }

  lemma ShortJumpSteps(isa: Isa, tools: Tools, code: Memory, addr: u64, code': Memory, at: u64, cpu: Cpu)
    requires addr != 0 && Fetch(code, addr, MAX_INSN)[0] == 0xEB && Holds(code', at, Piece(isa, tools, code, addr))
    ensures InsnAt(isa, code, addr).Jump? && |Piece(isa, tools, code, addr)| == 20
    ensures Step(isa, code', State(at, cpu)) == Some(State(Wrap(at + if Bit(cpu.flags, OF) then 6 else 20), cpu))
    ensures Step(isa, code', State(Wrap(at + 6), cpu)) == Some(State(InsnAt(isa, code, addr).target, cpu))
  {
    var target := InsnAt(isa, code, addr).target;
    assert Piece(isa, tools, code, addr) == ConditionalJump(0, target);
    ConditionalJumpDecodes(isa, code', at, 0, target);
    AbsoluteJumpGoes(isa, code', Wrap(at + 6), target, cpu);
    hide InsnAt, ConditionalJump, Holds, Piece, Fetch;
  }

  lemma ShortJumpGoesIff(isa: Isa, tools: Tools, code: Memory, addr: u64, code': Memory, at: u64, cpu: Cpu)
    requires addr != 0 && Fetch(code, addr, MAX_INSN)[0] == 0xEB && Holds(code', at, Piece(isa, tools, code, addr))
    ensures InsnAt(isa, code, addr).Jump? && |Piece(isa, tools, code, addr)| == 20
    ensures var target := InsnAt(isa, code, addr).target;
            GoesTo(isa, code', at, 20, target, cpu) <==> Bit(cpu.flags, OF) || target == Wrap(at + 20)
  {
    hide InsnAt, Piece, Holds, Fetch, Bit, Step;
    ShortJumpSteps(isa, tools, code, addr, code', at, cpu);
    var target := InsnAt(isa, code, addr).target;
    var s, between, t, end := State(at, cpu), State(Wrap(at + 6), cpu), State(target, cpu), State(Wrap(at + 20), cpu);
    assert s != end && between != end;
    assert Run(isa, code', s, 0) == Some(s) && Run(isa, code', between, 0) == Some(between) &&
             Run(isa, code', end, 0) == Some(end);
    assert Run(isa, code', t, 0) == Some(t);
    if Bit(cpu.flags, OF) {
      assert Run(isa, code', between, 1) == Some(t);
      assert Run(isa, code', s, 1) == Some(between) && Run(isa, code', s, 2) == Some(t);
    } else {
      assert Run(isa, code', s, 1) == Some(end);
    }
  }

  /** A relocated unconditional jump goes to the original's target from every processor state exactly when the
      original is a JMP rel32 (or its target happens to be the end of its own copy). */
  lemma JumpCopyGoesIff(isa: Isa, tools: Tools, code: Memory, addr: u64, code': Memory, at: u64)
    requires addr != 0 && InsnAt(isa, code, addr).Jump? && Holds(code', at, Piece(isa, tools, code, addr))
    ensures var target := InsnAt(isa, code, addr).target;
            var size := |Piece(isa, tools, code, addr)|;
            (forall cpu: Cpu :: GoesTo(isa, code', at, size, target, cpu)) <==>
              Fetch(code, addr, MAX_INSN)[0] == 0xE9 || target == Wrap(at + size)
  {
    var target := InsnAt(isa, code, addr).target;
    var size := |Piece(isa, tools, code, addr)|;
    var first := Fetch(code, addr, MAX_INSN)[0];
    if first == 0xE9 {
      assert Piece(isa, tools, code, addr) == AbsoluteJump(target);
      hide InsnAt, Piece, Holds, Fetch, Step, AbsoluteJump;
      forall cpu: Cpu
        ensures GoesTo(isa, code', at, size, target, cpu)
      {
        AbsoluteJumpGoes(isa, code', at, target, cpu);
        var s := State(at, cpu);
        assert Run(isa, code', s, 1) == Some(State(target, cpu));
        assert forall m: nat :: m < 1 ==> Run(isa, code', s, m) == Some(s);
      }
    } else {
      assert first == 0xEB;
      hide InsnAt, Piece, Holds, Fetch, GoesTo;
      forall cpu: Cpu
        ensures size == 20
        ensures GoesTo(isa, code', at, size, target, cpu) <==> Bit(cpu.flags, OF) || target == Wrap(at + size)
      {
        ShortJumpGoesIff(isa, tools, code, addr, code', at, cpu);
      }
      var clear := Cpu(seq(16, _ => 0), 0, map[]);
      assert !Bit(clear.flags, OF);
      assert GoesTo(isa, code', at, size, target, clear) <==> target == Wrap(at + size);
    }
  }

  // ---------- Patch bytes ----------

  /** Fills a caller's buffer with an absolute jump; bytes past the patch keep their value. */
  method GeneratePatchBytes(buf: array<byte>, jumpTarget: u64)
    requires buf.Length >= PATCH_SIZE
    modifies buf
    ensures buf[..PATCH_SIZE] == AbsoluteJump(jumpTarget)
    ensures buf[PATCH_SIZE..] == old(buf[PATCH_SIZE..])
  {
    buf[0] := 0xFF;
    buf[1] := 0x25;
    var zero := LeBytes(0, 4);
    forall i | 0 <= i < 4 {
      buf[2 + i] := zero[i];
    }
    var quad := LeBytes(jumpTarget, 8);
    forall i | 0 <= i < 8 {
      buf[6 + i] := quad[i];
    }
    assert zero == [0, 0, 0, 0];
  }
}
