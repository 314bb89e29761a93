/** Overlapping patches that come off in the reverse order of going on: runs that install and remove patches in any
    interleaving, on which a patch is put back only while no later one overlaps it. */
module NestedPatches {
  import opened Results
  import opened Words
  import opened X86Machine
  import opened CodePatches
  import opened PatchRegistry
  import opened CodeMemory
  import opened SharedCode
  import opened SystemRuns
  import opened SystemCleanup
  import CodeRelocator
  import EH = ExceptionHandlers
  import MS = MonitorState
  import HB = HardwareBreakpoint

  // ---------- Taking patches out of a stack ----------

  /** No patch laid on later shares a byte with patch `i`. */
  predicate Topmost(stack: seq<Patch>, i: int) {
    0 <= i < |stack| && forall j :: i < j < |stack| ==> CodePatches.Apart(stack[i], stack[j])
  }

  function Without(stack: seq<Patch>, i: nat): (rest: seq<Patch>)
    requires i < |stack|
    ensures |rest| == |stack| - 1
  {
    stack[..i] + stack[i + 1..]
  }

  /** A topmost patch can be put back as if it were the last one. */
  lemma {:induction false} TakeOut(mem: Memory, stack: seq<Patch>, i: nat)
    requires SavedInOrder(mem, stack) && Topmost(stack, i)
    ensures SavedInOrder(mem, Without(stack, i))
    ensures Poke(InstallAll(mem, stack), stack[i].address, stack[i].original) == InstallAll(mem, Without(stack, i))
    decreases |stack|
  {
    hide Poke, ReadBytes;
    var n := |stack| - 1;
    var top, below := stack[n], stack[..n];
    InstallAllKeys(mem, below);
    if i == n {
      assert Without(stack, i) == below;
      PokeUndo(InstallAll(mem, below), top.address, top.written);
    } else {
      var p, rest := stack[i], Without(stack, i);
      assert below[i] == p && Topmost(below, i);
      TakeOut(mem, below, i);
      assert rest == Without(below, i) + [top];
      assert rest[|rest| - 1] == top && rest[..|rest| - 1] == Without(below, i);
      StackRemovable(mem, stack);
      PokesCommute(InstallAll(mem, below), top.address, top.written, p.address, p.original);
      OtherRangeKept(InstallAll(mem, below), p.address, p.original, top.address, |top.written|);
    }
  }

  lemma PokesCommute(m: Memory, a: nat, bs: seq<byte>, b: nat, cs: seq<byte>)
    requires a + |bs| <= b || b + |cs| <= a
    ensures Poke(Poke(m, a, bs), b, cs) == Poke(Poke(m, b, cs), a, bs)
  {
    SameMemory(Poke(Poke(m, a, bs), b, cs), Poke(Poke(m, b, cs), a, bs));
  }

  /** The last place where a patch is in the stack. */
  function LastIndex(stack: seq<Patch>, p: Patch): (i: nat)
    requires p in stack
    ensures i < |stack| && stack[i] == p
  {
    var n := |stack| - 1;
    if stack[n] == p then n else LastIndex(stack[..n], p)
  }

  /** Each of the patches is topmost when its turn comes. */
  predicate TopFirst(stack: seq<Patch>, ps: seq<Patch>)
    decreases |ps|
  {
    ps != [] ==>
      && ps[0] in stack && Topmost(stack, LastIndex(stack, ps[0]))
      && TopFirst(Without(stack, LastIndex(stack, ps[0])), ps[1..])
  }

  function Left(stack: seq<Patch>, ps: seq<Patch>): (rest: seq<Patch>)
    requires TopFirst(stack, ps)
    ensures |rest| == |stack| - |ps|
    decreases |ps|
  {
    if ps == [] then stack else Left(Without(stack, LastIndex(stack, ps[0])), ps[1..])
  }

  /** Putting back topmost patches, one after another, leaves the stack without them. */
  lemma {:induction false} PutBackTopFirst(mem: Memory, stack: seq<Patch>, ps: seq<Patch>)
    requires SavedInOrder(mem, stack) && TopFirst(stack, ps)
    ensures SavedInOrder(mem, Left(stack, ps))
    ensures RestoreAll(InstallAll(mem, stack), ps) == InstallAll(mem, Left(stack, ps))
    decreases |ps|
  {
    hide SavedInOrder, InstallAll, Poke, Topmost, Without, LastIndex;
    if ps != [] {
      var i := LastIndex(stack, ps[0]);
      TakeOut(mem, stack, i);
      PutBackTopFirst(mem, Without(stack, i), ps[1..]);
    }
  }

  /** With a hook over a breakpoint, taking the hook off first is topmost first, and the breakpoint first is not. */
  lemma HookComesOffFirst(bp: Patch, hook: Patch)
    requires bp.address == hook.address && |bp.written| == 1 && |hook.written| == CodeRelocator.PATCH_SIZE
    ensures TopFirst([bp, hook], [hook, bp]) && !TopFirst([bp, hook], [bp, hook])
  {
    var stack := [bp, hook];
    assert LastIndex(stack, hook) == 1 && Without(stack, 1) == [bp];
    assert LastIndex([bp], bp) == 0;
    assert TopFirst([], []);
    assert [hook, bp][1..] == [bp] && [bp][1..] == [];
    assert TopFirst([bp], [bp]);
    assert stack[..1] == [bp] && LastIndex(stack, bp) == 0;
    assert !CodePatches.Apart(stack[0], stack[1]);
  }

  // ---------- Whole runs ----------

  /** A call that puts patches back finds each of them topmost. */
  ghost predicate Nested(s: System, c: Platform, op: Op, stack: seq<Patch>)
    requires PlatformOk(c) && Possible(s, c, op)
  {
    NewPatch(s, c, op).None? ==> TopFirst(stack, PutBack(s, c, op))
  }

  ghost function StackAfter(s: System, c: Platform, op: Op, stack: seq<Patch>): seq<Patch>
    requires PlatformOk(c) && Possible(s, c, op) && Nested(s, c, op, stack)
  {
    var p := NewPatch(s, c, op);
    if p.Some? then stack + [p.value] else Left(stack, PutBack(s, c, op))
  }

  ghost predicate NestedRun(s: System, c: Platform, ops: seq<Op>, stack: seq<Patch>)
    requires PlatformOk(c) && PossibleRun(s, c, ops)
    decreases |ops|
  {
    ops != [] ==>
      Nested(s, c, ops[0], stack) && NestedRun(Apply(s, c, ops[0]), c, ops[1..], StackAfter(s, c, ops[0], stack))
  }

  ghost function StackAtEnd(s: System, c: Platform, ops: seq<Op>, stack: seq<Patch>): seq<Patch>
    requires PlatformOk(c) && PossibleRun(s, c, ops) && NestedRun(s, c, ops, stack)
    decreases |ops|
  {
    if ops == [] then stack else StackAtEnd(Apply(s, c, ops[0]), c, ops[1..], StackAfter(s, c, ops[0], stack))
  }

  function LiveCount(s: System): nat {
    |s.hooks.byId| + |s.soft.byId|
  }

  /** Code memory is pristine memory under a stack of as many patches as there are live ones. */
  ghost predicate Stacked(s: System, pristine: Memory, stack: seq<Patch>) {
    SavedInOrder(pristine, stack) && s.mem == InstallAll(pristine, stack) && |stack| == LiveCount(s)
  }

  lemma AddedCount(x: Index, e: Entry)
    requires Bijective(x)
    ensures |Added(x, e).byId| == |x.byId| + 1
  {
    assert x.nextId !in x.byId;
    assert Added(x, e).byId.Keys == x.byId.Keys + {x.nextId};
    assert |Added(x, e).byId| == |Added(x, e).byId.Keys| && |x.byId| == |x.byId.Keys|;
  }

  lemma DroppedCount(x: Index, id: nat)
    requires id in x.byId
    ensures |Dropped(x, id).byId| == |x.byId| - 1
  {
    assert Dropped(x, id).byId.Keys == x.byId.Keys - {id};
    assert |Dropped(x, id).byId| == |Dropped(x, id).byId.Keys| && |x.byId| == |x.byId.Keys|;
  }

  function Members(order: seq<nat>): set<nat> {
    set k | k in order
  }

  lemma {:induction false} DistinctCount(order: seq<nat>)
    requires forall i, j :: 0 <= i < j < |order| ==> order[i] != order[j]
    ensures |Members(order)| == |order|
  {
    if order != [] {
      var first, rest := order[0], order[1..];
      DistinctCount(rest);
      assert order == [first] + rest && first !in rest;
      assert Members(order) == {first} + Members(rest);
    }
  }

  lemma EnumeratedCount(byId: map<nat, Entry>, order: seq<nat>)
    requires Enumerates(byId, order)
    ensures |order| == |byId|
  {
    DistinctCount(order);
    assert Members(order) == byId.Keys;
    assert |byId| == |byId.Keys|;
  }

  lemma WritesCount(s: System, c: Platform, op: Op)
    requires PlatformOk(c) && Possible(s, c, op) && CodeOk(s) && NewPatch(s, c, op).Some?
    ensures LiveCount(Apply(s, c, op)) == LiveCount(s) + 1
  {
    ThreeRegistries(s.hooks, s.soft, s.hard, s.mem, s.jit);
    hide Three, RegistryOk, HB.NoBytes, HB.Agree, Poke, ReadBytes, CodeRelocator.AbsoluteJump, NewEntry, Added,
      SoftEnsured;
    match op {
      case Attach(target, relocated, trampoline) =>
        AddedCount(s.hooks,
          NewEntry(s.mem, target, trampoline.value, relocated.value, CodeRelocator.AbsoluteJump(trampoline.value)));
      case Replace(target, replacement, relocated) =>
        AddedCount(s.hooks, NewEntry(s.mem, target, 0, relocated.value, CodeRelocator.AbsoluteJump(replacement)));
      case SetSoftware(address, relocated, trampoline) =>
        SoftEnsuredOnly(s);
        AddedCount(s.soft, NewEntry(s.mem, address, trampoline.value, relocated.value, c.instruction));
      case _ =>
    }
  }

  lemma PutBackCount(s: System, c: Platform, op: Op)
    requires PlatformOk(c) && Possible(s, c, op) && NewPatch(s, c, op).None?
    ensures LiveCount(Apply(s, c, op)) == LiveCount(s) - |PutBack(s, c, op)|
  {
    hide Poke, RestoreAll, AllBlocks, Blocks, EH.Without, SoftEnsured, SoftMaybeRemoved, PatchesIn;
    match op {
      case Detach(id) =>
        if id in s.hooks.byId {
          DroppedCount(s.hooks, id);
        }
      case DetachAll(order) => EnumeratedCount(s.hooks.byId, order);
      case RemoveSoftware(id) =>
        if id in s.soft.byId {
          DroppedCount(s.soft, id);
          SoftMaybeRemovedOnly(SoftDropped(s, id));
        }
      case RemoveAllSoftware(order) =>
        EnumeratedCount(s.soft.byId, order);
        SoftMaybeRemovedOnly(SoftCleared(s, order));
      case SetSoftware(_, _, _) => SoftEnsuredOnly(s);
      case Attach(_, _, _) =>
      case Replace(_, _, _) =>
      case _ => OthersWriteNoCode(s, c, op);
    }
  }

  lemma NewPatchSaves(s: System, c: Platform, op: Op)
    requires PlatformOk(c) && NewPatch(s, c, op).Some?
    ensures var p := NewPatch(s, c, op).value; p.original == ReadBytes(s.mem, p.address, |p.written|)
  {
    hide ReadBytes, CodeRelocator.AbsoluteJump;
  }

  lemma LaidOnTop(pristine: Memory, stack: seq<Patch>, p: Patch)
    requires SavedInOrder(pristine, stack)
    requires p.original == ReadBytes(InstallAll(pristine, stack), p.address, |p.written|)
    requires IsMapped(InstallAll(pristine, stack), p.address, |p.written|)
    ensures SavedInOrder(pristine, stack + [p])
    ensures InstallAll(pristine, stack + [p]) == Poke(InstallAll(pristine, stack), p.address, p.written)
  {
    hide Poke, ReadBytes;
    InstallAllKeys(pristine, stack);
    assert (stack + [p])[..|stack|] == stack;
  }

  lemma StepStacked(s: System, c: Platform, op: Op, pristine: Memory, stack: seq<Patch>)
    requires PlatformOk(c) && Possible(s, c, op) && CodeOk(s) && Stacked(s, pristine, stack) && Nested(s, c, op, stack)
    ensures Stacked(Apply(s, c, op), pristine, StackAfter(s, c, op, stack))
  {
    hide CodeOk, Apply, Possible, NewPatch, PutBack, PlatformOk, Poke, ReadBytes, RestoreAll, InstallAll, SavedInOrder,
      IsMapped, Live, LiveCount, Removable, TopFirst, Left;
    CodeEffect(s, c, op);
    var p := NewPatch(s, c, op);
    if p.Some? {
      WritesCount(s, c, op);
      NewPatchSaves(s, c, op);
      LaidOnTop(pristine, stack, p.value);
    } else {
      PutBackCount(s, c, op);
      PutBackTopFirst(pristine, stack, PutBack(s, c, op));
    }
  }

  /** On every run whose removals take topmost patches, code memory is pristine memory under the stack of live ones. */
  lemma {:induction false} NestedRunStacked(
    s: System, c: Platform, ops: seq<Op>, pages: map<nat, MS.Prot>, pristine: Memory, stack: seq<Patch>)
    requires PlatformOk(c) && PossibleRun(s, c, ops) && Inv(s, pages) && Stacked(s, pristine, stack)
    requires NestedRun(s, c, ops, stack)
    ensures Stacked(SystemCleanup.Run(s, c, ops), pristine, StackAtEnd(s, c, ops, stack))
    decreases |ops|
  {
    hide RefsOk, HandlersOk, CodeOk, MS.Inv, Apply, Possible, PlatformOk, Stacked, Nested, StackAfter;
    if ops != [] {
      StepKeeps(s, c, ops[0], pages);
      StepStacked(s, c, ops[0], pristine, stack);
      NestedRunStacked(Apply(s, c, ops[0]), c, ops[1..], pages, pristine, StackAfter(s, c, ops[0], stack));
    }
  }

  lemma FreshStacked(original: EH.Dispositions, mem: Memory, slots: HB.Slots, pages: map<nat, MS.Prot>)
    ensures Stacked(Init(original, mem, slots, pages), mem, [])
  {
  }

  lemma CleanupCount(s: System, w: Walk)
    requires Walks(s, w)
    ensures |CleanupPutsBack(s, w)| == LiveCount(s)
  {
    EnumeratedCount(s.soft.byId, w.softOrder);
    EnumeratedCount(s.hooks.byId, w.hookOrder);
    hide PatchesIn, Enumerates;
  }

  /** Patches may overlap and come and go in any interleaving: if each was put back only while nothing laid on later
      overlapped it, by the calls of the run and by cleanup, the code bytes are the original ones. */
  lemma NestedCleanupRestores(
    original: EH.Dispositions, mem: Memory, slots: HB.Slots, pages: map<nat, MS.Prot>, c: Platform, ops: seq<Op>,
    w: Walk)
    requires PlatformOk(c) && HB.Agree(map[], slots)
    requires var s0 := Init(original, mem, slots, pages); PossibleRun(s0, c, ops) && NestedRun(s0, c, ops, [])
    requires var s0 := Init(original, mem, slots, pages);
             var s := SystemCleanup.Run(s0, c, ops);
             Walks(s, w) && TopFirst(StackAtEnd(s0, c, ops, []), CleanupPutsBack(s, w))
    ensures CleanedUp(SystemCleanup.Run(Init(original, mem, slots, pages), c, ops), c, w).mem == mem
  {
    hide Inv, HB.Agree, CleanedUp, PossibleRun, SystemCleanup.Run, PlatformOk, NestedRun, StackAtEnd, CleanupPutsBack,
      TopFirst, Left, RestoreAll, SavedInOrder, LiveCount, Init, Enumerates;
    var s0 := Init(original, mem, slots, pages);
    var s := SystemCleanup.Run(s0, c, ops);
    var stack := StackAtEnd(s0, c, ops, []);
    InitInv(original, mem, slots, pages);
    FreshStacked(original, mem, slots, pages);
    NestedRunStacked(s0, c, ops, pages, mem, []);
    CleanupMemory(s, c, w);
    CleanupCount(s, w);
    PutBackTopFirst(mem, stack, CleanupPutsBack(s, w));
    assert Left(stack, CleanupPutsBack(s, w)) == [];
  }
}
