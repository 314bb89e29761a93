/** Patches over shared code memory: saving, overwriting and putting back bytes. */
module CodePatches {
  import opened Words
  import opened X86Machine

  /** A live patch: where it is, what it covered and what it wrote. */
  datatype Patch = Patch(address: nat, original: seq<byte>, written: seq<byte>) {
    predicate Covers(a: int) {
      address <= a < address + |written|
    }
  }

  function ReadBytes(m: Memory, a: int, n: nat): (bs: seq<byte>)
    ensures |bs| == n
  {
    seq<byte>(n, i requires 0 <= i < n => Peek(m, a + i))
  }

  predicate IsMapped(m: Memory, a: int, n: nat) {
    forall x :: a <= x < a + n ==> x in m
  }

  predicate Apart(p: Patch, q: Patch) {
    p.address + |p.written| <= q.address || q.address + |q.written| <= p.address
  }

  lemma PokeReads(m: Memory, a: nat, bs: seq<byte>)
    ensures ReadBytes(Poke(m, a, bs), a, |bs|) == bs
  {
  }

  /** Writing back what was there undoes a write. */
  lemma PokeUndo(m: Memory, a: nat, bs: seq<byte>)
    requires IsMapped(m, a, |bs|)
    ensures Poke(Poke(m, a, bs), a, ReadBytes(m, a, |bs|)) == m
  {
    var m' := Poke(Poke(m, a, bs), a, ReadBytes(m, a, |bs|));
    SameMemory(m', m);
  }

  lemma SameMemory(m: Memory, m': Memory)
    requires m.Keys == m'.Keys && forall a :: Peek(m, a) == Peek(m', a)
    ensures m == m'
  {
    forall a | a in m
      ensures m[a] == m'[a]
    {
      assert Peek(m, a) == Peek(m', a);
    }
  }

  lemma PokeKeys(m: Memory, a: nat, bs: seq<byte>)
    requires IsMapped(m, a, |bs|)
    ensures Poke(m, a, bs).Keys == m.Keys
  {
    var m' := Poke(m, a, bs);
    assert forall x :: x in m' <==> x in m;
  }

  // ---------- Disjoint patches ----------

  ghost predicate PatchOk(pristine: Memory, mem: Memory, p: Patch) {
    && |p.original| == |p.written| && IsMapped(pristine, p.address, |p.written|)
    && ReadBytes(mem, p.address, |p.written|) == p.written
    && ReadBytes(pristine, p.address, |p.written|) == p.original
  }

  ghost predicate Untouched(patches: set<Patch>, a: int) {
    forall p :: p in patches ==> !p.Covers(a)
  }

  /** Memory is pristine memory overlaid with the live patches, which do not overlap. */
  ghost predicate Conserved(pristine: Memory, mem: Memory, patches: set<Patch>) {
    && mem.Keys == pristine.Keys
    && (forall p :: p in patches ==> PatchOk(pristine, mem, p))
    && (forall p, q :: p in patches && q in patches && p != q ==> Apart(p, q))
    && (forall a {:trigger Peek(mem, a)} :: Untouched(patches, a) ==> Peek(mem, a) == Peek(pristine, a))
  }

  /** With no patch left, memory is pristine. */
  lemma NothingLeft(pristine: Memory, mem: Memory)
    requires Conserved(pristine, mem, {})
    ensures mem == pristine
  {
    forall a
      ensures Peek(mem, a) == Peek(pristine, a)
    {
      assert Untouched({}, a);
    }
    SameMemory(mem, pristine);
  }

  lemma InstallConserves(pristine: Memory, mem: Memory, patches: set<Patch>, p: Patch)
    requires Conserved(pristine, mem, patches) && IsMapped(mem, p.address, |p.written|)
    requires p.original == ReadBytes(mem, p.address, |p.written|)
    requires forall q :: q in patches ==> Apart(p, q)
    ensures Conserved(pristine, Poke(mem, p.address, p.written), patches + {p})
  {
    var mem' := Poke(mem, p.address, p.written);
    PokeKeys(mem, p.address, p.written);
    PokeReads(mem, p.address, p.written);
    PristineUnder(pristine, mem, patches, p);
    hide Poke, Peek, ReadBytes;
    forall q | q in patches
      ensures PatchOk(pristine, mem', q)
    {
      assert PatchOk(pristine, mem, q) && Apart(p, q);
      OtherRangeKept(mem, p.address, p.written, q.address, |q.written|);
    }
    forall a | Untouched(patches + {p}, a)
      ensures Peek(mem', a) == Peek(pristine, a)
    {
      assert Untouched(patches, a) && !p.Covers(a);
      assert Peek(mem, a) == Peek(pristine, a);
    }
  }

  /** Where no live patch is, the bytes a new patch saves are the pristine ones. */
  lemma PristineUnder(pristine: Memory, mem: Memory, patches: set<Patch>, p: Patch)
    requires Conserved(pristine, mem, patches) && forall q :: q in patches ==> Apart(p, q)
    ensures ReadBytes(pristine, p.address, |p.written|) == ReadBytes(mem, p.address, |p.written|)
  {
    forall a | p.Covers(a)
      ensures Peek(pristine, a) == Peek(mem, a)
    {
      assert Untouched(patches, a);
    }
  }

  lemma OtherRangeKept(m: Memory, a: nat, bs: seq<byte>, b: nat, n: nat)
    requires a + |bs| <= b || b + n <= a
    ensures ReadBytes(Poke(m, a, bs), b, n) == ReadBytes(m, b, n)
  {
  }

  lemma RemoveConserves(pristine: Memory, mem: Memory, patches: set<Patch>, p: Patch)
    requires Conserved(pristine, mem, patches) && p in patches
    ensures Conserved(pristine, Poke(mem, p.address, p.original), patches - {p})
  {
    var mem' := Poke(mem, p.address, p.original);
    assert PatchOk(pristine, mem, p);
    PokeKeys(mem, p.address, p.original);
    forall q | q in patches - {p}
      ensures PatchOk(pristine, mem', q)
    {
      assert PatchOk(pristine, mem, q) && Apart(p, q);
      OtherRangeKept(mem, p.address, p.original, q.address, |q.written|);
    }
    forall a | Untouched(patches - {p}, a)
      ensures Peek(mem', a) == Peek(pristine, a)
    {
      if p.Covers(a) {
        assert ReadBytes(pristine, p.address, |p.written|)[a - p.address] == p.original[a - p.address];
      } else {
        assert forall q :: q in patches ==> q == p || q in patches - {p};
        assert Untouched(patches, a);
        assert Peek(mem, a) == Peek(pristine, a);
      }
    }
  }

  /** Putting patches back one after another. */
  function RestoreAll(mem: Memory, order: seq<Patch>): Memory
    decreases |order|
  {
    if order == [] then mem else RestoreAll(Poke(mem, order[0].address, order[0].original), order[1..])
  }

  function Elements(order: seq<Patch>): set<Patch> {
    set p | p in order
  }

  ghost predicate NoDuplicates(order: seq<Patch>) {
    forall i, j :: 0 <= i < j < |order| ==> order[i] != order[j]
  }

  /** Non-overlapping patches can be removed in any order. */
  lemma {:induction false} AnyOrderRestores(pristine: Memory, mem: Memory, patches: set<Patch>, order: seq<Patch>)
    requires Conserved(pristine, mem, patches) && Elements(order) <= patches && NoDuplicates(order)
    ensures Conserved(pristine, RestoreAll(mem, order), patches - Elements(order))
    decreases |order|
  {
    if order == [] {
      assert patches - Elements(order) == patches;
    } else {
      var p, rest := order[0], order[1..];
      assert p in Elements(order);
      RemoveConserves(pristine, mem, patches, p);
      forall q | q in rest
        ensures q in patches - {p}
      {
        var i :| 0 <= i < |rest| && rest[i] == q;
        assert order[i + 1] == q && order[0] != order[i + 1];
        assert q in Elements(order);
      }
      AnyOrderRestores(pristine, Poke(mem, p.address, p.original), patches - {p}, rest);
      assert patches - {p} - Elements(rest) == patches - Elements(order) by {
        assert order == [p] + rest;
      }
    }
  }

  // ---------- Overlapping patches ----------

  /** Memory after installing patches one on top of another. */
  function InstallAll(mem: Memory, stack: seq<Patch>): Memory {
    if stack == [] then mem
    else
      var top := stack[|stack| - 1];
      Poke(InstallAll(mem, stack[..|stack| - 1]), top.address, top.written)
  }

  /** Each patch saved what it found. */
  ghost predicate SavedInOrder(mem: Memory, stack: seq<Patch>) {
    stack != [] ==>
      var top, below := stack[|stack| - 1], stack[..|stack| - 1];
      && IsMapped(mem, top.address, |top.written|)
      && top.original == ReadBytes(InstallAll(mem, below), top.address, |top.written|)
      && SavedInOrder(mem, below)
  }

  lemma {:induction false} InstallAllKeys(mem: Memory, stack: seq<Patch>)
    requires SavedInOrder(mem, stack)
    ensures InstallAll(mem, stack).Keys == mem.Keys
  {
    if stack != [] {
      var top, below := stack[|stack| - 1], stack[..|stack| - 1];
      InstallAllKeys(mem, below);
      PokeKeys(InstallAll(mem, below), top.address, top.written);
    }
  }

  function Reversed(stack: seq<Patch>): (r: seq<Patch>)
    ensures |r| == |stack|
  {
    if stack == [] then [] else [stack[|stack| - 1]] + Reversed(stack[..|stack| - 1])
  }

  /** Overlapping or not, removing the last installed patch first gives back the original memory. */
  lemma {:induction false} LastInFirstOutRestores(mem: Memory, stack: seq<Patch>)
    requires SavedInOrder(mem, stack)
    ensures RestoreAll(InstallAll(mem, stack), Reversed(stack)) == mem
  {
    if stack != [] {
      var top, below := stack[|stack| - 1], stack[..|stack| - 1];
      InstallAllKeys(mem, below);
      PokeUndo(InstallAll(mem, below), top.address, top.written);
      LastInFirstOutRestores(mem, below);
      assert Reversed(stack)[0] == top && Reversed(stack)[1..] == Reversed(below);
    }
  }

  /** Removing two patches in the order they were installed restores memory exactly when the first one wrote,
      on the bytes they share, what was there before. */
  lemma FirstInFirstOutRestoresIff(mem: Memory, p: Patch, q: Patch)
    requires SavedInOrder(mem, [p, q])
    ensures RestoreAll(InstallAll(mem, [p, q]), [p, q]) == mem <==>
              forall a :: p.Covers(a) && q.Covers(a) ==> p.written[a - p.address] == Peek(mem, a)
  {
    assert [p, q][..1] == [p] && [p][..0] == [];
    assert InstallAll(mem, [p]) == Poke(mem, p.address, p.written);
    var m1 := Poke(mem, p.address, p.written);
    var m2 := Poke(m1, q.address, q.written);
    assert InstallAll(mem, [p, q]) == m2;
    var m3 := Poke(m2, p.address, p.original);
    var m4 := Poke(m3, q.address, q.original);
    assert RestoreAll(m2, [p, q]) == m4 by {
      assert [p, q][1..] == [q] && [q][1..] == [];
      assert RestoreAll(m2, [p, q]) == RestoreAll(m3, [q]) == RestoreAll(m4, []);
    }
    assert SavedInOrder(mem, [p]);
    PokeKeys(mem, p.address, p.written);
    PokeKeys(m1, q.address, q.written);
    PokeKeys(m2, p.address, p.original);
    PokeKeys(m3, q.address, q.original);
    AfterFirstInFirstOut(mem, p, q);
    if forall a :: p.Covers(a) && q.Covers(a) ==> p.written[a - p.address] == Peek(mem, a) {
      SameMemory(m4, mem);
    }
  }

  lemma AfterFirstInFirstOut(mem: Memory, p: Patch, q: Patch)
    requires p.original == ReadBytes(mem, p.address, |p.written|)
    requires q.original == ReadBytes(Poke(mem, p.address, p.written), q.address, |q.written|)
    ensures var m2 := Poke(Poke(mem, p.address, p.written), q.address, q.written);
            var m4 := Poke(Poke(m2, p.address, p.original), q.address, q.original);
            forall a :: Peek(m4, a) == if p.Covers(a) && q.Covers(a) then p.written[a - p.address] else Peek(mem, a)
  {
    hide Poke, Peek;
    var m1 := Poke(mem, p.address, p.written);
    var m2 := Poke(m1, q.address, q.written);
    var m3 := Poke(m2, p.address, p.original);
    var m4 := Poke(m3, q.address, q.original);
    forall a
      ensures Peek(m4, a) == if p.Covers(a) && q.Covers(a) then p.written[a - p.address] else Peek(mem, a)
    {
      assert p.Covers(a) ==> p.original[a - p.address] == Peek(mem, a) && Peek(m1, a) == p.written[a - p.address];
      assert q.Covers(a) ==> q.original[a - q.address] == Peek(m1, a);
      assert Peek(m4, a) == if q.Covers(a) then q.original[a - q.address] else Peek(m3, a);
    }
  }

  // ---------- Any stack, taken down in any order ----------

  /** Of the patches listed, number `i` is the last to cover `a`. */
  predicate LastOver(patches: seq<Patch>, i: int, a: int) {
    0 <= i < |patches| && patches[i].Covers(a) && NoneOver(patches[i + 1..], a)
  }

  predicate NoneOver(patches: seq<Patch>, a: int) {
    forall j :: 0 <= j < |patches| ==> !patches[j].Covers(a)
  }

  /** Each patch saved as many bytes as it wrote. */
  predicate Whole(patches: seq<Patch>) {
    forall i :: 0 <= i < |patches| ==> |patches[i].original| == |patches[i].written|
  }

  ghost predicate Removable(mem: Memory, patches: seq<Patch>) {
    Whole(patches) && forall i :: 0 <= i < |patches| ==> IsMapped(mem, patches[i].address, |patches[i].written|)
  }

  /** On every byte, the patch put back last had saved the pristine value. */
  ghost predicate LastSavedPristine(pristine: Memory, order: seq<Patch>)
    requires Whole(order)
  {
    forall a, i :: LastOver(order, i, a) ==> order[i].original[a - order[i].address] == Peek(pristine, a)
  }

  lemma {:induction false} SomeLast(patches: seq<Patch>, a: int)
    ensures NoneOver(patches, a) || exists i :: LastOver(patches, i, a)
  {
    if patches != [] && !NoneOver(patches, a) {
      var rest := patches[1..];
      SomeLast(rest, a);
      if NoneOver(rest, a) {
        assert LastOver(patches, 0, a);
      } else {
        var i :| LastOver(rest, i, a);
        LastOfRest(patches, i + 1, a);
      }
    }
  }

  lemma LastOfRest(patches: seq<Patch>, i: int, a: int)
    requires 1 <= i < |patches|
    ensures LastOver(patches, i, a) <==> LastOver(patches[1..], i - 1, a)
  {
    assert patches[1..][i - 1 + 1..] == patches[i + 1..];
  }

  /** After putting patches back, a byte holds what the last one over it saved, or what it held before. */
  lemma {:induction false} RestoredByte(mem: Memory, order: seq<Patch>, a: int)
    requires Removable(mem, order)
    ensures NoneOver(order, a) ==> Peek(RestoreAll(mem, order), a) == Peek(mem, a)
    ensures forall i :: LastOver(order, i, a) ==>
              Peek(RestoreAll(mem, order), a) == order[i].original[a - order[i].address]
    decreases |order|
  {
    if order != [] {
      var p, rest := order[0], order[1..];
      var mem' := Poke(mem, p.address, p.original);
      RestoredByte(mem', rest, a);
      forall i | LastOver(order, i, a)
        ensures Peek(RestoreAll(mem', rest), a) == order[i].original[a - order[i].address]
      {
        if i > 0 {
          LastOfRest(order, i, a);
        }
      }
    }
  }

  lemma {:induction false} RestoredKeys(mem: Memory, order: seq<Patch>)
    requires Removable(mem, order)
    ensures RestoreAll(mem, order).Keys == mem.Keys
    decreases |order|
  {
    if order != [] {
      var p := order[0];
      PokeKeys(mem, p.address, p.original);
      RestoredKeys(Poke(mem, p.address, p.original), order[1..]);
    }
  }

  lemma {:induction false} RestoreAppend(mem: Memory, order: seq<Patch>, more: seq<Patch>)
    ensures RestoreAll(mem, order + more) == RestoreAll(RestoreAll(mem, order), more)
    decreases |order|
  {
    if order == [] {
      assert order + more == more;
    } else {
      assert (order + more)[1..] == order[1..] + more;
      RestoreAppend(Poke(mem, order[0].address, order[0].original), order[1..], more);
    }
  }

  /** Where nothing but the listed patches is out of place, putting them back gives pristine memory exactly when
      the last one over each byte had saved the pristine value. */
  lemma PuttingBackRestoresIff(pristine: Memory, mem: Memory, order: seq<Patch>)
    requires Removable(mem, order) && mem.Keys == pristine.Keys
    requires forall a :: NoneOver(order, a) ==> Peek(mem, a) == Peek(pristine, a)
    ensures RestoreAll(mem, order) == pristine <==> LastSavedPristine(pristine, order)
  {
    hide NoneOver;
    var after := RestoreAll(mem, order);
    forall a
      ensures NoneOver(order, a) ==> Peek(after, a) == Peek(pristine, a)
      ensures forall i :: LastOver(order, i, a) ==> Peek(after, a) == order[i].original[a - order[i].address]
      ensures NoneOver(order, a) || exists i :: LastOver(order, i, a)
    {
      RestoredByte(mem, order, a);
      SomeLast(order, a);
    }
    RestoredKeys(mem, order);
    if LastSavedPristine(pristine, order) {
      SameMemory(after, pristine);
    }
  }

  /** Every patch of the stack saved as many bytes as it wrote, over mapped memory. */
  lemma {:induction false} StackRemovable(mem: Memory, stack: seq<Patch>)
    requires SavedInOrder(mem, stack)
    ensures Removable(mem, stack)
  {
    if stack != [] {
      var below := stack[..|stack| - 1];
      StackRemovable(mem, below);
      assert forall i :: 0 <= i < |below| ==> stack[i] == below[i];
    }
  }

  /** After installing a stack, a byte holds what the topmost patch over it wrote, or what it held at first. */
  lemma {:induction false} InstalledByte(mem: Memory, stack: seq<Patch>, a: int)
    ensures NoneOver(stack, a) ==> Peek(InstallAll(mem, stack), a) == Peek(mem, a)
    ensures forall i :: LastOver(stack, i, a) ==>
              Peek(InstallAll(mem, stack), a) == stack[i].written[a - stack[i].address]
  {
    hide Poke, Peek, InstallAll;
    if stack == [] {
      assert InstallAll(mem, stack) == mem by {
        NothingInstalled(mem);
      }
    } else {
      var n := |stack| - 1;
      InstalledByte(mem, stack[..n], a);
      TopByte(mem, stack, a);
      assert NoneOver(stack, a) ==> NoneOver(stack[..n], a) && !stack[n].Covers(a);
      forall i | LastOver(stack, i, a)
        ensures Peek(InstallAll(mem, stack), a) == stack[i].written[a - stack[i].address]
      {
        if i < n {
          LastBelow(stack, i, a);
        }
      }
    }
  }

  lemma NothingInstalled(mem: Memory)
    ensures InstallAll(mem, []) == mem
  {
  }

  lemma TopByte(mem: Memory, stack: seq<Patch>, a: int)
    requires stack != []
    ensures var n := |stack| - 1;
            Peek(InstallAll(mem, stack), a) ==
              if stack[n].Covers(a) then stack[n].written[a - stack[n].address]
              else Peek(InstallAll(mem, stack[..n]), a)
  {
    hide Poke, Peek;
  }

  lemma LastBelow(stack: seq<Patch>, i: nat, a: int)
    requires i < |stack| - 1 && LastOver(stack, i, a)
    ensures LastOver(stack[..|stack| - 1], i, a) && !stack[|stack| - 1].Covers(a)
  {
    var n := |stack| - 1;
    var above := stack[i + 1..];
    assert !above[n - i - 1].Covers(a);
    assert stack[..n][i + 1..] == above[..n - i - 1];
  }

  /** What a patch of the stack saved: what the topmost patch under it wrote there, or the first value. */
  lemma {:induction false} SavedByte(mem: Memory, stack: seq<Patch>, k: nat, a: int)
    requires SavedInOrder(mem, stack) && k < |stack| && stack[k].Covers(a)
    ensures |stack[k].original| == |stack[k].written|
    ensures var saved := stack[k].original[a - stack[k].address];
            && (NoneOver(stack[..k], a) ==> saved == Peek(mem, a))
            && (forall j :: LastOver(stack[..k], j, a) ==> saved == stack[j].written[a - stack[j].address])
  {
    hide InstallAll, NoneOver, Poke, Peek;
    var n := |stack| - 1;
    var below := stack[..n];
    if k == n {
      InstalledByte(mem, below, a);
      assert stack[k].original[a - stack[k].address] == Peek(InstallAll(mem, below), a);
    } else {
      assert below[..k] == stack[..k] && below[k] == stack[k];
      SavedByte(mem, below, k, a);
    }
  }

  /** However patches were laid over one another and in whatever order they are put back, memory is restored exactly
      when, on every byte, the one put back last had saved the original value. */
  lemma AnyStackRestoresIff(mem: Memory, stack: seq<Patch>, order: seq<Patch>)
    requires SavedInOrder(mem, stack) && forall p :: p in order <==> p in stack
    ensures Whole(order)
    ensures RestoreAll(InstallAll(mem, stack), order) == mem <==> LastSavedPristine(mem, order)
  {
    hide SavedInOrder, InstallAll, LastSavedPristine, RestoreAll;
    var mem' := InstallAll(mem, stack);
    InstallAllKeys(mem, stack);
    StackRemovable(mem, stack);
    forall i | 0 <= i < |order|
      ensures |order[i].original| == |order[i].written| && IsMapped(mem', order[i].address, |order[i].written|)
    {
      assert order[i] in stack;
    }
    forall a | NoneOver(order, a)
      ensures Peek(mem', a) == Peek(mem, a)
    {
      forall j | 0 <= j < |stack|
        ensures !stack[j].Covers(a)
      {
        assert stack[j] in order;
      }
      InstalledByte(mem, stack, a);
    }
    PuttingBackRestoresIff(mem, mem', order);
  }

  // ---------- Tracing every byte ----------

  /** Over a byte that no live patch covers, memory is what the patches put back so far have left there. */
  ghost predicate Traced(pristine: Memory, mem: Memory, live: set<Patch>, done: seq<Patch>) {
    && mem.Keys == pristine.Keys && Removable(pristine, done)
    && forall a {:trigger Peek(mem, a)} :: Untouched(live, a) ==> Peek(mem, a) == Peek(RestoreAll(pristine, done), a)
  }

  lemma TracedFresh(pristine: Memory)
    ensures Traced(pristine, pristine, {}, [])
  {
  }

  lemma TracedMore(pristine: Memory, mem: Memory, live: set<Patch>, more: set<Patch>, done: seq<Patch>)
    requires Traced(pristine, mem, live, done) && live <= more
    ensures Traced(pristine, mem, more, done)
  {
    hide RestoreAll, Removable;
    forall a | Untouched(more, a)
      ensures Peek(mem, a) == Peek(RestoreAll(pristine, done), a)
    {
      assert Untouched(live, a);
    }
  }

  lemma TracedInstall(pristine: Memory, mem: Memory, live: set<Patch>, done: seq<Patch>, p: Patch)
    requires Traced(pristine, mem, live, done) && IsMapped(mem, p.address, |p.written|)
    ensures Traced(pristine, Poke(mem, p.address, p.written), live + {p}, done)
  {
    hide RestoreAll, Removable;
    PokeKeys(mem, p.address, p.written);
    forall a | Untouched(live + {p}, a)
      ensures Peek(Poke(mem, p.address, p.written), a) == Peek(RestoreAll(pristine, done), a)
    {
      assert Untouched(live, a) && !p.Covers(a);
      assert Peek(mem, a) == Peek(RestoreAll(pristine, done), a);
    }
  }

  lemma TracedPutBack(pristine: Memory, mem: Memory, live: set<Patch>, done: seq<Patch>, ps: seq<Patch>)
    requires Traced(pristine, mem, live, done) && Removable(mem, ps)
    ensures Traced(pristine, RestoreAll(mem, ps), live - Elements(ps), done + ps)
  {
    var before := RestoreAll(pristine, done);
    RestoredKeys(mem, ps);
    RestoredKeys(pristine, done);
    RestoreAppend(pristine, done, ps);
    forall a | Untouched(live - Elements(ps), a)
      ensures Peek(RestoreAll(mem, ps), a) == Peek(RestoreAll(before, ps), a)
    {
      RestoredByte(mem, ps, a);
      RestoredByte(before, ps, a);
      if NoneOver(ps, a) {
        assert Untouched(live, a) by {
          CoveredElsewhere(live, ps, a);
        }
        assert Peek(mem, a) == Peek(before, a);
      } else {
        SomeLast(ps, a);
      }
    }
  }

  lemma CoveredElsewhere(live: set<Patch>, ps: seq<Patch>, a: int)
    requires Untouched(live - Elements(ps), a) && NoneOver(ps, a)
    ensures Untouched(live, a)
  {
    forall p | p in live
      ensures !p.Covers(a)
    {
      if p in ps {
        var i :| 0 <= i < |ps| && ps[i] == p;
      } else {
        assert p in live - Elements(ps);
      }
    }
  }

  /** When the last patch is gone, memory is pristine exactly if, on every byte, the one put back last had saved the
      pristine value. */
  lemma TracedEnd(pristine: Memory, mem: Memory, done: seq<Patch>)
    requires Traced(pristine, mem, {}, done)
    ensures Whole(done) && (mem == pristine <==> LastSavedPristine(pristine, done))
  {
    forall a
      ensures Peek(mem, a) == Peek(RestoreAll(pristine, done), a)
    {
      assert Untouched({}, a);
    }
    RestoredKeys(pristine, done);
    SameMemory(mem, RestoreAll(pristine, done));
    PuttingBackRestoresIff(pristine, pristine, done);
  }

  /** A breakpoint taken out from under a hook: the hook puts the trap instruction back. */
  lemma TrapStaysUnderHook(mem: Memory, a: nat, jump: seq<byte>)
    requires |jump| == 14 && IsMapped(mem, a, 14) && Peek(mem, a) != 0xCC
    ensures var bp := Patch(a, ReadBytes(mem, a, 1), [0xCC]);
            var hook := Patch(a, ReadBytes(Poke(mem, a, [0xCC]), a, 14), jump);
            && SavedInOrder(mem, [bp, hook]) && InstallAll(mem, [bp, hook]) == Poke(Poke(mem, a, [0xCC]), a, jump)
            && Peek(RestoreAll(InstallAll(mem, [bp, hook]), [bp, hook]), a) == 0xCC
            && RestoreAll(InstallAll(mem, [bp, hook]), [bp, hook]) != mem
  {
    var bp := Patch(a, ReadBytes(mem, a, 1), [0xCC]);
    var hook := Patch(a, ReadBytes(Poke(mem, a, [0xCC]), a, 14), jump);
    var stack := [bp, hook];
    assert stack[..1] == [bp] && [bp][..0] == [];
    assert InstallAll(mem, [bp]) == Poke(InstallAll(mem, []), a, [0xCC]);
    assert SavedInOrder(mem, [bp]);
    StackRemovable(mem, stack);
    InstallAllKeys(mem, stack);
    assert LastOver(stack, 1, a);
    RestoredByte(InstallAll(mem, stack), stack, a);
  }
}
