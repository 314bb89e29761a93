/** The code-patching registries together: one code memory and one set of JIT blocks under the interceptor, the
    software breakpoints and the hardware breakpoints. */
module SharedCode {
  import opened Words
  import opened X86Machine
  import opened CodePatches
  import opened PatchRegistry
  import opened CodeMemory

  /** Three registries over the same code: no block has two owners, and every allocated block has one. */
  ghost predicate Three(x: Index, y: Index, z: Index, mem: Memory, jit: set<nat>) {
    && RegistryOk(x, mem, jit) && RegistryOk(y, mem, jit) && RegistryOk(z, mem, jit)
    && AllBlocks(x.byId) !! AllBlocks(y.byId) && AllBlocks(x.byId) !! AllBlocks(z.byId)
    && AllBlocks(y.byId) !! AllBlocks(z.byId)
    && jit == AllBlocks(x.byId) + AllBlocks(y.byId) + AllBlocks(z.byId)
  }

  lemma Rotate(x: Index, y: Index, z: Index, mem: Memory, jit: set<nat>)
    requires Three(x, y, z, mem, jit)
    ensures Three(y, z, x, mem, jit)
  {
    hide RegistryOk, AllBlocks;
  }

  /** What one registry does to code and blocks does not disturb another that keeps its blocks. */
  lemma OtherOk(x: Index, mem: Memory, jit: set<nat>, mem': Memory, jit': set<nat>)
    requires RegistryOk(x, mem, jit) && mem'.Keys == mem.Keys && AllBlocks(x.byId) <= jit' && 0 !in jit'
    ensures RegistryOk(x, mem', jit')
  {
    hide Bijective;
    forall id | id in x.byId
      ensures Blocks(x.byId[id]) <= jit'
    {
      forall b | b in Blocks(x.byId[id])
        ensures b in jit'
      {
        assert b in AllBlocks(x.byId);
      }
    }
  }

  lemma RegistryFacts(x: Index, mem: Memory, jit: set<nat>)
    requires RegistryOk(x, mem, jit)
    ensures Bijective(x) && 0 !in jit
  {
  }

  lemma ThreeAdd(x: Index, y: Index, z: Index, mem: Memory, jit: set<nat>, e: Entry)
    requires Three(x, y, z, mem, jit) && e.address !in x.byAddress
    requires Blocks(e) !! jit && DistinctBlocks(e) && |e.original| == |e.written| &&
               IsMapped(mem, e.address, |e.written|)
    ensures Three(Added(x, e), y, z, Poke(mem, e.address, e.written), jit + Blocks(e))
  {
    hide RegistryOk, AllBlocks, Poke, IsMapped, Added;
    RegistryFacts(x, mem, jit);
    var mem', jit' := Poke(mem, e.address, e.written), jit + Blocks(e);
    PokeKeys(mem, e.address, e.written);
    AddedOk(x, mem, jit, e);
    OtherOk(y, mem, jit, mem', jit');
    OtherOk(z, mem, jit, mem', jit');
  }

  lemma ThreeDrop(x: Index, y: Index, z: Index, mem: Memory, jit: set<nat>, id: nat)
    requires Three(x, y, z, mem, jit) && id in x.byId
    ensures var e := x.byId[id];
            Three(Dropped(x, id), y, z, Poke(mem, e.address, e.original), jit - Blocks(e))
  {
    hide RegistryOk, AllBlocks, Poke, IsMapped, Dropped;
    var e := x.byId[id];
    RegistryFacts(x, mem, jit);
    DroppedOk(x, mem, jit, id);
    BlocksLeft(x, mem, jit, id);
    var mem', jit' := Poke(mem, e.address, e.original), jit - Blocks(e);
    PokeKeys(mem, e.address, e.original);
    OtherOk(y, mem, jit, mem', jit');
    OtherOk(z, mem, jit, mem', jit');
  }

  lemma ThreeClear(x: Index, y: Index, z: Index, mem: Memory, jit: set<nat>, mem': Memory)
    requires Three(x, y, z, mem, jit) && mem'.Keys == mem.Keys
    ensures Three(Cleared(x), y, z, mem', jit - AllBlocks(x.byId))
  {
    hide RegistryOk, AllBlocks;
    RegistryFacts(x, mem, jit);
    var jit' := jit - AllBlocks(x.byId);
    ClearedOk(x, mem, jit, mem', jit');
    NoBlocks();
    OtherOk(y, mem, jit, mem', jit');
    OtherOk(z, mem, jit, mem', jit');
  }

  lemma NoBlocks()
    ensures AllBlocks(map[]) == {}
  {
  }

  // ---------- Code bytes ----------

  /** Two registries' patches over pristine memory, none overlapping another. */
  ghost predicate Overlaid(x: Index, y: Index, pristine: Memory, mem: Memory) {
    && Conserved(pristine, mem, Patches(x.byId) + Patches(y.byId))
    && Patches(x.byId) !! Patches(y.byId)
    && (forall p :: p in Patches(x.byId) + Patches(y.byId) ==> p.written != [])
  }

  lemma OverlaidSwap(x: Index, y: Index, pristine: Memory, mem: Memory)
    requires Overlaid(x, y, pristine, mem)
    ensures Overlaid(y, x, pristine, mem)
  {
    hide Conserved, Patches;
    assert Patches(x.byId) + Patches(y.byId) == Patches(y.byId) + Patches(x.byId);
  }

  lemma OverlaidAdd(x: Index, y: Index, pristine: Memory, mem: Memory, e: Entry)
    requires Overlaid(x, y, pristine, mem) && Bijective(x)
    requires e.written != [] && IsMapped(mem, e.address, |e.written|) &&
               e.original == ReadBytes(mem, e.address, |e.written|)
    requires forall q :: q in Patches(x.byId) + Patches(y.byId) ==> CodePatches.Apart(PatchOf(e), q)
    ensures Overlaid(Added(x, e), y, pristine, Poke(mem, e.address, e.written))
  {
    hide Conserved, Patches, Poke, Bijective, Added, ReadBytes, IsMapped;
    var p := PatchOf(e);
    InstallConserves(pristine, mem, Patches(x.byId) + Patches(y.byId), p);
    AddedPatches(x, e);
    assert Patches(Added(x, e).byId) + Patches(y.byId) == Patches(x.byId) + Patches(y.byId) + {p};
    assert !CodePatches.Apart(p, p);
  }

  lemma OverlaidDrop(x: Index, y: Index, pristine: Memory, mem: Memory, id: nat)
    requires Overlaid(x, y, pristine, mem) && Bijective(x) && id in x.byId
    ensures var e := x.byId[id]; Overlaid(Dropped(x, id), y, pristine, Poke(mem, e.address, e.original))
  {
    var p := PatchOf(x.byId[id]);
    assert p in Patches(x.byId);
    hide Conserved, Patches, Poke, Bijective, Dropped;
    RemoveConserves(pristine, mem, Patches(x.byId) + Patches(y.byId), p);
    DroppedPatches(x, id);
    assert Patches(Dropped(x, id).byId) + Patches(y.byId) == Patches(x.byId) + Patches(y.byId) - {p};
  }

  lemma OverlaidClear(x: Index, y: Index, pristine: Memory, mem: Memory, order: seq<nat>)
    requires Overlaid(x, y, pristine, mem) && Bijective(x) && Enumerates(x.byId, order)
    ensures Overlaid(Cleared(x), y, pristine, RestoreAll(mem, PatchesIn(x.byId, order)))
  {
    hide Conserved, Patches, Bijective, RestoreAll, PatchesIn;
    ClearConserves(x, order, pristine, mem, Patches(y.byId));
    NoPatches();
    assert Patches(Cleared(x).byId) + Patches(y.byId) == Patches(y.byId);
  }

  lemma NoPatches()
    ensures Patches(map[]) == {}
  {
  }

  lemma RestoreEntriesKeys(x: Index, mem: Memory, jit: set<nat>, order: seq<nat>)
    requires RegistryOk(x, mem, jit) && Enumerates(x.byId, order)
    ensures RestoreAll(mem, PatchesIn(x.byId, order)).Keys == mem.Keys
  {
    var ps := PatchesIn(x.byId, order);
    forall i | 0 <= i < |ps|
      ensures |ps[i].original| == |ps[i].written| && IsMapped(mem, ps[i].address, |ps[i].written|)
    {
      assert order[i] in order;
    }
    RestoredKeys(mem, ps);
  }
}
