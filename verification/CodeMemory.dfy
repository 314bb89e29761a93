/** Code memory shared by the patching subsystems. */
module CodeMemory {
  import opened Results
  import opened Words
  import opened X86Machine
  import opened CodePatches
  import opened PatchRegistry

  /** Code bytes of the process and the blocks allocated by the JIT runtime. */
  class CodeSpace {
    var mem: Memory
    var jit: set<nat>

    constructor (mem: Memory)
      ensures this.mem == mem && jit == {}
    {
      this.mem := mem;
      jit := {};
    }

    method MakeWritableAndPatch(address: u64, data: seq<byte>)
      requires IsMapped(mem, address, |data|)
      modifies this`mem
      ensures mem == Poke(old(mem), address, data)
    {
      mem := Poke(mem, address, data);
    }

    /** JitRuntime::add succeeded with a new block. */
    method AddCode(block: nat)
      requires block != 0 && block !in jit
      modifies this`jit
      ensures jit == old(jit) + {block}
    {
      jit := jit + {block};
    }

    /** Releasing a block twice would violate the precondition. */
    method ReleaseCode(block: nat)
      requires block == 0 || block in jit
      modifies this`jit
      ensures jit == old(jit) - ({block} - {0})
    {
      if block != 0 {
        jit := jit - {block};
      }
    }
  }

  ghost predicate EntriesMapped(byId: map<nat, Entry>, mem: Memory) {
    forall id :: id in byId ==>
      |byId[id].original| == |byId[id].written| && IsMapped(mem, byId[id].address, |byId[id].written|)
  }

  /** The invariant that ties a registry to the code space. */
  ghost predicate RegistryOk(x: Index, mem: Memory, jit: set<nat>) {
    Bijective(x) && OwnsBlocks(x.byId, jit) && 0 !in jit && EntriesMapped(x.byId, mem)
  }

  /** A new entry, its blocks just allocated and its patch written. */
  lemma AddedOk(x: Index, mem: Memory, jit: set<nat>, e: Entry)
    requires RegistryOk(x, mem, jit) && e.address !in x.byAddress
    requires Blocks(e) !! jit && DistinctBlocks(e)
    requires |e.original| == |e.written| && IsMapped(mem, e.address, |e.written|)
    ensures RegistryOk(Added(x, e), Poke(mem, e.address, e.written), jit + Blocks(e))
    ensures AllBlocks(Added(x, e).byId) == AllBlocks(x.byId) + Blocks(e)
  {
    AddedBijective(x, e);
    AddedOwns(x, jit, e);
    PokeKeys(mem, e.address, e.written);
    hide Bijective, OwnsBlocks, AllBlocks, Poke;
  }

  /** An entry taken out, its bytes put back and its blocks released. */
  lemma DroppedOk(x: Index, mem: Memory, jit: set<nat>, id: nat)
    requires RegistryOk(x, mem, jit) && id in x.byId
    ensures var e := x.byId[id];
            && Blocks(e) <= jit && DistinctBlocks(e)
            && e.address in x.byAddress && x.byAddress[e.address] == e
            && IsMapped(mem, e.address, |e.original|)
            && RegistryOk(Dropped(x, id), Poke(mem, e.address, e.original), jit - Blocks(e))
  {
    var e := x.byId[id];
    DroppedBijective(x, id);
    DroppedOwns(x, jit, id);
    PokeKeys(mem, e.address, e.original);
    hide AllBlocks, Poke;
  }

  lemma EntryHasId(x: Index, mem: Memory, jit: set<nat>, a: nat)
    requires RegistryOk(x, mem, jit) && a in x.byAddress
    ensures x.byAddress[a].address == a && exists id :: id in x.byId && x.byId[id] == x.byAddress[a]
  {
    assert Indexed(x, a);
  }

  lemma ClearedOk(x: Index, mem: Memory, jit: set<nat>, mem': Memory, jit': set<nat>)
    requires RegistryOk(x, mem, jit) && jit' <= jit
    ensures RegistryOk(Cleared(x), mem', jit')
  {
  }

  /** Taking out one entry releases its blocks and no others. */
  lemma BlocksLeft(x: Index, mem: Memory, jit: set<nat>, id: nat)
    requires RegistryOk(x, mem, jit) && id in x.byId
    ensures var left := AllBlocks(Dropped(x, id).byId);
            && AllBlocks(x.byId) == left + Blocks(x.byId[id]) && left !! Blocks(x.byId[id])
            && AllBlocks(x.byId) <= jit
  {
    DroppedOwns(x, jit, id);
    forall b | b in Blocks(x.byId[id])
      ensures b in AllBlocks(x.byId)
    {
    }
  }

  function NewEntry(mem: Memory, address: u64, trampoline: nat, relocated: nat, written: seq<byte>): Entry {
    Entry(address, trampoline, relocated, ReadBytes(mem, address, |written|), written, None)
  }

  /** A code generator's answer: a block not in use, or None if it threw. */
  predicate Fresh(jit: set<nat>, block: Option<u64>) {
    block.Some? ==> block.value != 0 && block.value !in jit
  }

  /** Two such answers, for two blocks. */
  predicate TwoFresh(jit: set<nat>, relocated: Option<u64>, trampoline: Option<u64>) {
    Fresh(jit, relocated) && Fresh(jit, trampoline) && (relocated == trampoline ==> relocated.None?)
  }
}
