/** What the interceptor, the software breakpoints and the hardware breakpoints have in common: two indexes over
    one set of entries, JIT blocks owned by entries, and the code memory they patch. */
module PatchRegistry {
  import opened Results
  import opened Words
  import opened X86Machine
  import opened CodePatches
  import opened DebugRegisters

  /** A hardware breakpoint's own fields. */
  datatype Watch = Watch(kind: WatchKind, size: int, slot: nat)

  /** An entry: its address, its JIT blocks (0 is the null pointer), the bytes it saved and the bytes it wrote. */
  datatype Entry = Entry(
    address: u64, trampoline: nat, relocated: nat, original: seq<byte>, written: seq<byte>, watch: Option<Watch>)

  /** The id map, the address map and the id counter. */
  datatype Index = Index(byId: map<nat, Entry>, byAddress: map<nat, Entry>, nextId: nat)

  const EMPTY := Index(map[], map[], 1)

  /** Both maps hold the same entries, one per address, and every id was given out. */
  ghost predicate Bijective(x: Index) {
    && (forall id :: id in x.byId ==>
          id < x.nextId && x.byId[id].address in x.byAddress && x.byAddress[x.byId[id].address] == x.byId[id])
    && (forall a :: a in x.byAddress ==> x.byAddress[a].address == a && Indexed(x, a))
    && (forall id, id' :: id in x.byId && id' in x.byId && id != id' ==> x.byId[id].address != x.byId[id'].address)
  }

  ghost predicate Indexed(x: Index, a: nat)
    requires a in x.byAddress
  {
    exists id :: id in x.byId && x.byId[id] == x.byAddress[a]
  }

  // ---------- JIT blocks ----------

  /** The blocks an entry owns. */
  function Blocks(e: Entry): set<nat> {
    {e.trampoline, e.relocated} - {0}
  }

  predicate DistinctBlocks(e: Entry) {
    e.trampoline != e.relocated || e.trampoline == 0
  }

  function AllBlocks(byId: map<nat, Entry>): set<nat> {
    set id, b | id in byId && b in Blocks(byId[id]) :: b
  }

  /** Owned blocks are allocated, and no two owners share one. */
  ghost predicate OwnsBlocks(byId: map<nat, Entry>, jit: set<nat>) {
    && (forall id :: id in byId ==> Blocks(byId[id]) <= jit && DistinctBlocks(byId[id]))
    && (forall id, id' :: id in byId && id' in byId && id != id' ==> Blocks(byId[id]) !! Blocks(byId[id']))
  }

  // ---------- Index operations ----------

  function Added(x: Index, e: Entry): Index {
    Index(x.byId[x.nextId := e], x.byAddress[e.address := e], x.nextId + 1)
  }

  function Dropped(x: Index, id: nat): Index
    requires id in x.byId
  {
    Index(x.byId - {id}, x.byAddress - {x.byId[id].address}, x.nextId)
  }

  function Cleared(x: Index): Index {
    Index(map[], map[], x.nextId)
  }

  lemma AddedBijective(x: Index, e: Entry)
    requires Bijective(x) && e.address !in x.byAddress
    ensures Bijective(Added(x, e))
  {
    var y := Added(x, e);
    assert x.nextId !in x.byId;
    forall a | a in y.byAddress
      ensures Indexed(y, a)
    {
      if a == e.address {
        assert y.byId[x.nextId] == e;
      } else {
        assert Indexed(x, a);
        var id :| id in x.byId && x.byId[id] == x.byAddress[a];
        assert y.byId[id] == y.byAddress[a];
      }
    }
  }

  lemma DroppedBijective(x: Index, id: nat)
    requires Bijective(x) && id in x.byId
    ensures Bijective(Dropped(x, id))
  {
    var y := Dropped(x, id);
    forall a | a in y.byAddress
      ensures Indexed(y, a)
    {
      assert Indexed(x, a);
      var k :| k in x.byId && x.byId[k] == x.byAddress[a];
      assert k != id && y.byId[k] == y.byAddress[a];
    }
  }

  /** A live address belongs to exactly one id. */
  lemma OneIdPerAddress(x: Index, a: nat)
    requires Bijective(x) && a in x.byAddress
    ensures exists id :: id in x.byId && x.byId[id] == x.byAddress[a] &&
              forall k :: k in x.byId && x.byId[k].address == a ==> k == id
  {
    assert Indexed(x, a);
    var id :| id in x.byId && x.byId[id] == x.byAddress[a];
    assert forall k :: k in x.byId && x.byId[k].address == a ==> k == id;
  }

  lemma AddedOwns(x: Index, jit: set<nat>, e: Entry)
    requires Bijective(x) && OwnsBlocks(x.byId, jit)
    requires Blocks(e) !! jit && DistinctBlocks(e)
    ensures OwnsBlocks(Added(x, e).byId, jit + Blocks(e))
    ensures AllBlocks(Added(x, e).byId) == AllBlocks(x.byId) + Blocks(e)
  {
    var y := Added(x, e);
    assert x.nextId !in x.byId;
    forall id, id' | id in y.byId && id' in y.byId && id != id'
      ensures Blocks(y.byId[id]) !! Blocks(y.byId[id'])
    {
      if id == x.nextId {
        assert Blocks(x.byId[id']) <= jit;
      } else if id' == x.nextId {
        assert Blocks(x.byId[id]) <= jit;
      }
    }
    assert y.byId[x.nextId] == e;
    forall b
      ensures b in AllBlocks(y.byId) <==> b in AllBlocks(x.byId) || b in Blocks(e)
    {
      if b in AllBlocks(x.byId) {
        var id :| id in x.byId && b in Blocks(x.byId[id]);
        assert y.byId[id] == x.byId[id];
      }
    }
  }

  lemma DroppedOwns(x: Index, jit: set<nat>, id: nat)
    requires OwnsBlocks(x.byId, jit) && id in x.byId
    ensures OwnsBlocks(Dropped(x, id).byId, jit - Blocks(x.byId[id]))
    ensures AllBlocks(Dropped(x, id).byId) == AllBlocks(x.byId) - Blocks(x.byId[id])
  {
    var y := Dropped(x, id);
    forall k | k in y.byId
      ensures Blocks(y.byId[k]) <= jit - Blocks(x.byId[id])
    {
      assert Blocks(x.byId[k]) !! Blocks(x.byId[id]);
    }
    forall b
      ensures b in AllBlocks(y.byId) <==> b in AllBlocks(x.byId) && b !in Blocks(x.byId[id])
    {
      if b in AllBlocks(x.byId) && b !in Blocks(x.byId[id]) {
        var k :| k in x.byId && b in Blocks(x.byId[k]);
        assert y.byId[k] == x.byId[k];
      }
    }
  }

  // ---------- Live patches ----------

  function PatchOf(e: Entry): Patch {
    Patch(e.address, e.original, e.written)
  }

  function Patches(byId: map<nat, Entry>): set<Patch> {
    set id | id in byId :: PatchOf(byId[id])
  }

  lemma AddedPatches(x: Index, e: Entry)
    requires Bijective(x)
    ensures Patches(Added(x, e).byId) == Patches(x.byId) + {PatchOf(e)}
  {
    var y := Added(x, e);
    assert x.nextId !in x.byId;
    forall p
      ensures p in Patches(y.byId) <==> p in Patches(x.byId) || p == PatchOf(e)
    {
      if p in Patches(x.byId) {
        var id :| id in x.byId && p == PatchOf(x.byId[id]);
        assert y.byId[id] == x.byId[id];
      }
      assert y.byId[x.nextId] == e;
    }
  }

  lemma DroppedPatches(x: Index, id: nat)
    requires Bijective(x) && id in x.byId
    ensures Patches(Dropped(x, id).byId) == Patches(x.byId) - {PatchOf(x.byId[id])}
  {
    var y := Dropped(x, id);
    forall p
      ensures p in Patches(y.byId) <==> p in Patches(x.byId) && p != PatchOf(x.byId[id])
    {
      if p in Patches(x.byId) && p != PatchOf(x.byId[id]) {
        var k :| k in x.byId && p == PatchOf(x.byId[k]);
        assert y.byId[k] == x.byId[k];
      }
    }
  }

  /** `order` lists every entry's id once: a way the unordered map may be walked. */
  ghost predicate Enumerates(byId: map<nat, Entry>, order: seq<nat>) {
    && (forall i, j :: 0 <= i < j < |order| ==> order[i] != order[j])
    && (forall id :: id in order <==> id in byId)
  }

  function PatchesIn(byId: map<nat, Entry>, order: seq<nat>): (ps: seq<Patch>)
    requires forall id :: id in order ==> id in byId
    ensures |ps| == |order|
    ensures forall i :: 0 <= i < |order| ==> ps[i] == PatchOf(byId[order[i]])
  {
    if order == [] then [] else [PatchOf(byId[order[0]])] + PatchesIn(byId, order[1..])
  }

  lemma ListedOnce(x: Index, order: seq<nat>)
    requires Bijective(x) && Enumerates(x.byId, order)
    ensures NoDuplicates(PatchesIn(x.byId, order))
  {
    var ps := PatchesIn(x.byId, order);
    forall i, j | 0 <= i < j < |ps|
      ensures ps[i] != ps[j]
    {
      assert order[i] in order && order[j] in order;
      assert x.byId[order[i]].address != x.byId[order[j]].address;
    }
  }

  lemma ListedAll(byId: map<nat, Entry>, order: seq<nat>)
    requires Enumerates(byId, order)
    ensures Elements(PatchesIn(byId, order)) == Patches(byId)
  {
    var ps := PatchesIn(byId, order);
    forall p
      ensures p in Elements(ps) <==> p in Patches(byId)
    {
      if p in Elements(ps) {
        var i :| 0 <= i < |ps| && ps[i] == p;
        assert order[i] in order;
      }
      if p in Patches(byId) {
        var id :| id in byId && p == PatchOf(byId[id]);
        assert id in order;
        var i :| 0 <= i < |order| && order[i] == id;
        assert ps[i] == p;
      }
    }
  }

  /** Removing all entries of one registry, in whatever order its map is walked, leaves exactly the patches of
      the others in memory, as long as live patches do not overlap. */
  lemma ClearConserves(x: Index, order: seq<nat>, pristine: Memory, mem: Memory, others: set<Patch>)
    requires Bijective(x) && Enumerates(x.byId, order)
    requires Conserved(pristine, mem, Patches(x.byId) + others) && Patches(x.byId) !! others
    ensures Conserved(pristine, RestoreAll(mem, PatchesIn(x.byId, order)), others)
  {
    hide Bijective, Conserved, RestoreAll, PatchesIn, Patches, NoDuplicates, Elements;
    var ps := PatchesIn(x.byId, order);
    ListedOnce(x, order);
    ListedAll(x.byId, order);
    AnyOrderRestores(pristine, mem, Patches(x.byId) + others, ps);
    assert Patches(x.byId) + others - Elements(ps) == others;
  }
}
