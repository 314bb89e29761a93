/** The inline-hook registry of native_interceptor.cc. */
module Interceptor {
  import opened Results
  import opened Words
  import opened HexText
  import opened X86Machine
  import opened CodePatches
  import opened PatchRegistry
  import opened CodeMemory
  import CodeRelocator

  datatype HookError = AlreadyHooked | CannotRelocate | CannotAssemble | BadId(error: ParseError)

  class NativeInterceptor {
    const space: CodeSpace
    var hooksById: map<nat, Entry>
    var hooksByTarget: map<nat, Entry>
    var nextHookId: nat

    function Hooks(): Index
      reads this
    {
      Index(hooksById, hooksByTarget, nextHookId)
    }

    ghost predicate Valid()
      reads this, space
    {
      RegistryOk(Hooks(), space.mem, space.jit)
    }

    constructor (space: CodeSpace)
      requires 0 !in space.jit
      ensures this.space == space && Valid() && Hooks() == EMPTY
    {
      this.space := space;
      hooksById, hooksByTarget, nextHookId := map[], map[], 1;
    }

    /** Hooks `target`.  `relocated` and `trampoline` are the answers of the code generators. */
    method Attach(target: u64, relocated: Option<u64>, trampoline: Option<u64>)
      returns (r: Result<string, HookError>)
      requires Valid() && IsMapped(space.mem, target, CodeRelocator.PATCH_SIZE)
      requires TwoFresh(space.jit, relocated, trampoline)
      modifies this, space
      ensures Valid()
      ensures r == if target in old(hooksByTarget) then Failure(AlreadyHooked)
                   else if relocated.None? then Failure(CannotRelocate)
                   else if trampoline.None? then Failure(CannotAssemble)
                   else Success(ToHexAddr(old(nextHookId)))
      ensures r.Failure? ==> Hooks() == old(Hooks()) && space.mem == old(space.mem) && space.jit == old(space.jit)
      ensures r.Success? ==>
                var patch := CodeRelocator.AbsoluteJump(trampoline.value);
                && Hooks() == Added(old(Hooks()),
                     NewEntry(old(space.mem), target, trampoline.value, relocated.value, patch))
                && space.mem == Poke(old(space.mem), target, patch)
                && space.jit == old(space.jit) + {relocated.value, trampoline.value}
    {
      hide RegistryOk, Poke, ReadBytes, CodeRelocator.AbsoluteJump, IsMapped;
      if target in hooksByTarget {
        return Failure(AlreadyHooked);
      }
      var originalBytes := ReadBytes(space.mem, target, CodeRelocator.PATCH_SIZE);
      if relocated.None? {
        return Failure(CannotRelocate);
      }
      space.AddCode(relocated.value);
      if trampoline.None? {
        space.ReleaseCode(relocated.value);
        assert space.jit == old(space.jit);
        return Failure(CannotAssemble);
      }
      space.AddCode(trampoline.value);
      var patchBuf := CodeRelocator.AbsoluteJump(trampoline.value);
      var entry := Entry(target, trampoline.value, relocated.value, originalBytes, patchBuf, None);
      AddedOk(Hooks(), space.mem, old(space.jit), entry);
      space.MakeWritableAndPatch(target, patchBuf);
      hooksById := hooksById[nextHookId := entry];
      hooksByTarget := hooksByTarget[target := entry];
      nextHookId := nextHookId + 1;
      assert space.jit == old(space.jit) + Blocks(entry);
      return Success(ToHexAddr(nextHookId - 1));
    }

    /** Redirects `target` to `replacement`; the relocated block calls the original. */
    method Replace(target: u64, replacement: u64, relocated: Option<u64>)
      returns (r: Result<u64, HookError>)
      requires Valid() && IsMapped(space.mem, target, CodeRelocator.PATCH_SIZE)
      requires Fresh(space.jit, relocated)
      modifies this, space
      ensures Valid()
      ensures r == if target in old(hooksByTarget) then Failure(AlreadyHooked)
                   else if relocated.None? then Failure(CannotRelocate)
                   else Success(relocated.value)
      ensures r.Failure? ==> Hooks() == old(Hooks()) && space.mem == old(space.mem) && space.jit == old(space.jit)
      ensures r.Success? ==>
                var patch := CodeRelocator.AbsoluteJump(replacement);
                && Hooks() == Added(old(Hooks()), NewEntry(old(space.mem), target, 0, relocated.value, patch))
                && space.mem == Poke(old(space.mem), target, patch)
                && space.jit == old(space.jit) + {relocated.value}
    {
      hide RegistryOk, Poke, ReadBytes, CodeRelocator.AbsoluteJump, IsMapped;
      if target in hooksByTarget {
        return Failure(AlreadyHooked);
      }
      var originalBytes := ReadBytes(space.mem, target, CodeRelocator.PATCH_SIZE);
      if relocated.None? {
        return Failure(CannotRelocate);
      }
      space.AddCode(relocated.value);
      var patchBuf := CodeRelocator.AbsoluteJump(replacement);
      var entry := Entry(target, 0, relocated.value, originalBytes, patchBuf, None);
      AddedOk(Hooks(), space.mem, old(space.jit), entry);
      space.MakeWritableAndPatch(target, patchBuf);
      hooksById := hooksById[nextHookId := entry];
      hooksByTarget := hooksByTarget[target := entry];
      nextHookId := nextHookId + 1;
      assert space.jit == old(space.jit) + Blocks(entry);
      return Success(relocated.value);
    }

    /** Takes one hook out: bytes restored, blocks released, both maps updated. */
    ghost predicate DroppedFrom(id: nat, hooks: Index, mem: Memory, jit: set<nat>)
      reads this, space
    {
      id in hooks.byId &&
      var e := hooks.byId[id];
      && Hooks() == Dropped(hooks, id)
      && space.mem == Poke(mem, e.address, e.original)
      && space.jit == jit - Blocks(e)
    }

    method Detach(hookIdStr: string) returns (r: Result<(), HookError>)
      requires Valid()
      modifies this, space
      ensures Valid()
      ensures match ParseHexAddr(hookIdStr)
              case Failure(e) =>
                && r == Failure(BadId(e))
                && Hooks() == old(Hooks()) && space.mem == old(space.mem) && space.jit == old(space.jit)
              case Success(id) =>
                r == Success(()) &&
                if id in old(hooksById) then DroppedFrom(id, old(Hooks()), old(space.mem), old(space.jit))
                else Hooks() == old(Hooks()) && space.mem == old(space.mem) && space.jit == old(space.jit)
    {
      hide RegistryOk, Poke, IsMapped, ParseHexAddr;
      var parsed := ParseHexAddr(hookIdStr);
      if parsed.Failure? {
        return Failure(BadId(parsed.error));
      }
      var hookId := parsed.value;
      if hookId !in hooksById {
        return Success(());
      }
      var entry := hooksById[hookId];
      DroppedOk(Hooks(), space.mem, space.jit, hookId);
      space.MakeWritableAndPatch(entry.address, entry.original);
      space.ReleaseCode(entry.trampoline);
      space.ReleaseCode(entry.relocated);
      assert space.jit == old(space.jit) - Blocks(entry);
      hooksByTarget := hooksByTarget - {entry.address};
      hooksById := hooksById - {hookId};
      return Success(());
    }

    /** Takes out the hook at an address, found by searching the id map for its entry. */
    method Revert(target: u64)
      requires Valid()
      modifies this, space
      ensures Valid()
      ensures if target in old(hooksByTarget)
              then exists id :: id in old(hooksById) && old(hooksById)[id].address == target &&
                     DroppedFrom(id, old(Hooks()), old(space.mem), old(space.jit))
              else Hooks() == old(Hooks()) && space.mem == old(space.mem) && space.jit == old(space.jit)
    {
      hide RegistryOk, Poke, IsMapped;
      if target !in hooksByTarget {
        return;
      }
      var entry := hooksByTarget[target];
      EntryHasId(Hooks(), space.mem, space.jit, target);
      var id :| id in hooksById && hooksById[id] == entry;
      DroppedOk(Hooks(), space.mem, space.jit, id);
      space.MakeWritableAndPatch(entry.address, entry.original);
      space.ReleaseCode(entry.trampoline);
      space.ReleaseCode(entry.relocated);
      assert space.jit == old(space.jit) - Blocks(entry);
      hooksById := hooksById - {id};
      hooksByTarget := hooksByTarget - {target};
    }

    /** Takes out every hook, walking the unordered map in some order. */
    method DetachAll() returns (ghost order: seq<nat>)
      requires Valid()
      modifies this, space
      ensures Valid()
      ensures Enumerates(old(hooksById), order)
      ensures Hooks() == Cleared(old(Hooks()))
      ensures space.mem == RestoreAll(old(space.mem), PatchesIn(old(hooksById), order))
      ensures space.jit == old(space.jit) - AllBlocks(old(hooksById))
    {
      hide RegistryOk;
      ghost var hooks := Hooks();
      order := RestoreEntries(space, hooksById, hooks);
      hooksById, hooksByTarget := map[], map[];
      ClearedOk(hooks, old(space.mem), old(space.jit), space.mem, space.jit);
    }
  }

  /** Halfway through a removal loop: `order` was taken out, `rest` is left. */
  ghost predicate Removing(
    entries: map<nat, Entry>, rest: map<nat, Entry>, order: seq<nat>, mem0: Memory, mem: Memory) {
    && rest.Keys <= entries.Keys && (forall id :: id in rest ==> rest[id] == entries[id])
    && (forall id :: id in order <==> id in entries && id !in rest)
    && (forall i, j :: 0 <= i < j < |order| ==> order[i] != order[j])
    && mem == RestoreAll(mem0, PatchesIn(entries, order))
  }

  lemma RemovingStep(
    entries: map<nat, Entry>, rest: map<nat, Entry>, order: seq<nat>, mem0: Memory, mem: Memory, id: nat)
    requires Removing(entries, rest, order, mem0, mem) && id in rest
    ensures Removing(entries, rest - {id}, order + [id], mem0, Poke(mem, rest[id].address, rest[id].original))
  {
    RestoreOneMore(mem0, entries, order, id);
  }

  /** The removal loop shared by detachAll and removeAll; `x` is the index the entries are taken from. */
  method RestoreEntries(space: CodeSpace, entries: map<nat, Entry>, ghost x: Index) returns (ghost order: seq<nat>)
    requires RegistryOk(x, space.mem, space.jit) && entries == x.byId
    modifies space
    ensures Enumerates(entries, order)
    ensures space.mem == RestoreAll(old(space.mem), PatchesIn(entries, order))
    ensures space.jit == old(space.jit) - AllBlocks(entries)
  {
    hide RegistryOk, Poke, IsMapped, RestoreAll, PatchesIn, AllBlocks, Removing;
    order := [];
    var rest := entries;
    ghost var y := x;
    RemovingStarts(entries, space.mem);
    while rest.Keys != {}
      invariant Removing(entries, rest, order, old(space.mem), space.mem)
      invariant rest == y.byId && RegistryOk(y, space.mem, space.jit)
      invariant space.jit - AllBlocks(rest) == old(space.jit) - AllBlocks(entries)
      decreases rest.Keys
    {
      var id :| id in rest.Keys;
      var entry := rest[id];
      DroppedOk(y, space.mem, space.jit, id);
      BlocksLeft(y, space.mem, space.jit, id);
      RemovingStep(entries, rest, order, old(space.mem), space.mem, id);
      ghost var before := space.jit;
      space.MakeWritableAndPatch(entry.address, entry.original);
      space.ReleaseCode(entry.trampoline);
      space.ReleaseCode(entry.relocated);
      assert space.jit == before - Blocks(entry);
      y := Dropped(y, id);
      rest := rest - {id};
      order := order + [id];
    }
    RemovingEnds(entries, rest, order, old(space.mem), space.mem);
  }

  lemma RemovingStarts(entries: map<nat, Entry>, mem: Memory)
    ensures Removing(entries, entries, [], mem, mem)
  {
  }

  lemma RemovingEnds(entries: map<nat, Entry>, rest: map<nat, Entry>, order: seq<nat>, mem0: Memory, mem: Memory)
    requires Removing(entries, rest, order, mem0, mem) && rest.Keys == {}
    ensures Enumerates(entries, order) && mem == RestoreAll(mem0, PatchesIn(entries, order))
    ensures AllBlocks(rest) == {}
  {
  }

  lemma {:induction false} RestoreOneMore(mem: Memory, entries: map<nat, Entry>, order: seq<nat>, id: nat)
    requires id in entries && forall k :: k in order ==> k in entries
    ensures (forall k :: k in order + [id] ==> k in entries)
    ensures RestoreAll(mem, PatchesIn(entries, order + [id])) ==
              Poke(RestoreAll(mem, PatchesIn(entries, order)), entries[id].address, entries[id].original)
    decreases |order|
  {
    if order == [] {
      assert [id][1..] == [];
      assert PatchesIn(entries, [id]) == [PatchOf(entries[id])];
      assert [PatchOf(entries[id])][1..] == [];
    } else {
      var first := PatchOf(entries[order[0]]);
      assert (order + [id])[1..] == order[1..] + [id];
      RestoreOneMore(Poke(mem, first.address, first.original), entries, order[1..], id);
    }
  }
}
