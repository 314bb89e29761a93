/** Symbol counting and export filtering of enumerateExports on ELF (native_process.cc). */
module ExportTable {
  import opened Results
  import opened Words

  /** A DT_GNU_HASH table: `chains[i]` belongs to symbol `symndx + i`, and its low bit ends a chain. */
  datatype GnuHash = GnuHash(symndx: nat, buckets: seq<nat>, chains: seq<nat>)

  predicate Stops(t: GnuHash, s: nat)
    requires t.symndx <= s < t.symndx + |t.chains|
  {
    t.chains[s - t.symndx] % 2 == 1
  }

  function Total(t: GnuHash): nat {
    t.symndx + |t.chains|
  }

  /** Symbol `s` lies on the chain that starts at symbol `b`. */
  ghost predicate OnChain(t: GnuHash, b: nat, s: nat) {
    t.symndx <= b <= s < Total(t) && forall k: nat :: b <= k < s ==> !Stops(t, k)
  }

  ghost predicate Terminates(t: GnuHash, b: nat) {
    exists e: nat :: OnChain(t, b, e) && Stops(t, e)
  }

  /** Symbol 0 is never hashed; every used bucket starts a terminated chain, and every hashed symbol lies
      on the chain of some bucket. */
  ghost predicate WellFormed(t: GnuHash) {
    && t.symndx >= 1
    && (forall i :: 0 <= i < |t.buckets| && t.buckets[i] != 0 ==> Terminates(t, t.buckets[i]))
    && (forall s: nat :: t.symndx <= s < Total(t) ==> Owned(t, s))
  }

  /** Symbol `s` is found through bucket `i`. */
  ghost predicate InBucket(t: GnuHash, i: int, s: nat) {
    0 <= i < |t.buckets| && t.buckets[i] != 0 && OnChain(t, t.buckets[i], s)
  }

  ghost predicate Owned(t: GnuHash, s: nat) {
    exists i :: InBucket(t, i, s)
  }

  ghost predicate IsMax(buckets: seq<nat>, m: nat) {
    (forall i :: 0 <= i < |buckets| ==> buckets[i] <= m) && (m == 0 || m in buckets)
  }

  /** The chain of the largest bucket ends at the last symbol. */
  lemma LargestChainEndsLast(t: GnuHash, m: nat, e: nat)
    requires WellFormed(t) && IsMax(t.buckets, m) && OnChain(t, m, e) && Stops(t, e)
    ensures e + 1 == Total(t)
  {
    var last := Total(t) - 1;
    assert Owned(t, last);
    var i :| InBucket(t, i, last);
    assert t.buckets[i] <= m <= e;
  }

  lemma NothingHashed(t: GnuHash, m: nat)
    requires WellFormed(t) && IsMax(t.buckets, m)
    ensures m >= t.symndx <==> |t.chains| > 0
    ensures m >= t.symndx ==> Terminates(t, m)
  {
    if |t.chains| > 0 {
      assert Owned(t, t.symndx);
      var i :| InBucket(t, i, t.symndx);
    }
  }

  /** The number of symbols enumerated: DT_HASH's count if present, else what the GNU table yields. */
  function SymbolCount(nchain: nat, gnu: Option<GnuHash>): nat {
    if nchain != 0 || gnu.None? then nchain
    else if gnu.value.chains == [] then 0
    else Total(gnu.value)
  }

  method CountSymbols(nchain: nat, gnu: Option<GnuHash>) returns (nsyms: nat)
    requires gnu.Some? ==> WellFormed(gnu.value)
    ensures nsyms == SymbolCount(nchain, gnu)
  {
    nsyms := nchain;
    if nsyms == 0 && gnu.Some? {
      var t := gnu.value;
      var maxSym: nat := 0;
      for i := 0 to |t.buckets|
        invariant IsMax(t.buckets[..i], maxSym)
      {
        if t.buckets[i] > maxSym {
          maxSym := t.buckets[i];
        }
      }
      assert t.buckets[..|t.buckets|] == t.buckets;
      NothingHashed(t, maxSym);
      if maxSym >= t.symndx {
        ghost var e: nat :| OnChain(t, maxSym, e) && Stops(t, e);
        var idx := maxSym - t.symndx;
        while t.chains[idx] % 2 != 1
          invariant maxSym <= t.symndx + idx <= e
          invariant OnChain(t, maxSym, t.symndx + idx)
          decreases e - idx
        {
          assert !Stops(t, t.symndx + idx);
          idx := idx + 1;
        }
        LargestChainEndsLast(t, maxSym, t.symndx + idx);
        nsyms := t.symndx + idx + 1;
      }
    }
  }

  // ---------- The export filter ----------

  datatype Symbol = Symbol(shndx: nat, value: u64, info: byte, name: string)

  datatype ExportInfo = ExportInfo(kind: string, name: string, address: u64)

  const SHN_UNDEF := 0
  const STB_GLOBAL := 1
  const STB_WEAK := 2
  const STT_FUNC := 2

  /** Defined, nonzero, global or weak, and named. */
  predicate IsExport(s: Symbol) {
    s.shndx != SHN_UNDEF && s.value != 0 && s.info / 16 in {STB_GLOBAL, STB_WEAK} && s.name != ""
  }

  function ExportOf(base: u64, s: Symbol): ExportInfo {
    ExportInfo(if s.info % 16 == STT_FUNC then "function" else "variable", s.name, Wrap(base + s.value))
  }

  function Exports(base: u64, symtab: seq<Symbol>): seq<ExportInfo> {
    if symtab == [] then []
    else
      var before, s := Exports(base, symtab[..|symtab| - 1]), symtab[|symtab| - 1];
      if IsExport(s) then before + [ExportOf(base, s)] else before
  }

  method EnumerateExports(base: u64, symtab: seq<Symbol>, nchain: nat, gnu: Option<GnuHash>)
    returns (result: seq<ExportInfo>)
    requires gnu.Some? ==> WellFormed(gnu.value)
    requires SymbolCount(nchain, gnu) <= |symtab|
    ensures result == Exports(base, symtab[..SymbolCount(nchain, gnu)])
  {
    var nsyms := CountSymbols(nchain, gnu);
    result := [];
    for i := 0 to nsyms
      invariant result == Exports(base, symtab[..i])
    {
      var sym := symtab[i];
      assert symtab[..i + 1][..i] == symtab[..i];
      if sym.shndx == SHN_UNDEF || sym.value == 0 {
        continue;
      }
      var bind := sym.info / 16;
      if bind != STB_GLOBAL && bind != STB_WEAK {
        continue;
      }
      if sym.name == "" {
        continue;
      }
      var kind := if sym.info % 16 == STT_FUNC then "function" else "variable";
      result := result + [ExportInfo(kind, sym.name, Wrap(base + sym.value))];
    }
  }

  /** The entry `e` describes the symbol, which is defined, nonzero, global (1) or weak (2), and named. */
  ghost predicate Describes(base: u64, s: Symbol, e: ExportInfo) {
    && s.shndx != 0 && s.value != 0 && (s.info / 16 == 1 || s.info / 16 == 2) && s.name != ""
    && e.name == s.name && e.address == (base + s.value) % 0x1_0000_0000_0000_0000
    && e.kind == if s.info % 16 == 2 then "function" else "variable"
  }

  /** The exports are exactly the entries that describe a symbol of the table. */
  lemma {:induction false} ExportsExact(base: u64, symtab: seq<Symbol>)
    ensures forall e :: e in Exports(base, symtab) <==> exists s :: s in symtab && Describes(base, s, e)
  {
    if symtab != [] {
      var before, last := symtab[..|symtab| - 1], symtab[|symtab| - 1];
      ExportsExact(base, before);
      assert symtab == before + [last];
      assert forall e :: Describes(base, last, e) <==> IsExport(last) && e == ExportOf(base, last);
      hide Describes, IsExport, ExportOf;
      assert last in symtab && forall s :: s in symtab <==> s in before || s == last;
    }
  }

  /** With a GNU table only, the export list is that of the whole symbol table, except when no symbol is hashed:
      then the count is 0, and the list is complete only if the table holds no export at all. */
  lemma GnuExportsComplete(base: u64, symtab: seq<Symbol>, t: GnuHash)
    requires WellFormed(t) && |symtab| == Total(t)
    ensures Exports(base, symtab[..SymbolCount(0, Some(t))]) == Exports(base, symtab) <==>
              |t.chains| > 0 || forall s, e :: s in symtab ==> !Describes(base, s, e)
  {
    hide Describes;
    assert symtab[..|symtab|] == symtab;
    ExportsExact(base, symtab);
    if t.chains == [] {
      var all := Exports(base, symtab);
      forall s, e | s in symtab && Describes(base, s, e)
        ensures e in all
      {
      }
      assert all != [] ==> all[0] in all;
    }
  }

  /** A library that exports one function, in a table that hashes no symbol: the export is not found. */
  lemma UnhashedExportMissed(base: u64)
    ensures var t := GnuHash(2, [0], []);
            var symtab := [Symbol(0, 0, 0, ""), Symbol(1, 0x1000, 0x12, "f")];
            && WellFormed(t) && |symtab| == Total(t)
            && Exports(base, symtab) == [ExportInfo("function", "f", Wrap(base + 0x1000))]
            && Exports(base, symtab[..SymbolCount(0, Some(t))]) == []
  {
    var first, f := Symbol(0, 0, 0, ""), Symbol(1, 0x1000, 0x12, "f");
    var symtab := [first, f];
    assert symtab[..1] == [first] && [first][..0] == [] && symtab[..0] == [];
    assert Exports(base, [first]) == Exports(base, []);
    assert ExportOf(base, f) == ExportInfo("function", "f", Wrap(base + 0x1000));
    assert Exports(base, symtab) == Exports(base, [first]) + [ExportOf(base, f)];
  }
}
