/** The bounded linear-sweep loops of native_disassembler.cc over a decoder given as a function. */
module LinearSweep {
  import opened Results
  import opened Words
  import X86Machine

  /** What the decoder reports: size, and the target extracted from the operands (0 if there is none). */
  datatype Insn = Insn(address: int, size: nat, target: u64, kind: string)

  /** Decodes the first instruction of the offered bytes at an address. */
  type Decoder = (seq<byte>, int) -> Option<Insn>

  const MAX_OFFER := 16

  datatype Xref = Xref(address: int, kind: string, size: nat)

  /** The bytes offered to the decoder at `off`: one instruction's worth, never past the range. */
  function Offered(code: seq<byte>, off: nat): seq<byte>
    requires off <= |code|
  {
    var maxBytes := |code| - off;
    if maxBytes > MAX_OFFER then code[off..off + MAX_OFFER] else code[off..]
  }

  /** The decoder consumes between one byte and the bytes it was offered, and reports the address it was given. */
  ghost predicate Bounded(decode: Decoder) {
    forall bs: seq<byte>, a: int {:trigger decode(bs, a)} ::
      decode(bs, a).Some? ==> 1 <= decode(bs, a).value.size <= |bs| && decode(bs, a).value.address == a
  }

  // ---------- The recursive sweep ----------

  /** Instructions met by a linear sweep from `off`; where nothing decodes, `skip` bytes are passed over. */
  function Sweep(decode: Decoder, skip: nat, start: int, code: seq<byte>, off: nat): seq<Insn>
    requires skip >= 1
    decreases |code| - off
  {
    if off >= |code| then []
    else
      match decode(Offered(code, off), start + off)
      case None => Sweep(decode, skip, start, code, off + skip)
      case Some(insn) =>
        if insn.size == 0 then [] else [insn] + Sweep(decode, skip, start, code, off + insn.size)
  }

  function Matching(insns: seq<Insn>, target: u64): seq<Xref> {
    if insns == [] then []
    else
      MatchOf(insns[0], target) + Matching(insns[1..], target)
  }

  /** Instructions ascend without overlap inside [lo, hi). */
  ghost predicate Tiled(insns: seq<Insn>, lo: int, hi: int) {
    && (forall i :: 0 <= i < |insns| ==> insns[i].size >= 1 && lo <= insns[i].address
                                         && insns[i].address + insns[i].size <= hi)
    && (forall i, j :: 0 <= i < j < |insns| ==> insns[i].address + insns[i].size <= insns[j].address)
  }

  lemma {:induction false} SweepIsTiled(decode: Decoder, skip: nat, start: int, code: seq<byte>, off: nat)
    requires skip >= 1 && Bounded(decode)
    ensures Tiled(Sweep(decode, skip, start, code, off), start + off, start + |code|)
    decreases |code| - off
  {
    hide Tiled;
    if off >= |code| {
      NothingTiled(start + off, start + |code|);
    } else {
      match decode(Offered(code, off), start + off)
      case None =>
        SweepIsTiled(decode, skip, start, code, off + skip);
        TiledFrom(Sweep(decode, skip, start, code, off + skip), start + off, start + off + skip, start + |code|);
      case Some(insn) =>
        SweepIsTiled(decode, skip, start, code, off + insn.size);
        TiledAfter(insn, Sweep(decode, skip, start, code, off + insn.size), start + off, start + |code|);
    }
  }

  lemma NothingTiled(lo: int, hi: int)
    ensures Tiled([], lo, hi)
  {
  }

  lemma TiledFrom(insns: seq<Insn>, lo: int, lo': int, hi: int)
    requires Tiled(insns, lo', hi) && lo <= lo'
    ensures Tiled(insns, lo, hi)
  {
  }

  lemma TiledAfter(first: Insn, rest: seq<Insn>, lo: int, hi: int)
    requires first.size >= 1 && first.address == lo && lo + first.size <= hi && Tiled(rest, lo + first.size, hi)
    ensures Tiled([first] + rest, lo, hi)
  {
    var insns := [first] + rest;
    assert forall i :: 0 < i < |insns| ==> insns[i] == rest[i - 1];
  }

  lemma {:induction false} MatchingExact(insns: seq<Insn>, target: u64)
    ensures forall x: Xref :: x in Matching(insns, target) <==>
              exists i :: 0 <= i < |insns| && insns[i].target == target &&
                x == Xref(insns[i].address, insns[i].kind, insns[i].size)
  {
    if insns != [] {
      MatchingExact(insns[1..], target);
      forall x: Xref | x in Matching(insns, target)
        ensures exists i :: 0 <= i < |insns| && insns[i].target == target &&
                  x == Xref(insns[i].address, insns[i].kind, insns[i].size)
      {
        if x in Matching(insns[1..], target) {
          var i :| 0 <= i < |insns[1..]| && insns[1..][i].target == target &&
            x == Xref(insns[1..][i].address, insns[1..][i].kind, insns[1..][i].size);
          assert insns[i + 1] == insns[1..][i];
        }
      }
      forall i | 0 <= i < |insns| && insns[i].target == target
        ensures Xref(insns[i].address, insns[i].kind, insns[i].size) in Matching(insns, target)
      {
        if i > 0 {
          assert insns[1..][i - 1] == insns[i];
        }
      }
    }
  }

  function MatchOf(insn: Insn, target: u64): seq<Xref> {
    if insn.target == target then [Xref(insn.address, insn.kind, insn.size)] else []
  }

  /** The references still to be found from `off` on, after those already found. */
  function FoundWith(found: seq<Xref>, decode: Decoder, skip: nat, start: int, code: seq<byte>, off: nat, target: u64)
    : seq<Xref>
    requires skip >= 1
  {
    found + Matching(Sweep(decode, skip, start, code, off), target)
  }

  function Note(found: seq<Xref>, insn: Insn, target: u64): seq<Xref> {
    if insn.target == target then found + [Xref(insn.address, insn.kind, insn.size)] else found
  }

  /** One turn of the sweep loop. */
  lemma SweepTurn(found: seq<Xref>, decode: Decoder, skip: nat, start: int, code: seq<byte>, off: nat, target: u64)
    requires skip >= 1 && Bounded(decode) && off < |code|
    ensures var d := decode(Offered(code, off), start + off);
            (d.Some? ==> d.value.size >= 1) &&
            FoundWith(found, decode, skip, start, code, off, target) ==
              if d.None? then FoundWith(found, decode, skip, start, code, off + skip, target)
              else FoundWith(Note(found, d.value, target), decode, skip, start, code, off + d.value.size, target)
  {
    var d := decode(Offered(code, off), start + off);
    if d.Some? {
      var rest := Sweep(decode, skip, start, code, off + d.value.size);
      assert Sweep(decode, skip, start, code, off) == [d.value] + rest;
      hide Sweep;
      NoteFirst(found, d.value, rest, target);
    }
  }

  lemma NoteFirst(found: seq<Xref>, insn: Insn, rest: seq<Insn>, target: u64)
    ensures found + Matching([insn] + rest, target) == Note(found, insn, target) + Matching(rest, target)
  {
    assert ([insn] + rest)[1..] == rest;
    assert Matching([insn] + rest, target) == MatchOf(insn, target) + Matching(rest, target);
  }

  lemma SweepBounds(found: seq<Xref>, decode: Decoder, skip: nat, start: int, code: seq<byte>, off: nat, target: u64)
    requires skip >= 1
    ensures FoundWith([], decode, skip, start, code, 0, target) == Matching(Sweep(decode, skip, start, code, 0), target)
    ensures off >= |code| ==> FoundWith(found, decode, skip, start, code, off, target) == found
  {
  }

  // ---------- findXrefs ----------

  /** References to `target` in the range.  `skip` is 1 on x86-64 and 4 on ARM64. */
  method FindXrefs(decode: Decoder, skip: nat, start: u64, rangeSize: int, memory: seq<byte>, target: u64)
    returns (results: seq<Xref>)
    requires skip >= 1 && Bounded(decode)
    requires rangeSize > 0 ==> |memory| == rangeSize
    ensures results == if start == 0 || target == 0 || rangeSize <= 0 then []
                       else Matching(Sweep(decode, skip, start, memory, 0), target)
  {
    hide Sweep, Matching, Bounded, Offered, FoundWith;
    results := [];
    if start == 0 || target == 0 || rangeSize <= 0 {
      return;
    }
    ghost var whole := FoundWith([], decode, skip, start, memory, 0, target);
    var offset: nat := 0;
    while offset < rangeSize
      invariant whole == FoundWith(results, decode, skip, start, memory, offset, target)
      decreases rangeSize - offset
    {
      SweepTurn(results, decode, skip, start, memory, offset, target);
      var decoded := decode(Offered(memory, offset), start + offset);
      if decoded.None? {
        offset := offset + skip;
      } else {
        var insn := decoded.value;
        if insn.target == target {
          results := results + [Xref(insn.address, insn.kind, insn.size)];
        }
        offset := offset + insn.size;
      }
    }
    SweepBounds(results, decode, skip, start, memory, offset, target);
  }

  // ---------- What is swept ----------

  /** The decoder finds an instruction at `p` in the next 16 bytes, or in what is left of the range. */
  ghost predicate DecodesAt(decode: Decoder, start: int, code: seq<byte>, p: nat, insn: Insn) {
    && p < |code|
    && decode(code[p..if |code| - p < 16 then |code| else p + 16], start + p) == Some(insn)
  }

  /** The sweep visits the offsets `ps` one after another: past the instruction decoded at an offset, or `skip` bytes on
      where there is none, until the range is left. */
  ghost predicate Visits(decode: Decoder, skip: nat, start: int, code: seq<byte>, ps: seq<nat>) {
    && ps != [] && ps[|ps| - 1] >= |code|
    && forall i :: 0 <= i < |ps| - 1 ==> Follows(decode, skip, start, code, ps[i], ps[i + 1])
  }

  ghost predicate Follows(decode: Decoder, skip: nat, start: int, code: seq<byte>, p: nat, next: nat) {
    && p < |code|
    && (forall insn :: DecodesAt(decode, start, code, p, insn) ==> next == p + insn.size)
    && ((forall insn :: !DecodesAt(decode, start, code, p, insn)) ==> next == p + skip)
  }

  lemma OfferedDecodes(decode: Decoder, start: int, code: seq<byte>, p: nat)
    requires p < |code|
    ensures forall insn :: DecodesAt(decode, start, code, p, insn) <==>
              decode(Offered(code, p), start + p) == Some(insn)
  {
    assert code[p..if |code| - p < 16 then |code| else p + 16] == Offered(code, p);
  }

  /** The swept instructions are those decoded at the offsets visited. */
  lemma {:induction false} SweepVisits(decode: Decoder, skip: nat, start: int, code: seq<byte>, off: nat)
    returns (ps: seq<nat>)
    requires skip >= 1 && Bounded(decode)
    ensures Visits(decode, skip, start, code, ps) && ps[0] == off
    ensures forall insn :: insn in Sweep(decode, skip, start, code, off) <==>
              exists i :: 0 <= i < |ps| && DecodesAt(decode, start, code, ps[i], insn)
    decreases |code| - off
  {
    hide Offered, Bounded;
    if off >= |code| {
      ps := [off];
    } else {
      OfferedDecodes(decode, start, code, off);
      var d := decode(Offered(code, off), start + off);
      SizeInOffer(decode, start, code, off);
      var next := off + if d.Some? then d.value.size else skip;
      var rest := SweepVisits(decode, skip, start, code, next);
      ps := [off] + rest;
      hide Sweep, DecodesAt, Follows;
      assert forall i :: 0 < i < |ps| ==> ps[i] == rest[i - 1];
      assert Follows(decode, skip, start, code, off, next) by { FollowsTo(decode, skip, start, code, off); }
      forall i | 0 <= i < |ps| - 1
        ensures Follows(decode, skip, start, code, ps[i], ps[i + 1])
      {
        if i > 0 {
          assert Follows(decode, skip, start, code, rest[i - 1], rest[i]);
        }
      }
      SweepOneMore(decode, skip, start, code, off, next, rest);
    }
  }

  lemma SizeInOffer(decode: Decoder, start: int, code: seq<byte>, off: nat)
    requires Bounded(decode) && off < |code|
    ensures var d := decode(Offered(code, off), start + off);
            d.Some? ==> 1 <= d.value.size <= |code| - off
  {
  }

  lemma FollowsTo(decode: Decoder, skip: nat, start: int, code: seq<byte>, off: nat)
    requires off < |code|
    ensures var d := decode(Offered(code, off), start + off);
            Follows(decode, skip, start, code, off, off + if d.Some? then d.value.size else skip)
  {
    OfferedDecodes(decode, start, code, off);
    hide Offered, DecodesAt;
    var d := decode(Offered(code, off), start + off);
    if d.Some? {
      assert DecodesAt(decode, start, code, off, d.value);
    }
  }

  lemma SweepOneMore(
      decode: Decoder, skip: nat, start: int, code: seq<byte>, off: nat, next: nat, rest: seq<nat>)
    requires skip >= 1 && Bounded(decode) && off < |code|
    requires var d := decode(Offered(code, off), start + off); next == off + if d.Some? then d.value.size else skip
    requires forall insn :: insn in Sweep(decode, skip, start, code, next) <==>
               exists i :: 0 <= i < |rest| && DecodesAt(decode, start, code, rest[i], insn)
    ensures var ps := [off] + rest;
            forall insn :: insn in Sweep(decode, skip, start, code, off) <==>
              exists i :: 0 <= i < |ps| && DecodesAt(decode, start, code, ps[i], insn)
  {
    OfferedDecodes(decode, start, code, off);
    SizeInOffer(decode, start, code, off);
    var ps := [off] + rest;
    forall insn
      ensures insn in Sweep(decode, skip, start, code, off) <==>
              DecodesAt(decode, start, code, off, insn) || insn in Sweep(decode, skip, start, code, next)
    {
      hide Offered, Bounded, DecodesAt;
    }
    hide Sweep, DecodesAt, Offered;
    assert ps[0] == off && forall i :: 0 <= i < |rest| ==> rest[i] == ps[i + 1];
  }

  ghost predicate IsXref(x: Xref, insn: Insn) {
    x == Xref(insn.address, insn.kind, insn.size)
  }

  /** The references found are exactly the instructions, decoded at the offsets a sweep of the range visits, whose
      target is the one asked for; they ascend, without overlap and inside the range. */
  lemma XrefsExact(decode: Decoder, skip: nat, start: u64, memory: seq<byte>, target: u64) returns (ps: seq<nat>)
    requires skip >= 1 && Bounded(decode)
    ensures Visits(decode, skip, start, memory, ps) && ps[0] == 0
    ensures var xs := Matching(Sweep(decode, skip, start, memory, 0), target);
            && (forall x: Xref :: x in xs <==>
                  exists i, insn :: 0 <= i < |ps| && DecodesAt(decode, start, memory, ps[i], insn) &&
                    insn.target == target && IsXref(x, insn))
            && XrefsTiled(xs, start, start + |memory|)
  {
    var insns := Sweep(decode, skip, start, memory, 0);
    ps := SweepVisits(decode, skip, start, memory, 0);
    MatchingExact(insns, target);
    SweepIsTiled(decode, skip, start, memory, 0);
    MatchingTiled(insns, target, start, start + |memory|);
    hide Sweep, DecodesAt, Matching, XrefsTiled;
    forall x: Xref
      ensures x in Matching(insns, target) <==>
              exists i, insn :: 0 <= i < |ps| && DecodesAt(decode, start, memory, ps[i], insn) &&
                insn.target == target && IsXref(x, insn)
    {
      if k :| 0 <= k < |insns| && insns[k].target == target && IsXref(x, insns[k]) {
        assert insns[k] in insns;
      }
      if i, insn :| 0 <= i < |ps| && DecodesAt(decode, start, memory, ps[i], insn) && insn.target == target &&
                    IsXref(x, insn) {
        assert insn in insns;
      }
    }
  }

  lemma TiledHead(insns: seq<Insn>, lo: int, hi: int)
    requires Tiled(insns, lo, hi) && insns != []
    ensures lo <= insns[0].address <= insns[0].address + insns[0].size <= hi
    ensures Tiled(insns[1..], insns[0].address + insns[0].size, hi)
  {
    assert forall i :: 0 <= i < |insns| - 1 ==> insns[1..][i] == insns[i + 1];
  }

  /** References ascend without overlap inside [lo, hi). */
  ghost predicate XrefsTiled(xs: seq<Xref>, lo: int, hi: int) {
    && (forall i :: 0 <= i < |xs| ==> lo <= xs[i].address && xs[i].address + xs[i].size <= hi)
    && (forall i, j :: 0 <= i < j < |xs| ==> xs[i].address + xs[i].size <= xs[j].address)
  }

  lemma TiledCons(x: Xref, rest: seq<Xref>, lo: int, hi: int)
    requires lo <= x.address && x.address + x.size <= hi && XrefsTiled(rest, x.address + x.size, hi)
    ensures XrefsTiled([x] + rest, lo, hi) && XrefsTiled(rest, lo, hi)
  {
  }

  lemma {:induction false} MatchingTiled(insns: seq<Insn>, target: u64, lo: int, hi: int)
    requires Tiled(insns, lo, hi)
    ensures XrefsTiled(Matching(insns, target), lo, hi)
  {
    if insns != [] {
      hide Tiled, XrefsTiled;
      TiledHead(insns, lo, hi);
      MatchingTiled(insns[1..], target, insns[0].address + insns[0].size, hi);
      var x := Xref(insns[0].address, insns[0].kind, insns[0].size);
      TiledCons(x, Matching(insns[1..], target), lo, hi);
      assert [] + Matching(insns[1..], target) == Matching(insns[1..], target);
    }
  }

  // ---------- filterInstructions ----------

  /** The first instructions decoded from an address, at most `count`, stopping where nothing decodes.  Each
      decoding is offered 16 bytes. */
  ghost function Decoded(decode: Decoder, mem: X86Machine.Memory, addr: int, offset: int, count: nat): seq<Insn>
    decreases count
  {
    if count == 0 then []
    else
      match decode(X86Machine.Fetch(mem, addr + offset, 16), addr + offset)
      case None => []
      case Some(insn) => [insn] + Decoded(decode, mem, addr, offset + insn.size, count - 1)
  }

  ghost function Kept(insns: seq<Insn>, keep: Insn -> bool): seq<Insn> {
    if insns == [] then [] else (if keep(insns[0]) then [insns[0]] else []) + Kept(insns[1..], keep)
  }

  method FilterInstructions(
      decode: Decoder, mem: X86Machine.Memory, addr: u64, count: int, keep: Insn -> bool)
    returns (results: seq<Insn>)
    ensures results == if addr == 0 || count <= 0 then [] else Kept(Decoded(decode, mem, addr, 0, count), keep)
  {
    hide Decoded, Kept, X86Machine.Fetch;
    results := [];
    if addr == 0 || count <= 0 {
      return;
    }
    ghost var whole := Kept(Decoded(decode, mem, addr, 0, count), keep);
    var offset, decoded := 0, 0;
    while decoded < count
      invariant 0 <= decoded <= count
      invariant whole == results + Kept(Decoded(decode, mem, addr, offset, count - decoded), keep)
    {
      FilterTurn(results, decode, mem, addr, offset, count - decoded, keep);
      var one := decode(X86Machine.Fetch(mem, addr + offset, 16), addr + offset);
      if one.None? {
        break;
      }
      var insn := one.value;
      offset := offset + insn.size;
      decoded := decoded + 1;
      if keep(insn) {
        results := results + [insn];
      }
    }
    FilterTurn(results, decode, mem, addr, offset, 0, keep);
  }

  /** One turn of the loop, after what was kept so far. */
  lemma FilterTurn(
      kept: seq<Insn>, decode: Decoder, mem: X86Machine.Memory, addr: int, offset: int, left: nat, keep: Insn -> bool)
    ensures var d := decode(X86Machine.Fetch(mem, addr + offset, 16), addr + offset);
            kept + Kept(Decoded(decode, mem, addr, offset, left), keep) ==
              if left == 0 || d.None? then kept
              else
                (if keep(d.value) then kept + [d.value] else kept) +
                Kept(Decoded(decode, mem, addr, offset + d.value.size, left - 1), keep)
  {
    hide X86Machine.Fetch;
    var d := decode(X86Machine.Fetch(mem, addr + offset, 16), addr + offset);
    if left != 0 && d.Some? {
      var rest := Decoded(decode, mem, addr, offset + d.value.size, left - 1);
      hide Decoded;
      assert ([d.value] + rest)[1..] == rest;
    }
  }

  /** The decoder, given the 16 bytes of memory at `a`. */
  ghost predicate DecodesInMemory(decode: Decoder, mem: X86Machine.Memory, a: int, d: Option<Insn>) {
    decode(seq<byte>(16, i requires 0 <= i < 16 => X86Machine.Peek(mem, Wrap(a + i))), a) == d
  }

  /** Instructions decoded one right behind the other, the first at `a`, and as many as were asked for unless nothing
      decodes behind the last. */
  ghost predicate Listing(decode: Decoder, mem: X86Machine.Memory, a: int, count: nat, insns: seq<Insn>)
    decreases |insns|
  {
    && |insns| <= count
    && if insns == [] then count == 0 || DecodesInMemory(decode, mem, a, None)
       else DecodesInMemory(decode, mem, a, Some(insns[0])) &&
            Listing(decode, mem, a + insns[0].size, count - 1, insns[1..])
  }

  lemma {:induction false} DecodedExact(
      decode: Decoder, mem: X86Machine.Memory, addr: int, offset: int, count: nat)
    ensures Listing(decode, mem, addr + offset, count, Decoded(decode, mem, addr, offset, count))
    decreases count
  {
    var a := addr + offset;
    if count != 0 {
      assert X86Machine.Fetch(mem, a, 16) ==
               seq<byte>(16, i requires 0 <= i < 16 => X86Machine.Peek(mem, Wrap(a + i)));
      var d := decode(X86Machine.Fetch(mem, a, 16), a);
      if d.Some? {
        DecodedExact(decode, mem, addr, offset + d.value.size, count - 1);
        var rest := Decoded(decode, mem, addr, offset + d.value.size, count - 1);
        assert ([d.value] + rest)[1..] == rest;
      }
    }
  }

  /** The positions of the accepted instructions, ascending. */
  ghost predicate Accepted(insns: seq<Insn>, keep: Insn -> bool, ks: seq<nat>) {
    && (forall i, j :: 0 <= i < j < |ks| ==> ks[i] < ks[j])
    && forall k: nat :: k in ks <==> k < |insns| && keep(insns[k])
  }

  /** The result is what the filter accepts of such a listing: the accepted instructions, in their order. */
  lemma FilteredExact(decode: Decoder, mem: X86Machine.Memory, addr: u64, count: nat, keep: Insn -> bool)
    returns (insns: seq<Insn>, ks: seq<nat>)
    ensures Listing(decode, mem, addr, count, insns) && Accepted(insns, keep, ks)
    ensures Picks(Kept(Decoded(decode, mem, addr, 0, count), keep), insns, ks)
  {
    insns := Decoded(decode, mem, addr, 0, count);
    DecodedExact(decode, mem, addr, 0, count);
    ks := KeptExact(insns, keep);
  }

  function Shifted(ks: seq<nat>): seq<nat> {
    seq(|ks|, j requires 0 <= j < |ks| => ks[j] + 1)
  }

  lemma ShiftedHas(ks: seq<nat>, k: nat)
    ensures k in Shifted(ks) <==> k > 0 && k - 1 in ks
  {
    if k > 0 && k - 1 in ks {
      var j :| 0 <= j < |ks| && ks[j] == k - 1;
      assert Shifted(ks)[j] == k;
    }
  }

  lemma AcceptedAfter(insns: seq<Insn>, keep: Insn -> bool, rest: seq<nat>)
    requires insns != [] && Accepted(insns[1..], keep, rest)
    ensures Accepted(insns, keep, (if keep(insns[0]) then [0] else []) + Shifted(rest))
  {
    var ks := (if keep(insns[0]) then [0] else []) + Shifted(rest);
    forall k: nat
      ensures k in ks <==> k < |insns| && keep(insns[k])
    {
      ShiftedHas(rest, k);
      if 0 < k < |insns| {
        assert insns[1..][k - 1] == insns[k];
      }
    }
  }

  lemma {:induction false} KeptExact(insns: seq<Insn>, keep: Insn -> bool) returns (ks: seq<nat>)
    ensures Accepted(insns, keep, ks) && Picks(Kept(insns, keep), insns, ks)
    decreases |insns|
  {
    if insns == [] {
      ks := [];
    } else {
      var rest := KeptExact(insns[1..], keep);
      ks := (if keep(insns[0]) then [0] else []) + Shifted(rest);
      hide Accepted, Picks;
      AcceptedAfter(insns, keep, rest);
      PicksAfter(Kept(insns[1..], keep), insns, rest, keep(insns[0]));
    }
  }

  /** The elements at the given positions. */
  ghost predicate Picks(kept: seq<Insn>, insns: seq<Insn>, ks: seq<nat>) {
    |kept| == |ks| && forall j :: 0 <= j < |ks| ==> ks[j] < |insns| && kept[j] == insns[ks[j]]
  }

  lemma PicksAfter(kept: seq<Insn>, insns: seq<Insn>, rest: seq<nat>, first: bool)
    requires insns != [] && Picks(kept, insns[1..], rest)
    ensures Picks((if first then [insns[0]] else []) + kept, insns, (if first then [0] else []) + Shifted(rest))
  {
    var ks := (if first then [0] else []) + Shifted(rest);
    var all := (if first then [insns[0]] else []) + kept;
    var n := |ks| - |rest|;
    forall j | 0 <= j < |ks|
      ensures ks[j] < |insns| && all[j] == insns[ks[j]]
    {
      if j >= n {
        assert ks[j] == rest[j - n] + 1 && all[j] == kept[j - n];
        assert insns[1..][rest[j - n]] == insns[ks[j]];
      }
    }
  }
}
