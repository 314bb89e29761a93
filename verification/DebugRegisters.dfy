/** Packing of the debug control register DR7 and of the slot bitmask (native_hw_breakpoint.cc; layout of the
    Intel SDM Volume 3B, "Debug Control Register (DR7)"). */
module DebugRegisters {
  import opened Words

  const SLOTS := 4

  datatype WatchKind = Execute | Write | ReadWrite

  // ---------- Words as bits ----------

  /** A 64-bit word, bit 0 first. */
  type Word = w: seq<bool> | |w| == 64 witness seq(64, _ => false)

  function BitOr(x: Word, y: Word): Word {
    seq(64, i requires 0 <= i < 64 => x[i] || y[i])
  }

  function BitAnd(x: Word, y: Word): Word {
    seq(64, i requires 0 <= i < 64 => x[i] && y[i])
  }

  function BitNot(x: Word): Word {
    seq(64, i requires 0 <= i < 64 => !x[i])
  }

  function ShiftLeft(x: Word, n: nat): Word {
    seq(64, i requires 0 <= i < 64 => i >= n && x[i - n])
  }

  /** The word of a number below 4. */
  function Small(v: nat): Word
    requires v < 4
  {
    seq(64, i requires 0 <= i < 64 => (i == 0 && v % 2 == 1) || (i == 1 && v / 2 == 1))
  }

  predicate IsZero(x: Word) {
    forall i :: 0 <= i < 64 ==> !x[i]
  }

  // ---------- The architecture's reading of DR7 ----------

  /** Local enable bits L0-L3. */
  predicate IsEnabled(dr7: Word, slot: nat)
    requires slot < SLOTS
  {
    dr7[2 * slot]
  }

  function TwoBits(w: Word, at: nat): nat
    requires at < 63
  {
    (if w[at] then 1 else 0) + (if w[at + 1] then 2 else 0)
  }

  /** An access to memory, as a debug register sees it. */
  datatype Access = Fetch | DataRead | DataWrite

  /** What a field R/W0-R/W3 traps on: 0 instruction execution, 1 data writes, 3 data reads and writes. */
  predicate TrapsOn(rw: nat, a: Access) {
    match a
    case Fetch => rw == 0
    case DataWrite => rw == 1 || rw == 3
    case DataRead => rw == 3
  }

  /** The accesses each kind of breakpoint is for. */
  predicate Wants(kind: WatchKind, a: Access) {
    match kind
    case Execute => a == Fetch
    case Write => a == DataWrite
    case ReadWrite => a == DataRead || a == DataWrite
  }

  /** Fields R/W0-R/W3. */
  function RwField(dr7: Word, slot: nat): nat
    requires slot < SLOTS
  {
    TwoBits(dr7, 16 + 4 * slot)
  }

  /** Fields LEN0-LEN3. */
  function LenField(dr7: Word, slot: nat): nat
    requires slot < SLOTS
  {
    TwoBits(dr7, 18 + 4 * slot)
  }

  /** Bytes watched for a LEN encoding. */
  function LenBytes(field: nat): int {
    if field == 0 then 1 else if field == 1 then 2 else if field == 3 then 4 else 8
  }

  // ---------- What the engine writes ----------

  function TypeValue(kind: WatchKind): (v: nat)
    ensures v < 4
    ensures forall a :: TrapsOn(v, a) <==> Wants(kind, a)
  {
    match kind
    case Execute => 0
    case Write => 1
    case ReadWrite => 3
  }

  function LenValue(size: int): (v: nat)
    ensures v < 4
    ensures size in {1, 2, 4, 8} <==> LenBytes(v) == size
  {
    match size
    case 1 => 0
    case 2 => 1
    case 4 => 3
    case 8 => 2
    case _ => 0
  }

  /** The control word after a set function. */
  function Packed(dr7: Word, slot: nat, kind: WatchKind, size: int): Word
    requires slot < SLOTS
  {
    var enabled := BitOr(dr7, ShiftLeft(Small(1), slot * 2));
    var untyped := BitAnd(enabled, BitNot(ShiftLeft(Small(3), 16 + slot * 4)));
    var typed := BitOr(untyped, ShiftLeft(Small(TypeValue(kind)), 16 + slot * 4));
    var unsized := BitAnd(typed, BitNot(ShiftLeft(Small(3), 18 + slot * 4)));
    BitOr(unsized, ShiftLeft(Small(LenValue(size)), 18 + slot * 4))
  }

  /** The control word after a clear function. */
  function Unpacked(dr7: Word, slot: nat): Word
    requires slot < SLOTS
  {
    BitAnd(dr7, BitNot(ShiftLeft(Small(1), slot * 2)))
  }

  /** Bits of the control word that belong to a slot. */
  predicate InSlot(slot: nat, k: int) {
    k == 2 * slot || 16 + 4 * slot <= k < 20 + 4 * slot
  }

  lemma TwoBitsOfSmall(w: Word, at: nat, v: nat)
    requires v < 4 && at < 63 && w[at] == Small(v)[0] && w[at + 1] == Small(v)[1]
    ensures TwoBits(w, at) == v
  {
  }

  /** Setting a slot enables it, makes it trap on exactly the accesses its kind is for, gives it the length, and changes
      no bit outside the slot. */
  lemma PackedFields(dr7: Word, slot: nat, kind: WatchKind, size: int)
    requires slot < SLOTS
    ensures var p := Packed(dr7, slot, kind, size);
            && IsEnabled(p, slot) && RwField(p, slot) == TypeValue(kind) && LenField(p, slot) == LenValue(size)
            && (forall a :: TrapsOn(RwField(p, slot), a) <==> Wants(kind, a))
            && forall k :: 0 <= k < 64 && !InSlot(slot, k) ==> p[k] == dr7[k]
  {
    hide Packed, Small;
    var p := Packed(dr7, slot, kind, size);
    PackedBits(dr7, slot, kind, size);
    TwoBitsOfSmall(p, 16 + 4 * slot, TypeValue(kind));
    TwoBitsOfSmall(p, 18 + 4 * slot, LenValue(size));
  }

  lemma PackedBits(dr7: Word, slot: nat, kind: WatchKind, size: int)
    requires slot < SLOTS
    ensures var p := Packed(dr7, slot, kind, size);
            && p[2 * slot]
            && p[16 + 4 * slot] == Small(TypeValue(kind))[0] && p[17 + 4 * slot] == Small(TypeValue(kind))[1]
            && p[18 + 4 * slot] == Small(LenValue(size))[0] && p[19 + 4 * slot] == Small(LenValue(size))[1]
            && forall k :: 0 <= k < 64 && !InSlot(slot, k) ==> p[k] == dr7[k]
  {
    hide TypeValue, LenValue;
  }

  /** Clearing a slot disables it and changes no other bit. */
  lemma UnpackedFields(dr7: Word, slot: nat)
    requires slot < SLOTS
    ensures Unpacked(dr7, slot) == dr7[2 * slot := false]
  {
  }

  /** The processor wants LEN 0 for instruction execution; what the engine writes is 0 exactly for sizes that are not 2,
      4 or 8. */
  lemma ExecuteLengthIsZeroIff(dr7: Word, slot: nat, size: int)
    requires slot < SLOTS
    ensures LenField(Packed(dr7, slot, Execute, size), slot) == 0 <==> size !in {2, 4, 8}
  {
    PackedFields(dr7, slot, Execute, size);
    hide Packed, LenField;
  }

  /** An execute breakpoint of size 4 gets LEN 3. */
  lemma ExecuteLengthExample(dr7: Word)
    ensures LenField(Packed(dr7, 0, Execute, 4), 0) == 3
  {
    PackedFields(dr7, 0, Execute, 4);
    hide Packed, LenField;
  }

  ghost predicate SameFields(x: Word, y: Word, k: nat)
    requires k < SLOTS
  {
    (IsEnabled(x, k) <==> IsEnabled(y, k)) && RwField(x, k) == RwField(y, k) && LenField(x, k) == LenField(y, k)
  }

  /** Setting or clearing one slot disturbs no field of another. */
  lemma OtherSlotsKept(dr7: Word, slot: nat, kind: WatchKind, size: int, other: nat)
    requires slot < SLOTS && other < SLOTS && slot != other
    ensures SameFields(Packed(dr7, slot, kind, size), dr7, other) && SameFields(Unpacked(dr7, slot), dr7, other)
  {
    PackedFields(dr7, slot, kind, size);
    UnpackedFields(dr7, slot);
    hide Packed, Unpacked;
  }

  // ---------- The slot bitmask ----------

  function MarkUsed(used: Word, slot: nat): Word {
    BitOr(used, ShiftLeft(Small(1), slot))
  }

  function MarkFree(used: Word, slot: nat): Word {
    BitAnd(used, BitNot(ShiftLeft(Small(1), slot)))
  }

  predicate TestSlot(used: Word, slot: nat) {
    !IsZero(BitAnd(used, ShiftLeft(Small(1), slot)))
  }

  lemma MarkBits(used: Word, slot: nat)
    requires slot < SLOTS
    ensures MarkUsed(used, slot) == used[slot := true] && MarkFree(used, slot) == used[slot := false]
    ensures TestSlot(used, slot) == used[slot]
  {
    var m := BitAnd(used, ShiftLeft(Small(1), slot));
    assert m[slot] == used[slot];
  }

  /** The lowest free slot, or -1. */
  method FindFreeSlot(used: Word) returns (slot: int)
    ensures -1 <= slot < SLOTS
    ensures slot >= 0 ==> !used[slot] && forall k :: 0 <= k < slot ==> used[k]
    ensures slot < 0 ==> forall k :: 0 <= k < SLOTS ==> used[k]
  {
    for i := 0 to 4
      invariant forall k :: 0 <= k < i ==> used[k]
    {
      MarkBits(used, i);
      if !TestSlot(used, i) {
        return i;
      }
    }
    return -1;
  }
}
