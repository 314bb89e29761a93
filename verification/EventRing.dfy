/** The ring of pending access events as the data structure it is for code that is not interrupted: a queue of
    256 slots under two free-running 32-bit indices.  PendingRing treats the interrupted case. */
module EventRing {
  import opened Words
  import PendingRing

  /** What a signal handler records; the access type is kept as a code. */
  datatype Event = Event(monitorId: nat, faultAddress: u64, pageBase: nat, rangeIndex: nat, accessTypeCode: nat)

  datatype Slot = Slot(ready: bool, event: Event)

  const CAPACITY := PendingRing.MAX_PENDING

  /** The slot of the i-th event after read index `r`. */
  function At(r: nat, i: nat): (k: nat)
    ensures k < CAPACITY
  {
    (r + i) % CAPACITY
  }

  function Distance(w: u32, r: u32): nat {
    (w - r) % TWO_32
  }

  /** The slots keep their meaning when the read index wraps, because 256 divides 2^32. */
  lemma AdvanceShifts(r: u32, i: nat)
    ensures At(PendingRing.Next(r), i) == At(r, i + 1)
  {
    assert (r + 1 + i) % CAPACITY == (r + (i + 1)) % CAPACITY;
    if r + 1 == TWO_32 {
      assert TWO_32 == CAPACITY * 0x100_0000;
      assert (TWO_32 + i) % CAPACITY == i % CAPACITY;
    }
  }

  lemma DistanceCases(w: u32, r: u32)
    ensures Distance(w, r) == if w >= r then w - r else w - r + TWO_32
  {
    if w >= r {
      DivUnique(w - r, TWO_32, 0, w - r);
    } else {
      DivUnique(w - r, TWO_32, -1, w - r + TWO_32);
    }
  }

  lemma SlotAtDistance(w: u32, r: u32)
    ensures w % CAPACITY == At(r, Distance(w, r))
  {
    hide Distance;
    DistanceCases(w, r);
    if w < r {
      SameRemainder(w, 0x100_0000);
      assert r + Distance(w, r) == w + CAPACITY * 0x100_0000;
    }
  }

  lemma WriteSlot(w: u32, r: u32)
    ensures w % CAPACITY == At(r, Distance(w, r))
    ensures Distance(w, r) < TWO_32 - 1 ==> Distance(PendingRing.Next(w), r) == Distance(w, r) + 1
    ensures w != r ==> Distance(w, r) > 0 && Distance(w, PendingRing.Next(r)) == Distance(w, r) - 1
    ensures w == r <==> Distance(w, r) == 0
  {
    hide Distance, At;
    SlotAtDistance(w, r);
    DistanceCases(w, r);
    DistanceCases(PendingRing.Next(w), r);
    DistanceCases(w, PendingRing.Next(r));
  }

  lemma DistinctSlots(r: nat, i: nat, j: nat)
    requires i < CAPACITY && j < CAPACITY && At(r, i) == At(r, j)
    ensures i == j
  {
    PendingRing.CloseEqual(r + i, r + j);
  }

  function Queue(slots: seq<Slot>, r: u32, n: nat): (q: seq<Event>)
    requires |slots| == CAPACITY
    ensures |q| == n && forall i :: 0 <= i < n ==> q[i] == slots[At(r, i)].event
  {
    seq<Event>(n, i requires 0 <= i < n => slots[At(r, i)].event)
  }

  class PendingEvents {
    const entries: array<Slot>
    var writeIdx: u32
    var readIdx: u32

    /** At most 256 events outstanding, and exactly their slots are marked ready. */
    ghost predicate Valid()
      reads this, entries
    {
      && entries.Length == CAPACITY && Distance(writeIdx, readIdx) <= CAPACITY
      && (forall i: nat :: i < CAPACITY ==> (entries[At(readIdx, i)].ready <==> i < Distance(writeIdx, readIdx)))
    }

    /** The outstanding events, oldest first. */
    ghost function Pending(): (p: seq<Event>)
      requires Valid()
      reads this, entries
      ensures |p| == Distance(writeIdx, readIdx)
    {
      Queue(entries[..], readIdx, Distance(writeIdx, readIdx))
    }

    constructor ()
      ensures Valid() && Pending() == [] && fresh(entries)
    {
      entries := new Slot[256](_ => Slot(false, Event(0, 0, 0, 0, 0)));
      writeIdx, readIdx := 0, 0;
    }

    /** The recording half of the fault handler: claim a slot, write the fields, publish, whatever the slot held.
        While there is room this appends to the queue. */
    method Record(event: Event)
      requires entries.Length == CAPACITY
      modifies this`writeIdx, entries
      ensures writeIdx == PendingRing.Next(old(writeIdx))
      ensures entries[..] == old(entries[..])[old(writeIdx) % CAPACITY := Slot(true, event)]
      ensures old(Valid() && |Pending()| < CAPACITY) ==> Valid() && Pending() == old(Pending()) + [event]
    {
      var idx := writeIdx % CAPACITY;
      WriteSlot(writeIdx, readIdx);
      ghost var room := Valid() && |Pending()| < CAPACITY;
      writeIdx := PendingRing.Next(writeIdx);
      entries[idx] := Slot(true, event);
      if room {
        forall i: nat | i < CAPACITY
          ensures At(readIdx, i) == idx ==> i == old(Distance(writeIdx, readIdx))
        {
          if At(readIdx, i) == idx {
            DistinctSlots(readIdx, i, old(Distance(writeIdx, readIdx)));
          }
        }
        assert Pending() == old(Pending()) + [event];
      }
    }

    /** The oldest event, if it is published. */
    method Front() returns (ready: bool, event: Event)
      requires Valid()
      ensures ready <==> Pending() != []
      ensures ready ==> event == Pending()[0]
    {
      WriteSlot(writeIdx, readIdx);
      event := entries[readIdx % CAPACITY].event;
      assert readIdx % CAPACITY == At(readIdx, 0);
      if readIdx == writeIdx {
        return false, event;
      }
      return entries[readIdx % CAPACITY].ready, event;
    }

    /** Hands the oldest slot back. */
    method Release()
      requires Valid() && Pending() != []
      modifies this`readIdx, entries
      ensures Valid() && Pending() == old(Pending())[1..]
    {
      var idx := readIdx % CAPACITY;
      WriteSlot(writeIdx, readIdx);
      entries[idx] := entries[idx].(ready := false);
      assert idx == At(readIdx, 0);
      forall i: nat | i < CAPACITY
        ensures At(readIdx, i) == idx ==> i == 0
      {
        if At(readIdx, i) == idx {
          DistinctSlots(readIdx, i, 0);
        }
      }
      readIdx := PendingRing.Next(readIdx);
      forall i: nat | i < CAPACITY
        ensures At(readIdx, i) == At(old(readIdx), i + 1)
      {
        AdvanceShifts(old(readIdx), i);
      }
      assert At(old(readIdx), CAPACITY) == At(old(readIdx), 0);
      assert Pending() == old(Pending())[1..];
    }
  }

  // ---------- The queue and the interrupted ring ----------

  /** Slot of the i-th event after claim number `n`, by its 32-bit remainder. */
  lemma SlotOfClaim(n: nat, i: nat)
    ensures At(PendingRing.Low32(n), i) == PendingRing.Index(n + i)
  {
    var q := n / TWO_32;
    assert n == PendingRing.Low32(n) + CAPACITY * (0x100_0000 * q);
    SameRemainder(PendingRing.Low32(n) + i, 0x100_0000 * q);
  }

  lemma SameRemainder(a: nat, k: nat)
    ensures (a + CAPACITY * k) % CAPACITY == a % CAPACITY
  {
    DivUnique(a + CAPACITY * k, CAPACITY, a / CAPACITY + k, a % CAPACITY);
  }

  lemma SmallDistance(a: nat, b: nat)
    requires b <= a <= b + CAPACITY
    ensures Distance(PendingRing.Low32(a), PendingRing.Low32(b)) == a - b
  {
    assert a == TWO_32 * (a / TWO_32) + a % TWO_32 && b == TWO_32 * (b / TWO_32) + b % TWO_32;
    DivUnique(PendingRing.Low32(a) - PendingRing.Low32(b), TWO_32, b / TWO_32 - a / TWO_32, a - b);
  }

  /** Whenever no handler is in progress and nothing is being drained, the interrupted ring is the queue above: the
      slots marked ready are those of the outstanding claims, oldest first, each with its own fields. */
  lemma QuietRingIsQueue(s: PendingRing.Ring)
    requires PendingRing.Inv(s) && s.consumer.Idle? && s.producers == map[]
    ensures |s.slots| == CAPACITY && |s.delivered| <= |s.claims|
    ensures Distance(s.writeIdx, s.readIdx) == |s.claims| - |s.delivered| <= CAPACITY
    ensures forall i: nat :: i < CAPACITY ==> (s.slots[At(s.readIdx, i)].ready <==> i < Distance(s.writeIdx, s.readIdx))
    ensures forall i: nat :: i < |s.claims| - |s.delivered| ==>
              s.slots[At(s.readIdx, i)].fields == s.claims[|s.delivered| + i]
  {
    var n := |s.delivered|;
    SmallDistance(|s.claims|, n);
    forall i: nat | i < CAPACITY
      ensures s.slots[At(s.readIdx, i)].ready <==> i < |s.claims| - n
      ensures i < |s.claims| - n ==> s.slots[At(s.readIdx, i)].fields == s.claims[n + i]
    {
      SlotOfClaim(n, i);
      if n + i < |s.claims| {
        assert PendingRing.ClaimOk(s, n + i);
      } else {
        assert !PendingRing.SlotOf(s, n + i).ready;
      }
    }
  }
}
