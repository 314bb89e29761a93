/**
  The lock-free ring of pending access events (native_memory_access_monitor.cc), as a system of atomic steps:
  any number of producers in signal handlers, one consumer draining.  Besides the shared variables and the
  locals of every thread, a state records the events claimed and delivered so far.
 */
module PendingRing {
  import opened Results
  import opened Words

  const MAX_PENDING := 256
  const FIELDS := 5

  /** monitorId, faultAddress, pageBase, rangeIndex, accessTypeCode. */
  type Event = e: seq<int> | |e| == FIELDS witness [0, 0, 0, 0, 0]

  datatype Slot = Slot(ready: bool, fields: Event)

  /** A signal handler between its claim and its publication; `number` counts claims from the start. */
  datatype Producer = Producer(number: nat, idx: nat, event: Event, written: nat)

  datatype Consumer =
    | Idle
    | Loaded(r: u32)
    | Looping(r: u32, w: u32)
    | Reading(r: u32, w: u32, got: seq<int>)
    | Called(r: u32, w: u32)
    | Cleared(r: u32, w: u32)

  datatype Ring = Ring(
    writeIdx: u32, readIdx: u32, slots: seq<Slot>, producers: map<nat, Producer>, consumer: Consumer,
    claims: seq<Event>, delivered: seq<Event>)

  datatype Action =
    | Claim(thread: nat, event: Event)
    | WriteField(thread: nat)
    | Publish(thread: nat)
    | LoadReadIdx
    | LoadWriteIdx
    | TestReady
    | ReadField
    | ClearReady
    | Advance

  function Init(): Ring {
    Ring(0, 0, seq(MAX_PENDING, _ => Slot(false, [0, 0, 0, 0, 0])), map[], Idle, [], [])
  }

  function Next(x: u32): u32 {
    (x + 1) % TWO_32
  }

  ghost predicate WellTyped(s: Ring) {
    && |s.slots| == MAX_PENDING
    && (forall t :: t in s.producers ==> s.producers[t].idx < MAX_PENDING && s.producers[t].written <= FIELDS)
    && (s.consumer.Reading? ==> |s.consumer.got| < FIELDS)
  }

  /** One atomic step, or None where the thread is not at that step. */
  ghost function Apply(s: Ring, a: Action): Option<Ring>
    requires WellTyped(s)
  {
    match a
    case Claim(t, e) =>
      if t in s.producers then None
      else
        var p := Producer(|s.claims|, s.writeIdx % MAX_PENDING, e, 0);
        Some(s.(writeIdx := Next(s.writeIdx), producers := s.producers[t := p], claims := s.claims + [e]))
    case WriteField(t) =>
      if t !in s.producers || s.producers[t].written == FIELDS then None
      else
        var p := s.producers[t];
        var slot := s.slots[p.idx];
        Some(s.(slots := s.slots[p.idx := slot.(fields := slot.fields[p.written := p.event[p.written]])],
                producers := s.producers[t := p.(written := p.written + 1)]))
    case Publish(t) =>
      if t !in s.producers || s.producers[t].written != FIELDS then None
      else
        var p := s.producers[t];
        Some(s.(slots := s.slots[p.idx := s.slots[p.idx].(ready := true)], producers := s.producers - {t}))
    case LoadReadIdx =>
      if s.consumer.Idle? then Some(s.(consumer := Loaded(s.readIdx))) else None
    case LoadWriteIdx =>
      if s.consumer.Loaded? then Some(s.(consumer := Looping(s.consumer.r, s.writeIdx))) else None
    case TestReady =>
      if !s.consumer.Looping? then None
      else
        var r, w := s.consumer.r, s.consumer.w;
        if r != w && s.slots[r % MAX_PENDING].ready then Some(s.(consumer := Reading(r, w, [])))
        else Some(s.(consumer := Idle))
    case ReadField =>
      if !s.consumer.Reading? then None
      else
        var c := s.consumer;
        var got := c.got + [s.slots[c.r % MAX_PENDING].fields[|c.got|]];
        if |got| < FIELDS then Some(s.(consumer := c.(got := got)))
        else Some(s.(consumer := Called(c.r, c.w), delivered := s.delivered + [got]))
    case ClearReady =>
      if !s.consumer.Called? then None
      else
        var c := s.consumer;
        var k := c.r % MAX_PENDING;
        Some(s.(slots := s.slots[k := s.slots[k].(ready := false)], consumer := Cleared(c.r, c.w)))
    case Advance =>
      if !s.consumer.Cleared? then None
      else
        var c := s.consumer;
        Some(s.(readIdx := Next(c.r), consumer := Looping(Next(c.r), c.w)))
  }

  // ---------- The invariant ----------

  /** Claims whose slot has been handed back by clearing its flag. */
  function Released(s: Ring): int {
    if s.consumer.Called? then |s.delivered| - 1 else |s.delivered|
  }

  function Outstanding(s: Ring): int {
    |s.claims| - Released(s)
  }

  /** A claim is only made while fewer than 256 are outstanding. */
  predicate Guarded(s: Ring, a: Action) {
    a.Claim? ==> Outstanding(s) < MAX_PENDING
  }

  /** Slot index of a claim number, or of its 32-bit remainder. */
  function Index(n: nat): (k: nat)
    ensures k < MAX_PENDING
  {
    n % MAX_PENDING
  }

  function Low32(n: nat): u32 {
    n % TWO_32
  }

  function SlotOf(s: Ring, n: nat): Slot
    requires |s.slots| == MAX_PENDING
  {
    s.slots[Index(n)]
  }

  ghost predicate InProgress(s: Ring, n: int) {
    exists t :: t in s.producers && s.producers[t].number == n
  }

  /** The claim at which the consumer stands; its 32-bit index is `r`. */
  function Position(s: Ring): int {
    if s.consumer.Called? || s.consumer.Cleared? then |s.delivered| - 1 else |s.delivered|
  }

  /** The unbounded count of claims that the consumer's snapshot `w` stands for. */
  function Seen(claimed: nat, w: u32): int {
    claimed - (claimed - w) % TWO_32
  }

  ghost predicate ProducerOk(s: Ring, p: Producer)
    requires |s.slots| == MAX_PENDING
  {
    && |s.delivered| <= p.number < |s.claims|
    && p.idx == Index(p.number) && p.event == s.claims[p.number] && p.written <= FIELDS
    && !SlotOf(s, p.number).ready
    && SlotOf(s, p.number).fields[..p.written] == p.event[..p.written]
  }

  /** An outstanding claim is being written, or its slot is published with its own fields. */
  ghost predicate ClaimOk(s: Ring, n: nat)
    requires |s.slots| == MAX_PENDING && n < |s.claims|
  {
    InProgress(s, n) || (SlotOf(s, n).ready && SlotOf(s, n).fields == s.claims[n])
  }

  ghost predicate ConsumerOk(s: Ring)
    requires |s.slots| == MAX_PENDING
  {
    var c := s.consumer;
    && (!c.Idle? ==> 0 <= Position(s) && c.r == Low32(Position(s)))
    && (!c.Idle? && !c.Loaded? ==> Position(s) <= Seen(|s.claims|, c.w))
    && (c.Reading? || c.Called? || c.Cleared? ==> Position(s) < Seen(|s.claims|, c.w))
    && (c.Reading? ==>
          |c.got| < FIELDS && |s.delivered| < |s.claims| && !InProgress(s, |s.delivered|) &&
          c.got == s.claims[|s.delivered|][..|c.got|])
    && (c.Called? ==> |s.delivered| > 0 && !InProgress(s, |s.delivered| - 1))
  }

  ghost predicate Counters(s: Ring) {
    && |s.slots| == MAX_PENDING
    && s.writeIdx == Low32(|s.claims|)
    && 0 <= Position(s) && s.readIdx == Low32(Position(s))
    && |s.delivered| <= |s.claims| && 0 <= Outstanding(s) <= MAX_PENDING
    && s.delivered == s.claims[..|s.delivered|]
  }

  ghost predicate ProducersOk(s: Ring)
    requires |s.slots| == MAX_PENDING
  {
    && (forall t :: t in s.producers ==> ProducerOk(s, s.producers[t]))
    && (forall t, u :: t in s.producers && u in s.producers && t != u ==>
          s.producers[t].number != s.producers[u].number)
  }

  ghost predicate ClaimsOk(s: Ring)
    requires |s.slots| == MAX_PENDING
  {
    forall n: nat :: Released(s) <= n < |s.claims| ==> ClaimOk(s, n)
  }

  ghost predicate FreeOk(s: Ring)
    requires |s.slots| == MAX_PENDING
  {
    forall n: nat :: |s.claims| <= n < Released(s) + MAX_PENDING ==> !SlotOf(s, n).ready
  }

  ghost predicate Inv(s: Ring) {
    Counters(s) && ProducersOk(s) && ClaimsOk(s) && FreeOk(s) && ConsumerOk(s)
  }

  lemma InvTyped(s: Ring)
    requires Inv(s)
    ensures WellTyped(s)
  {
    forall t | t in s.producers
      ensures s.producers[t].idx < MAX_PENDING && s.producers[t].written <= FIELDS
    {
      assert ProducerOk(s, s.producers[t]);
    }
  }

  lemma InitInv()
    ensures Inv(Init())
  {
  }

  /** Claims less than 256 apart have different slots. */
  lemma SlotsDistinct(m: nat, n: nat)
    requires m < n < m + MAX_PENDING
    ensures Index(m) != Index(n)
  {
  }

  /** A slot is handed out again 256 claims later. */
  lemma SlotsRecur(m: nat)
    ensures Index(m + MAX_PENDING) == Index(m)
  {
  }

  /** The slot index survives the wrap of the 32-bit counter, because 256 divides 2^32. */
  lemma WrapKeepsSlot(n: nat)
    ensures Low32(n) % MAX_PENDING == Index(n) && Index(Low32(n)) == Index(n)
  {
  }

  lemma NextLow32(n: nat)
    ensures Next(Low32(n)) == Low32(n + 1)
  {
  }

  /** A snapshot taken now stands for the current count, and keeps standing for it as claims are added. */
  lemma SeenNow(n: nat)
    ensures Seen(n, Low32(n)) == n
  {
    assert (n - n % TWO_32) % TWO_32 == 0;
  }

  lemma SeenAfterClaim(n: nat, w: u32)
    requires n - Seen(n, w) < MAX_PENDING
    ensures Seen(n + 1, w) == Seen(n, w) <= n
  {
    var lag := (n - w) % TWO_32;
    assert (n + 1 - w) % TWO_32 == lag + 1 by {
      var q := (n - w) / TWO_32;
      DivUnique(n + 1 - w, TWO_32, q, lag + 1);
    }
  }

  lemma SeenIs(n: nat, w: u32)
    ensures Seen(n, w) <= n && (Seen(n, w) >= 0 ==> Low32(Seen(n, w)) == w)
  {
    var q := (n - w) / TWO_32;
    assert n - (n - w) % TWO_32 == w + q * TWO_32;
    DivUnique(w + q * TWO_32, TWO_32, q, w);
  }

  lemma CloseEqual(a: nat, b: nat)
    requires a <= b < a + TWO_32
    ensures Low32(a) == Low32(b) <==> a == b
  {
  }

  /** With at most 256 claims outstanding, the 32-bit test `readIdx != writeIdx` compares the true counts. */
  lemma IndexTestIsExact(s: Ring)
    requires Inv(s) && s.consumer.Looping?
    ensures s.consumer.r == s.consumer.w <==> Position(s) == Seen(|s.claims|, s.consumer.w)
  {
    SeenIs(|s.claims|, s.consumer.w);
    CloseEqual(Position(s), Seen(|s.claims|, s.consumer.w));
  }

  // ---------- Every step keeps the invariant ----------

  /** Progress of a claim depends only on the numbers in flight. */
  lemma ProgressKept(s: Ring, s': Ring)
    requires forall t :: t in s.producers ==> t in s'.producers && s'.producers[t].number == s.producers[t].number
    ensures forall m :: InProgress(s, m) ==> InProgress(s', m)
  {
    forall m | InProgress(s, m)
      ensures InProgress(s', m)
    {
      var t :| t in s.producers && s.producers[t].number == m;
      assert s'.producers[t].number == m;
    }
  }

  /** Two outstanding claims have different slots. */
  lemma ApartSlots(s: Ring, m: nat, n: nat)
    requires Counters(s) && Released(s) <= m < |s.claims| && Released(s) <= n < |s.claims| && m != n
    ensures Index(m) != Index(n)
  {
    if m < n {
      SlotsDistinct(m, n);
    } else {
      SlotsDistinct(n, m);
    }
  }

  lemma ClaimKeeps(s: Ring, t: nat, e: Event)
    requires Inv(s) && WellTyped(s) && Guarded(s, Claim(t, e)) && Apply(s, Claim(t, e)).Some?
    ensures Inv(Apply(s, Claim(t, e)).value)
  {
    hide Index, Low32, Seen, ConsumerOk, ClaimsOk, FreeOk, ProducersOk;
    var n := |s.claims|;
    var s' := Apply(s, Claim(t, e)).value;
    WrapKeepsSlot(n);
    NextLow32(n);
    assert s'.claims[..|s'.delivered|] == s.claims[..|s.delivered|];
    ClaimKeepsProducers(s, t, e);
    ClaimKeepsSlots(s, t, e);
    ClaimKeepsConsumer(s, t, e);
  }

  lemma ClaimKeepsSlots(s: Ring, t: nat, e: Event)
    requires Inv(s) && WellTyped(s) && Guarded(s, Claim(t, e)) && Apply(s, Claim(t, e)).Some?
    ensures ClaimsOk(Apply(s, Claim(t, e)).value) && FreeOk(Apply(s, Claim(t, e)).value)
  {
    hide Index, Low32, Seen, ConsumerOk, ProducersOk;
    var n := |s.claims|;
    var s' := Apply(s, Claim(t, e)).value;
    ProgressKept(s, s');
    assert s'.producers[t].number == n;
    assert forall m: nat :: m < n ==> s'.claims[m] == s.claims[m];
    forall m: nat | Released(s') <= m < |s'.claims|
      ensures ClaimOk(s', m)
    {
      if m < n {
        assert ClaimOk(s, m);
      }
    }
    forall m: nat | |s'.claims| <= m < Released(s') + MAX_PENDING
      ensures !SlotOf(s', m).ready
    {
      assert !SlotOf(s, m).ready;
    }
  }

  lemma ClaimKeepsProducers(s: Ring, t: nat, e: Event)
    requires Inv(s) && WellTyped(s) && Guarded(s, Claim(t, e)) && Apply(s, Claim(t, e)).Some?
    ensures ProducersOk(Apply(s, Claim(t, e)).value)
  {
    hide Index, Low32, Seen, ConsumerOk, ClaimsOk;
    var n := |s.claims|;
    var s' := Apply(s, Claim(t, e)).value;
    WrapKeepsSlot(n);
    assert !SlotOf(s, n).ready;
    assert forall m: nat :: m < n ==> s'.claims[m] == s.claims[m];
    forall u | u in s'.producers
      ensures ProducerOk(s', s'.producers[u])
    {
      if u != t {
        assert ProducerOk(s, s.producers[u]);
      }
    }
    forall u, v | u in s'.producers && v in s'.producers && u != v
      ensures s'.producers[u].number != s'.producers[v].number
    {
      if u != t {
        assert ProducerOk(s, s.producers[u]);
      }
      if v != t {
        assert ProducerOk(s, s.producers[v]);
      }
    }
  }

  lemma ClaimKeepsConsumer(s: Ring, t: nat, e: Event)
    requires Inv(s) && WellTyped(s) && Guarded(s, Claim(t, e)) && Apply(s, Claim(t, e)).Some?
    ensures ConsumerOk(Apply(s, Claim(t, e)).value)
  {
    hide Index, Low32, Seen, ClaimsOk, FreeOk, ProducersOk;
    var s' := Apply(s, Claim(t, e)).value;
    var c := s.consumer;
    if !c.Idle? && !c.Loaded? {
      SeenAfterClaim(|s.claims|, c.w);
    }
    assert forall m :: m < |s.claims| && InProgress(s', m) ==> InProgress(s, m);
    if c.Reading? {
      assert s'.claims[|s.delivered|] == s.claims[|s.delivered|];
    }
  }

  lemma WriteFieldKeeps(s: Ring, t: nat)
    requires Inv(s) && WellTyped(s) && Apply(s, WriteField(t)).Some?
    ensures Inv(Apply(s, WriteField(t)).value)
  {
    hide Index, Low32, Seen, ClaimsOk, ProducersOk;
    var s' := Apply(s, WriteField(t)).value;
    ProgressKept(s, s');
    ProgressKept(s', s);
    WriteKeepsProducers(s, t);
    WriteKeepsClaims(s, t);
    assert forall m: nat :: SlotOf(s', m).ready == SlotOf(s, m).ready;
  }

  lemma WriteKeepsProducers(s: Ring, t: nat)
    requires Inv(s) && WellTyped(s) && Apply(s, WriteField(t)).Some?
    ensures ProducersOk(Apply(s, WriteField(t)).value)
  {
    hide Index, Low32, Seen, ClaimsOk, FreeOk, ConsumerOk;
    var p := s.producers[t];
    var s' := Apply(s, WriteField(t)).value;
    assert ProducerOk(s, p);
    forall u | u in s'.producers
      ensures ProducerOk(s', s'.producers[u])
    {
      assert ProducerOk(s, s.producers[u]);
      if u != t {
        ApartSlots(s, s.producers[u].number, p.number);
      }
    }
  }

  lemma WriteKeepsClaims(s: Ring, t: nat)
    requires Inv(s) && WellTyped(s) && Apply(s, WriteField(t)).Some?
    ensures ClaimsOk(Apply(s, WriteField(t)).value)
  {
    hide Index, Low32, Seen, FreeOk, ConsumerOk;
    var p := s.producers[t];
    var s' := Apply(s, WriteField(t)).value;
    assert ProducerOk(s, p);
    ProgressKept(s, s');
    forall m: nat | Released(s') <= m < |s'.claims|
      ensures ClaimOk(s', m)
    {
      assert ClaimOk(s, m);
      if m != p.number {
        ApartSlots(s, m, p.number);
      } else {
        assert s'.producers[t].number == m;
      }
    }
  }

  lemma PublishKeeps(s: Ring, t: nat)
    requires Inv(s) && WellTyped(s) && Apply(s, Publish(t)).Some?
    ensures Inv(Apply(s, Publish(t)).value)
  {
    hide Index, Low32, Seen;
    var p := s.producers[t];
    var s' := Apply(s, Publish(t)).value;
    assert ProducerOk(s, p);
    assert p.event[..FIELDS] == p.event && SlotOf(s, p.number).fields[..FIELDS] == SlotOf(s, p.number).fields;
    ProgressKept(s', s);
    forall u | u in s'.producers
      ensures ProducerOk(s', s'.producers[u])
    {
      assert ProducerOk(s, s.producers[u]);
      ApartSlots(s, s.producers[u].number, p.number);
    }
    forall m: nat | Released(s') <= m < |s'.claims|
      ensures ClaimOk(s', m)
    {
      assert ClaimOk(s, m);
      if m != p.number {
        ApartSlots(s, m, p.number);
        if u :| u in s.producers && s.producers[u].number == m {
          assert s'.producers[u].number == m;
        }
      }
    }
    forall m: nat | |s'.claims| <= m < Released(s') + MAX_PENDING
      ensures !SlotOf(s', m).ready
    {
      SlotsDistinct(p.number, m);
      assert SlotOf(s', m) == SlotOf(s, m);
    }
  }

  /** A consumer step that leaves slots and counters alone keeps everything but its own part. */
  lemma ConsumerMoveKeeps(s: Ring, s': Ring)
    requires Inv(s) && s' == s.(consumer := s'.consumer)
    requires !s.consumer.Called? && !s.consumer.Cleared? && !s'.consumer.Called? && !s'.consumer.Cleared?
    requires ConsumerOk(s')
    ensures Inv(s')
  {
    hide ConsumerOk, Index, Low32;
    ProgressKept(s, s');
    forall t | t in s'.producers
      ensures ProducerOk(s', s'.producers[t])
    {
      assert ProducerOk(s, s.producers[t]);
    }
    forall n: nat | Released(s') <= n < |s'.claims|
      ensures ClaimOk(s', n)
    {
      assert ClaimOk(s, n);
    }
    forall n: nat | |s'.claims| <= n < Released(s') + MAX_PENDING
      ensures !SlotOf(s', n).ready
    {
      assert !SlotOf(s, n).ready;
    }
  }

  lemma LoadWriteIdxKeeps(s: Ring)
    requires Inv(s) && WellTyped(s) && s.consumer.Loaded?
    ensures Inv(Apply(s, LoadWriteIdx).value)
  {
    hide Index, Low32, Seen;
    SeenNow(|s.claims|);
    ConsumerMoveKeeps(s, Apply(s, LoadWriteIdx).value);
  }

  lemma TestReadyKeeps(s: Ring)
    requires Inv(s) && WellTyped(s) && s.consumer.Looping?
    ensures Inv(Apply(s, TestReady).value)
  {
    hide Index, Low32, Seen;
    var s' := Apply(s, TestReady).value;
    if s'.consumer.Reading? {
      var d := |s.delivered|;
      IndexTestIsExact(s);
      SeenIs(|s.claims|, s.consumer.w);
      WrapKeepsSlot(d);
      forall t | t in s.producers
        ensures s.producers[t].number != d
      {
        assert ProducerOk(s, s.producers[t]);
      }
    }
    ConsumerMoveKeeps(s, s');
  }

  lemma ReadFieldKeeps(s: Ring)
    requires Inv(s) && WellTyped(s) && s.consumer.Reading?
    ensures Inv(Apply(s, ReadField).value)
  {
    hide Index, Low32, Seen;
    var s' := Apply(s, ReadField).value;
    var d, c := |s.delivered|, s.consumer;
    WrapKeepsSlot(d);
    assert ClaimOk(s, d);
    var event := s.claims[d];
    assert SlotOf(s, d).fields == event;
    assert c.got + [event[|c.got|]] == event[..|c.got| + 1];
    ProgressKept(s, s');
    ProgressKept(s', s);
    if |c.got| + 1 < FIELDS {
      ConsumerMoveKeeps(s, s');
    } else {
      assert event[..FIELDS] == event;
      DeliverKeeps(s, s');
    }
  }

  /** Handing over the event at the head. */
  lemma DeliverKeeps(s: Ring, s': Ring)
    requires Inv(s) && s.consumer.Reading?
    requires s' == s.(consumer := Called(s.consumer.r, s.consumer.w),
               delivered := s.delivered + [s.claims[|s.delivered|]])
    ensures Inv(s')
  {
    hide Index, Low32, Seen;
    var d := |s.delivered|;
    ProgressKept(s, s');
    ProgressKept(s', s);
    assert s'.delivered == s.claims[..d + 1];
    forall t | t in s'.producers
      ensures ProducerOk(s', s'.producers[t])
    {
      assert ProducerOk(s, s.producers[t]);
    }
    forall n: nat | Released(s') <= n < |s'.claims|
      ensures ClaimOk(s', n)
    {
      assert ClaimOk(s, n);
    }
    forall n: nat | |s'.claims| <= n < Released(s') + MAX_PENDING
      ensures !SlotOf(s', n).ready
    {
      assert !SlotOf(s, n).ready;
    }
  }

  lemma ClearReadyKeeps(s: Ring)
    requires Inv(s) && WellTyped(s) && s.consumer.Called?
    ensures Inv(Apply(s, ClearReady).value)
  {
    hide Index, Low32, Seen;
    var s' := Apply(s, ClearReady).value;
    var d := |s.delivered| - 1;
    WrapKeepsSlot(d);
    SlotsRecur(d);
    ProgressKept(s, s');
    ProgressKept(s', s);
    forall t | t in s'.producers
      ensures ProducerOk(s', s'.producers[t])
    {
      assert ProducerOk(s, s.producers[t]);
      ApartSlots(s, s.producers[t].number, d);
    }
    forall n: nat | Released(s') <= n < |s'.claims|
      ensures ClaimOk(s', n)
    {
      assert ClaimOk(s, n);
      ApartSlots(s, n, d);
    }
    forall n: nat | |s'.claims| <= n < Released(s') + MAX_PENDING
      ensures !SlotOf(s', n).ready
    {
      if n < d + MAX_PENDING {
        assert !SlotOf(s, n).ready;
      }
    }
  }

  lemma AdvanceKeeps(s: Ring)
    requires Inv(s) && WellTyped(s) && s.consumer.Cleared?
    ensures Inv(Apply(s, Advance).value)
  {
    hide Index, Low32, Seen;
    var s' := Apply(s, Advance).value;
    NextLow32(Position(s));
    ProgressKept(s, s');
    ProgressKept(s', s);
    forall t | t in s'.producers
      ensures ProducerOk(s', s'.producers[t])
    {
      assert ProducerOk(s, s.producers[t]);
    }
    forall n: nat | Released(s') <= n < |s'.claims|
      ensures ClaimOk(s', n)
    {
      assert ClaimOk(s, n);
    }
    forall n: nat | |s'.claims| <= n < Released(s') + MAX_PENDING
      ensures !SlotOf(s', n).ready
    {
      assert !SlotOf(s, n).ready;
    }
  }

  /** The invariant of the ring is kept by every step of every thread, as long as claims are guarded. */
  lemma StepKeepsInv(s: Ring, a: Action)
    requires Inv(s) && WellTyped(s) && Guarded(s, a) && Apply(s, a).Some?
    ensures Inv(Apply(s, a).value)
  {
    match a
    case Claim(t, e) => ClaimKeeps(s, t, e);
    case WriteField(t) => WriteFieldKeeps(s, t);
    case Publish(t) => PublishKeeps(s, t);
    case LoadReadIdx => ConsumerMoveKeeps(s, Apply(s, a).value);
    case LoadWriteIdx => LoadWriteIdxKeeps(s);
    case TestReady => TestReadyKeeps(s);
    case ReadField => ReadFieldKeeps(s);
    case ClearReady => ClearReadyKeeps(s);
    case Advance => AdvanceKeeps(s);
  }

  // ---------- Whole runs ----------

  /** Steps taken one after another, or None if some thread is not at the step given. */
  ghost function Steps(s: Ring, actions: seq<Action>): Option<Ring>
    decreases |actions|
  {
    if actions == [] then Some(s)
    else if !WellTyped(s) || Apply(s, actions[0]).None? then None
    else Steps(Apply(s, actions[0]).value, actions[1..])
  }

  /** Every claim of the run is made while fewer than 256 are outstanding. */
  ghost predicate RunGuarded(s: Ring, actions: seq<Action>)
    decreases |actions|
  {
    actions != [] && WellTyped(s) && Apply(s, actions[0]).Some? ==>
      Guarded(s, actions[0]) && RunGuarded(Apply(s, actions[0]).value, actions[1..])
  }

  lemma {:induction false} RunKeepsInv(s: Ring, actions: seq<Action>)
    requires Inv(s) && RunGuarded(s, actions) && Steps(s, actions).Some?
    ensures Inv(Steps(s, actions).value)
    decreases |actions|
  {
    if actions != [] {
      hide Inv, Apply, Guarded;
      StepKeepsInv(s, actions[0]);
      RunKeepsInv(Apply(s, actions[0]).value, actions[1..]);
    }
  }

  /** On every guarded run, whatever the interleaving: events are delivered in claim order, each once and with
      its own fields, and every event not yet delivered is still being written or lies intact in its slot. */
  lemma RingSafety(actions: seq<Action>)
    requires RunGuarded(Init(), actions) && Steps(Init(), actions).Some?
    ensures var s := Steps(Init(), actions).value;
            && |s.slots| == MAX_PENDING && |s.delivered| <= |s.claims|
            && s.delivered == s.claims[..|s.delivered|]
            && forall n: nat :: |s.delivered| <= n < |s.claims| ==>
                 InProgress(s, n) || SlotOf(s, n) == Slot(true, s.claims[n])
  {
    InitInv();
    RunKeepsInv(Init(), actions);
    hide Index, Steps, RunGuarded, Apply;
    var s := Steps(Init(), actions).value;
    forall n: nat | |s.delivered| <= n < |s.claims|
      ensures InProgress(s, n) || SlotOf(s, n) == Slot(true, s.claims[n])
    {
      assert ClaimOk(s, n);
    }
  }

  /** The slot of the next claim is free of outstanding claims exactly when fewer than 256 are outstanding. */
  lemma ClaimTakesFreeSlotIff(s: Ring)
    requires Inv(s)
    ensures Outstanding(s) < MAX_PENDING <==>
              forall n: nat :: Released(s) <= n < |s.claims| ==> Index(n) != Index(|s.claims|)
  {
    var next := |s.claims|;
    if Outstanding(s) < MAX_PENDING {
      forall n: nat | Released(s) <= n < next
        ensures Index(n) != Index(next)
      {
        SlotsDistinct(n, next);
      }
    } else {
      SlotsRecur(Released(s));
    }
  }

  // ---------- Draining ----------

  const READ_ALL: seq<Action> := [ReadField, ReadField, ReadField, ReadField, ReadField]

  lemma {:induction false} StepsAppend(s: Ring, p: seq<Action>, q: seq<Action>)
    requires Steps(s, p).Some?
    ensures Steps(s, p + q) == Steps(Steps(s, p).value, q)
    decreases |p|
  {
    hide Apply;
    if p == [] {
      assert p + q == q;
    } else {
      assert (p + q)[1..] == p[1..] + q;
      StepsAppend(Apply(s, p[0]).value, p[1..], q);
    }
  }

  lemma OneStep(s: Ring, a: Action)
    requires WellTyped(s) && Apply(s, a).Some?
    ensures Steps(s, [a]) == Apply(s, a)
  {
    hide Apply;
    assert [a][1..] == [];
  }

  /** Reading the five fields of a slot delivers the event in it. */
  lemma {:induction false} ReadsDeliver(s: Ring, k: nat)
    requires WellTyped(s) && s.consumer.Reading? && 1 <= k <= FIELDS && |s.consumer.got| == FIELDS - k
    requires s.consumer.got == s.slots[s.consumer.r % MAX_PENDING].fields[..FIELDS - k]
    ensures Steps(s, READ_ALL[..k]) ==
              Some(s.(consumer := Called(s.consumer.r, s.consumer.w),
                      delivered := s.delivered + [s.slots[s.consumer.r % MAX_PENDING].fields]))
    decreases k
  {
    var event := s.slots[s.consumer.r % MAX_PENDING].fields;
    var u := Apply(s, ReadField).value;
    assert s.consumer.got + [event[FIELDS - k]] == event[..FIELDS - k + 1];
    assert event[..FIELDS] == event;
    assert READ_ALL[..k][0] == ReadField && READ_ALL[..k][1..] == READ_ALL[..k - 1];
    if k > 1 {
      ReadsDeliver(u, k - 1);
    }
  }

  const DELIVERY: seq<Action> := [TestReady] + READ_ALL + [ClearReady, Advance]

  /** One turn of the drain loop at a published slot. */
  lemma Delivery(s: Ring)
    requires WellTyped(s) && s.consumer.Looping? && s.consumer.r != s.consumer.w
    requires s.slots[s.consumer.r % MAX_PENDING].ready
    ensures var c := s.consumer; var k := c.r % MAX_PENDING;
            Steps(s, DELIVERY) ==
              Some(s.(slots := s.slots[k := s.slots[k].(ready := false)], readIdx := Next(c.r),
                      consumer := Looping(Next(c.r), c.w), delivered := s.delivered + [s.slots[k].fields]))
  {
    var c := s.consumer;
    var u := s.(consumer := Reading(c.r, c.w, []));
    OneStep(s, TestReady);
    StepsAppend(s, [TestReady], READ_ALL + [ClearReady, Advance]);
    ReadsDeliver(u, FIELDS);
    assert READ_ALL[..FIELDS] == READ_ALL;
    var v := Steps(u, READ_ALL).value;
    StepsAppend(u, READ_ALL, [ClearReady, Advance]);
    HandBack(v);
    assert DELIVERY == [TestReady] + (READ_ALL + [ClearReady, Advance]);
  }

  lemma HandBack(v: Ring)
    requires WellTyped(v) && v.consumer.Called?
    ensures var c := v.consumer; var k := c.r % MAX_PENDING;
            Steps(v, [ClearReady, Advance]) ==
              Some(v.(slots := v.slots[k := v.slots[k].(ready := false)], readIdx := Next(c.r),
                consumer := Looping(Next(c.r), c.w)))
  {
    var x := Apply(v, ClearReady).value;
    OneStep(v, ClearReady);
    StepsAppend(v, [ClearReady], [Advance]);
    OneStep(x, Advance);
    assert [ClearReady] + [Advance] == [ClearReady, Advance];
  }

  predicate ConsumerOnly(actions: seq<Action>) {
    forall a :: a in actions ==> !a.Claim? && !a.WriteField? && !a.Publish?
  }

  lemma {:induction false} NoClaimsIsGuarded(s: Ring, actions: seq<Action>)
    requires forall a :: a in actions ==> !a.Claim?
    ensures RunGuarded(s, actions)
    decreases |actions|
  {
    if actions != [] && WellTyped(s) && Apply(s, actions[0]).Some? {
      assert actions[0] in actions;
      NoClaimsIsGuarded(Apply(s, actions[0]).value, actions[1..]);
    }
  }

  /** One delivery, when every claim is published and the drain has not caught up with its snapshot. */
  lemma DeliverNext(s: Ring)
    requires Inv(s) && s.consumer.Looping? && s.producers == map[]
    requires Seen(|s.claims|, s.consumer.w) == |s.claims| && |s.delivered| < |s.claims|
    ensures Steps(s, DELIVERY).Some?
    ensures var t := Steps(s, DELIVERY).value;
            && Inv(t) && t.consumer.Looping? && t.consumer.w == s.consumer.w && t.producers == map[]
            && t.claims == s.claims && |t.delivered| == |s.delivered| + 1
  {
    hide Index, Low32, Seen, Steps, Apply;
    InvTyped(s);
    WrapKeepsSlot(|s.delivered|);
    IndexTestIsExact(s);
    assert ClaimOk(s, |s.delivered|);
    Delivery(s);
    NoClaimsIsGuarded(s, DELIVERY);
    RunKeepsInv(s, DELIVERY);
  }

  /** The rest of a drain that started after the last publication. */
  lemma {:induction false} DrainFrom(s: Ring) returns (actions: seq<Action>)
    requires Inv(s) && s.consumer.Looping? && s.producers == map[] && Seen(|s.claims|, s.consumer.w) == |s.claims|
    ensures ConsumerOnly(actions) && Steps(s, actions).Some?
    ensures var t := Steps(s, actions).value; t.consumer.Idle? && t.claims == s.claims && t.delivered == s.claims
    decreases |s.claims| - |s.delivered|
  {
    hide Index, Low32, Seen, Steps;
    if |s.delivered| == |s.claims| {
      InvTyped(s);
      IndexTestIsExact(s);
      OneStep(s, TestReady);
      assert s.claims[..|s.delivered|] == s.claims;
      actions := [TestReady];
    } else {
      DeliverNext(s);
      var rest := DrainFrom(Steps(s, DELIVERY).value);
      StepsAppend(s, DELIVERY, rest);
      actions := DELIVERY + rest;
    }
  }

  /** A drain started when every claim is published delivers them all and ends, whatever the index values. */
  lemma DrainDeliversAll(s: Ring)
    requires Inv(s) && s.consumer.Idle? && s.producers == map[]
    ensures exists actions :: ConsumerOnly(actions) && Steps(s, actions).Some? &&
              var t := Steps(s, actions).value; t.consumer.Idle? && t.claims == s.claims && t.delivered == s.claims
  {
    hide Index, Low32, Seen, Steps;
    InvTyped(s);
    var u := Apply(s, LoadReadIdx).value;
    StepKeepsInv(s, LoadReadIdx);
    InvTyped(u);
    var v := Apply(u, LoadWriteIdx).value;
    StepKeepsInv(u, LoadWriteIdx);
    SeenNow(|s.claims|);
    var rest := DrainFrom(v);
    OneStep(s, LoadReadIdx);
    OneStep(u, LoadWriteIdx);
    StepsAppend(u, [LoadWriteIdx], rest);
    StepsAppend(s, [LoadReadIdx], [LoadWriteIdx] + rest);
    var all := [LoadReadIdx] + ([LoadWriteIdx] + rest);
    assert ConsumerOnly(all) && Steps(s, all).Some?;
  }

  // ---------- One claim too many ----------

  function Writes(t: nat, k: nat): seq<Action> {
    seq(k, _ => WriteField(t))
  }

  lemma {:induction false} WritesFill(s: Ring, t: nat, k: nat)
    requires WellTyped(s) && t in s.producers && k <= FIELDS && s.producers[t].written == FIELDS - k
    requires s.slots[s.producers[t].idx].fields[..FIELDS - k] == s.producers[t].event[..FIELDS - k]
    ensures var p := s.producers[t];
            Steps(s, Writes(t, k)) ==
              Some(s.(slots := s.slots[p.idx := s.slots[p.idx].(fields := p.event)],
                      producers := s.producers[t := p.(written := FIELDS)]))
    decreases k
  {
    var p := s.producers[t];
    var slot := s.slots[p.idx];
    assert p.event[..FIELDS] == p.event && slot.fields[..FIELDS] == slot.fields;
    if k == 0 {
      assert s.slots[p.idx := slot] == s.slots && s.producers[t := p] == s.producers;
    } else {
      var u := Apply(s, WriteField(t)).value;
      var i := FIELDS - k;
      var written := slot.fields[i := p.event[i]];
      assert u.slots[p.idx].fields == written;
      assert written[..i + 1] == slot.fields[..i] + [p.event[i]];
      assert p.event[..i + 1] == p.event[..i] + [p.event[i]];
      assert Writes(t, k)[1..] == Writes(t, k - 1);
      WritesFill(u, t, k - 1);
      var filled, full := slot.(fields := p.event), p.(written := FIELDS);
      assert u.slots[p.idx := filled] == s.slots[p.idx := filled];
      assert u.producers[t := full] == s.producers[t := full];
    }
  }

  /** A producer that runs from claim to publication without interruption. */
  function Record(t: nat, e: Event): seq<Action> {
    [Claim(t, e)] + Writes(t, FIELDS) + [Publish(t)]
  }

  lemma RecordEffect(s: Ring, t: nat, e: Event)
    requires WellTyped(s) && t !in s.producers
    ensures Steps(s, Record(t, e)) ==
              Some(s.(writeIdx := Next(s.writeIdx), slots := s.slots[s.writeIdx % MAX_PENDING := Slot(true, e)],
                      claims := s.claims + [e]))
  {
    hide Steps, Writes;
    var u := Apply(s, Claim(t, e)).value;
    var p := u.producers[t];
    WritesFill(u, t, FIELDS);
    var v := u.(slots := u.slots[p.idx := u.slots[p.idx].(fields := e)],
      producers := u.producers[t := p.(written := FIELDS)]);
    assert v.producers - {t} == s.producers;
    assert v.slots[p.idx := v.slots[p.idx].(ready := true)] == s.slots[p.idx := Slot(true, e)];
    OneStep(s, Claim(t, e));
    OneStep(v, Publish(t));
    hide Apply;
    StepsAppend(u, Writes(t, FIELDS), [Publish(t)]);
    StepsAppend(s, [Claim(t, e)], Writes(t, FIELDS) + [Publish(t)]);
    assert Record(t, e) == [Claim(t, e)] + (Writes(t, FIELDS) + [Publish(t)]);
  }

  /** With 256 claims outstanding, one more claim overwrites the oldest event: the next delivery hands over the
      new event in its place, and the old one is lost. */
  lemma OverrunLosesOldest(s: Ring, e: Event)
    requires Inv(s) && s.consumer.Idle? && s.producers == map[] && Outstanding(s) == MAX_PENDING
    ensures exists actions :: Steps(s, Record(0, e) + actions).Some? &&
              var t := Steps(s, Record(0, e) + actions).value;
              t.claims == s.claims + [e] && t.delivered == s.delivered + [e]
  {
    hide Index, Low32, Seen, Steps;
    InvTyped(s);
    var d := |s.delivered|;
    RecordEffect(s, 0, e);
    var s1 := Steps(s, Record(0, e)).value;
    WrapKeepsSlot(|s.claims|);
    SlotsRecur(d);
    WrapKeepsSlot(d);
    var s2 := Apply(s1, LoadReadIdx).value;
    var s3 := Apply(s2, LoadWriteIdx).value;
    NextLow32(|s.claims|);
    CloseEqual(d, |s.claims| + 1);
    OneStep(s1, LoadReadIdx);
    OneStep(s2, LoadWriteIdx);
    Delivery(s3);
    StepsAppend(s2, [LoadWriteIdx], DELIVERY);
    StepsAppend(s1, [LoadReadIdx], [LoadWriteIdx] + DELIVERY);
    StepsAppend(s, Record(0, e), [LoadReadIdx] + ([LoadWriteIdx] + DELIVERY));
  }

  /** The situation of the lemma above is reachable: 256 handlers may run before the first drain. */
  lemma {:induction false} FullRingReachable(k: nat, e: Event)
    requires k <= MAX_PENDING
    ensures exists actions :: RunGuarded(Init(), actions) && Steps(Init(), actions).Some? &&
              var s := Steps(Init(), actions).value;
              s.consumer.Idle? && s.producers == map[] && s.delivered == [] && |s.claims| == k
    decreases k
  {
    if k == 0 {
      assert RunGuarded(Init(), []) && Steps(Init(), []) == Some(Init());
    } else {
      FullRingReachable(k - 1, e);
      hide Steps, Apply, Init, Inv;
      var before :| RunGuarded(Init(), before) && Steps(Init(), before).Some? &&
        var s := Steps(Init(), before).value;
        s.consumer.Idle? && s.producers == map[] && s.delivered == [] && |s.claims| == k - 1;
      var s := Steps(Init(), before).value;
      InitInv();
      RunKeepsInv(Init(), before);
      InvTyped(s);
      RecordEffect(s, 0, e);
      RecordGuarded(s, e);
      GuardedAppend(Init(), before, Record(0, e));
      StepsAppend(Init(), before, Record(0, e));
    }
  }

  lemma RecordGuarded(s: Ring, e: Event)
    requires WellTyped(s) && Outstanding(s) < MAX_PENDING
    ensures RunGuarded(s, Record(0, e))
  {
    var rest := Record(0, e)[1..];
    if Apply(s, Claim(0, e)).Some? {
      assert forall a :: a in rest ==> !a.Claim?;
      NoClaimsIsGuarded(Apply(s, Claim(0, e)).value, rest);
    }
  }

  lemma {:induction false} GuardedAppend(s: Ring, p: seq<Action>, q: seq<Action>)
    requires RunGuarded(s, p) && Steps(s, p).Some? && RunGuarded(Steps(s, p).value, q)
    ensures RunGuarded(s, p + q)
    decreases |p|
  {
    hide Apply, Guarded;
    if p == [] {
      assert p + q == q;
    } else {
      assert (p + q)[1..] == p[1..] + q;
      GuardedAppend(Apply(s, p[0]).value, p[1..], q);
    }
  }
}
