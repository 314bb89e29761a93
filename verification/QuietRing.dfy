/** The ring of pending events between interruptions, full or not: runs of uninterrupted handlers and complete drains,
    when they deliver everything, and what a full ring does to them. */
module QuietRing {
  import opened Results
  import opened Words
  import opened PendingRing
  import ER = EventRing

  /** No handler is in progress and nothing is being drained. */
  ghost predicate Quiet(s: Ring) {
    WellTyped(s) && s.consumer.Idle? && s.producers == map[]
  }

  /** A handler that records one event, or a drain that goes on until it stops by itself. */
  datatype Move = Rec(event: Event) | Drain

  function Recorded(s: Ring, e: Event): Ring
    requires |s.slots| == MAX_PENDING
  {
    s.(writeIdx := Next(s.writeIdx), slots := s.slots[s.writeIdx % MAX_PENDING := Slot(true, e)],
      claims := s.claims + [e])
  }

  /** One turn of the drain loop. */
  function Handed(s: Ring): Ring
    requires |s.slots| == MAX_PENDING
  {
    var k := s.readIdx % MAX_PENDING;
    s.(slots := s.slots[k := s.slots[k].(ready := false)], readIdx := Next(s.readIdx),
      delivered := s.delivered + [s.slots[k].fields])
  }

  /** The drain loop stops at the write index it saw, or at a slot that is not ready. */
  predicate Stops(s: Ring, w: u32)
    requires |s.slots| == MAX_PENDING
  {
    s.readIdx == w || !s.slots[s.readIdx % MAX_PENDING].ready
  }

  ghost function DrainedTo(s: Ring, w: u32): Ring
    requires |s.slots| == MAX_PENDING
    decreases ER.Distance(w, s.readIdx)
  {
    ER.WriteSlot(w, s.readIdx);
    if Stops(s, w) then s else DrainedTo(Handed(s), w)
  }

  ghost function Drained(s: Ring): Ring
    requires |s.slots| == MAX_PENDING
  {
    DrainedTo(s, s.writeIdx)
  }

  lemma {:induction false} DrainedKeeps(s: Ring, w: u32)
    requires |s.slots| == MAX_PENDING
    ensures var t := DrainedTo(s, w);
            && |t.slots| == MAX_PENDING && t.claims == s.claims && t.writeIdx == s.writeIdx
            && t.consumer == s.consumer && t.producers == s.producers
    decreases ER.Distance(w, s.readIdx)
  {
    ER.WriteSlot(w, s.readIdx);
    if !Stops(s, w) {
      DrainedKeeps(Handed(s), w);
    }
  }

  ghost function Moved(s: Ring, m: Move): (t: Ring)
    requires |s.slots| == MAX_PENDING
    ensures |t.slots| == MAX_PENDING
  {
    match m
    case Rec(e) => Recorded(s, e)
    case Drain => DrainedKeeps(s, s.writeIdx); Drained(s)
  }

  ghost function After(s: Ring, moves: seq<Move>): (t: Ring)
    requires |s.slots| == MAX_PENDING
    ensures |t.slots| == MAX_PENDING
    decreases |moves|
  {
    if moves == [] then s else After(Moved(s, moves[0]), moves[1..])
  }

  // ---------- These are runs of the atomic steps ----------

  lemma {:induction false} DrainLoopIsSteps(s: Ring, w: u32) returns (actions: seq<Action>)
    requires Quiet(s)
    ensures ConsumerOnly(actions)
    ensures Steps(s.(consumer := Looping(s.readIdx, w)), actions) == Some(DrainedTo(s, w))
    decreases ER.Distance(w, s.readIdx)
  {
    hide Steps;
    var looping := s.(consumer := Looping(s.readIdx, w));
    ER.WriteSlot(w, s.readIdx);
    if Stops(s, w) {
      actions := [TestReady];
      OneStep(looping, TestReady);
      assert s.(consumer := Idle) == s;
    } else {
      Delivery(looping);
      var t := Handed(s);
      var rest := DrainLoopIsSteps(t, w);
      StepsAppend(looping, DELIVERY, rest);
      actions := DELIVERY + rest;
    }
  }

  /** Every complete drain is a run of consumer steps. */
  lemma DrainIsSteps(s: Ring) returns (actions: seq<Action>)
    requires Quiet(s)
    ensures ConsumerOnly(actions) && Steps(s, actions) == Some(Drained(s))
  {
    hide Steps;
    var rest := DrainLoopIsSteps(s, s.writeIdx);
    var u := Apply(s, LoadReadIdx).value;
    OneStep(s, LoadReadIdx);
    OneStep(u, LoadWriteIdx);
    StepsAppend(u, [LoadWriteIdx], rest);
    StepsAppend(s, [LoadReadIdx], [LoadWriteIdx] + rest);
    actions := [LoadReadIdx] + ([LoadWriteIdx] + rest);
  }

  /** Every run of handlers and drains, one after another, is a run of the ring. */
  lemma {:induction false} MovesAreSteps(s: Ring, moves: seq<Move>) returns (actions: seq<Action>)
    requires Quiet(s)
    ensures Steps(s, actions) == Some(After(s, moves)) && Quiet(After(s, moves))
    decreases |moves|
  {
    hide Steps, Apply, Recorded;
    if moves == [] {
      actions := [];
      StepsNothing(s);
    } else {
      var first: seq<Action>;
      match moves[0] {
        case Rec(e) =>
          first := Record(0, e);
          RecordEffect(s, 0, e);
          RecordedIs(s, e);
        case Drain =>
          first := DrainIsSteps(s);
          DrainedKeeps(s, s.writeIdx);
      }
      var rest := MovesAreSteps(Moved(s, moves[0]), moves[1..]);
      StepsAppend(s, first, rest);
      actions := first + rest;
    }
  }

  lemma StepsNothing(s: Ring)
    ensures Steps(s, []) == Some(s)
  {
  }

  lemma RecordedIs(s: Ring, e: Event)
    requires Quiet(s)
    ensures Recorded(s, e) == s.(writeIdx := Next(s.writeIdx),
              slots := s.slots[s.writeIdx % MAX_PENDING := Slot(true, e)],
                                 claims := s.claims + [e])
    ensures Quiet(Recorded(s, e))
  {
  }

  // ---------- Slots as the reader meets them ----------

  function View(s: Ring): (v: seq<Slot>)
    requires |s.slots| == MAX_PENDING
    ensures |v| == MAX_PENDING
  {
    seq<Slot>(MAX_PENDING, i requires 0 <= i < MAX_PENDING => s.slots[ER.At(s.readIdx, i)])
  }

  /** How far the write index is ahead of the read index. */
  function Ahead(s: Ring): nat {
    ER.Distance(s.writeIdx, s.readIdx)
  }

  function Cleared(x: Slot): Slot {
    x.(ready := false)
  }

  lemma ViewHanded(s: Ring)
    requires |s.slots| == MAX_PENDING
    ensures View(Handed(s)) == View(s)[1..] + [Cleared(View(s)[0])]
    ensures s.slots[s.readIdx % MAX_PENDING] == View(s)[0]
    ensures s.readIdx != s.writeIdx ==> Ahead(s) > 0 && Ahead(Handed(s)) == Ahead(s) - 1
  {
    hide ER.Distance;
    var t := Handed(s);
    ER.WriteSlot(s.writeIdx, s.readIdx);
    assert s.readIdx % MAX_PENDING == ER.At(s.readIdx, 0) == ER.At(s.readIdx, MAX_PENDING);
    forall i | 0 <= i < MAX_PENDING
      ensures View(t)[i] == (View(s)[1..] + [Cleared(View(s)[0])])[i]
    {
      ER.AdvanceShifts(s.readIdx, i);
      if i + 1 < MAX_PENDING && ER.At(s.readIdx, i + 1) == ER.At(s.readIdx, 0) {
        ER.DistinctSlots(s.readIdx, i + 1, 0);
      }
    }
  }

  lemma ViewRecorded(s: Ring, e: Event)
    requires |s.slots| == MAX_PENDING && Ahead(s) < TWO_32 - 1
    ensures View(Recorded(s, e)) == View(s)[Ahead(s) % MAX_PENDING := Slot(true, e)]
    ensures s.slots[s.writeIdx % MAX_PENDING] == View(s)[Ahead(s) % MAX_PENDING]
    ensures Ahead(Recorded(s, e)) == Ahead(s) + 1
  {
    hide ER.Distance;
    var k := Ahead(s) % MAX_PENDING;
    ER.WriteSlot(s.writeIdx, s.readIdx);
    AtModulo(s.readIdx, Ahead(s));
    forall i | 0 <= i < MAX_PENDING
      ensures View(Recorded(s, e))[i] == View(s)[k := Slot(true, e)][i]
    {
      if ER.At(s.readIdx, i) == ER.At(s.readIdx, k) {
        ER.DistinctSlots(s.readIdx, i, k);
      }
    }
  }

  lemma AtModulo(r: nat, n: nat)
    ensures ER.At(r, n) == ER.At(r, n % MAX_PENDING)
  {
    ER.SameRemainder(r + n % MAX_PENDING, n / MAX_PENDING);
    assert r + n == r + n % MAX_PENDING + MAX_PENDING * (n / MAX_PENDING);
  }

  function Fields(slots: seq<Slot>): (es: seq<Event>)
    ensures |es| == |slots| && forall i :: 0 <= i < |slots| ==> es[i] == slots[i].fields
  {
    seq<Event>(|slots|, i requires 0 <= i < |slots| => slots[i].fields)
  }

  function AllCleared(slots: seq<Slot>): (v: seq<Slot>)
    ensures |v| == |slots| && forall i :: 0 <= i < |slots| ==> v[i] == Cleared(slots[i])
  {
    seq<Slot>(|slots|, i requires 0 <= i < |slots| => Cleared(slots[i]))
  }

  /** A drain hands over the ready slots at the front, and stops behind them. */
  lemma {:induction false} DrainDeliversFront(s: Ring, w: u32, n: nat)
    requires |s.slots| == MAX_PENDING && n <= MAX_PENDING
    requires forall i :: 0 <= i < n ==> View(s)[i].ready
    requires ER.Distance(w, s.readIdx) == n ||
               (ER.Distance(w, s.readIdx) > n && (n == MAX_PENDING || !View(s)[n].ready))
    ensures var t := DrainedTo(s, w);
            && |t.slots| == MAX_PENDING && t.delivered == s.delivered + Fields(View(s)[..n])
            && View(t) == View(s)[n..] + AllCleared(View(s)[..n])
            && ER.Distance(w, t.readIdx) == ER.Distance(w, s.readIdx) - n
    decreases n
  {
    hide ER.Distance, View, Handed;
    ER.WriteSlot(w, s.readIdx);
    ViewHanded(s);
    if n == 0 {
      assert View(s)[0..] + AllCleared(View(s)[..0]) == View(s);
      assert s.delivered + Fields(View(s)[..0]) == s.delivered;
    } else {
      var v, t := View(s), Handed(s);
      HandedIs(s);
      DrainDeliversFront(t, w, n - 1);
      FrontMoves(v, View(t), n);
      assert s.delivered + ([v[0].fields] + Fields(View(t)[..n - 1])) ==
               s.delivered + [v[0].fields] + Fields(View(t)[..n - 1]);
    }
  }

  lemma HandedIs(s: Ring)
    requires |s.slots| == MAX_PENDING
    ensures var t := Handed(s);
            && |t.slots| == MAX_PENDING && t.readIdx == Next(s.readIdx)
            && t.delivered == s.delivered + [s.slots[s.readIdx % MAX_PENDING].fields]
  {
  }

  lemma FrontMoves(v: seq<Slot>, v': seq<Slot>, n: nat)
    requires |v| == MAX_PENDING && 1 <= n <= MAX_PENDING && v' == v[1..] + [Cleared(v[0])]
    ensures v'[n - 1..] + AllCleared(v'[..n - 1]) == v[n..] + AllCleared(v[..n])
    ensures [v[0].fields] + Fields(v'[..n - 1]) == Fields(v[..n])
  {
  }

  // ---------- In step ----------

  /** The ring holds exactly the outstanding events, in order, in its first slots. */
  ghost predicate InStep(s: Ring) {
    && |s.slots| == MAX_PENDING && |s.delivered| <= |s.claims| <= |s.delivered| + MAX_PENDING
    && Ahead(s) == |s.claims| - |s.delivered| && s.delivered == s.claims[..|s.delivered|]
    && (forall i :: 0 <= i < MAX_PENDING ==> (View(s)[i].ready <==> i < Ahead(s)))
    && Fields(View(s)[..Ahead(s)]) == s.claims[|s.delivered|..]
  }

  /** Every slot is taken. */
  predicate IsFull(s: Ring) {
    |s.claims| - |s.delivered| >= MAX_PENDING
  }

  lemma InitInStep()
    ensures InStep(Init()) && Quiet(Init())
  {
  }

  lemma RecordKeepsStep(s: Ring, e: Event)
    requires InStep(s) && !IsFull(s)
    ensures InStep(Recorded(s, e))
  {
    hide View, ER.Distance;
    var t, n := Recorded(s, e), Ahead(s);
    ViewRecorded(s, e);
    RecordedCounts(s, e);
    assert Fields(View(t)[..n + 1]) == Fields(View(s)[..n]) + [e];
    assert (s.claims + [e])[|s.delivered|..] == s.claims[|s.delivered|..] + [e];
    assert (s.claims + [e])[..|s.delivered|] == s.claims[..|s.delivered|];
  }

  lemma RecordedCounts(s: Ring, e: Event)
    requires |s.slots| == MAX_PENDING
    ensures Recorded(s, e).claims == s.claims + [e] && Recorded(s, e).delivered == s.delivered
    ensures |Recorded(s, e).slots| == MAX_PENDING && Recorded(s, e).readIdx == s.readIdx
  {
  }

  /** In step, a drain delivers every claim and keeps step. */
  lemma DrainKeepsStep(s: Ring)
    requires InStep(s)
    ensures InStep(Drained(s)) && Drained(s).delivered == s.claims == Drained(s).claims
  {
    hide View, ER.Distance, DrainedTo;
    var n, t := Ahead(s), Drained(s);
    DrainDeliversFront(s, s.writeIdx, n);
    DrainedKeeps(s, s.writeIdx);
    assert s.claims == s.claims[..|s.delivered|] + s.claims[|s.delivered|..];
    assert t.claims[|t.delivered|..] == [] == Fields(View(t)[..0]);
  }

  // ---------- Out of step for good ----------

  function ReadySlots(slots: seq<Slot>): set<nat> {
    set i | 0 <= i < |slots| && slots[i].ready
  }

  /** Events that are neither delivered nor lying in a slot. */
  function Missing(s: Ring): int {
    |s.claims| - |s.delivered| - |ReadySlots(s.slots)|
  }

  lemma ReadyAfter(slots: seq<Slot>, k: nat, x: Slot)
    requires k < |slots|
    ensures |ReadySlots(slots[k := x])| ==
              |ReadySlots(slots)| + (if x.ready then 1 else 0) - (if slots[k].ready then 1 else 0)
  {
    var a, b := ReadySlots(slots), ReadySlots(slots[k := x]);
    assert b == if x.ready then a + {k} else a - {k};
    assert k in a <==> slots[k].ready;
  }

  /** A record into a taken slot loses an event; nothing ever brings one back. */
  lemma RecordMisses(s: Ring, e: Event)
    requires |s.slots| == MAX_PENDING
    ensures Missing(Recorded(s, e)) == Missing(s) + if s.slots[s.writeIdx % MAX_PENDING].ready then 1 else 0
  {
    ReadyAfter(s.slots, s.writeIdx % MAX_PENDING, Slot(true, e));
  }

  lemma {:induction false} DrainMissesNothing(s: Ring, w: u32)
    requires |s.slots| == MAX_PENDING
    ensures |DrainedTo(s, w).slots| == MAX_PENDING && Missing(DrainedTo(s, w)) == Missing(s)
    decreases ER.Distance(w, s.readIdx)
  {
    hide ReadySlots;
    ER.WriteSlot(w, s.readIdx);
    if !Stops(s, w) {
      var k := s.readIdx % MAX_PENDING;
      ReadyAfter(s.slots, k, Cleared(s.slots[k]));
      DrainMissesNothing(Handed(s), w);
    }
  }

  lemma {:induction false} MissingForever(s: Ring, moves: seq<Move>)
    requires |s.slots| == MAX_PENDING
    ensures Missing(After(s, moves)) >= Missing(s)
    decreases |moves|
  {
    hide Missing, Recorded, DrainedTo;
    if moves != [] {
      match moves[0] {
        case Rec(e) => RecordMisses(s, e);
        case Drain => DrainMissesNothing(s, s.writeIdx);
      }
      MissingForever(Moved(s, moves[0]), moves[1..]);
    }
  }

  /** No event of the run is recorded while 256 are outstanding. */
  ghost predicate NeverFull(s: Ring, moves: seq<Move>)
    requires |s.slots| == MAX_PENDING
    decreases |moves|
  {
    moves != [] ==> (moves[0].Rec? ==> !IsFull(s)) && NeverFull(Moved(s, moves[0]), moves[1..])
  }

  lemma FullSlotTaken(s: Ring)
    requires InStep(s) && IsFull(s)
    ensures s.slots[s.writeIdx % MAX_PENDING].ready
  {
    hide ER.Distance;
    ER.WriteSlot(s.writeIdx, s.readIdx);
    AtModulo(s.readIdx, Ahead(s));
    assert View(s)[Ahead(s) % MAX_PENDING].ready;
  }

  lemma FreeSlotFree(s: Ring)
    requires InStep(s) && !IsFull(s)
    ensures !s.slots[s.writeIdx % MAX_PENDING].ready
  {
    hide ER.Distance;
    ER.WriteSlot(s.writeIdx, s.readIdx);
    AtModulo(s.readIdx, Ahead(s));
    assert !View(s)[Ahead(s) % MAX_PENDING].ready;
  }

  lemma {:induction false} FinalDrain(s: Ring, moves: seq<Move>)
    requires InStep(s) && Missing(s) == 0
    ensures Drained(After(s, moves)).delivered == After(s, moves).claims <==> NeverFull(s, moves)
    decreases |moves|
  {
    hide InStep, Missing, Recorded, DrainedTo, IsFull;
    InStepSize(s);
    if moves == [] {
      DrainKeepsStep(s);
    } else {
      var t := Moved(s, moves[0]);
      match moves[0] {
        case Rec(e) =>
          RecordMisses(s, e);
          if IsFull(s) {
            FullSlotTaken(s);
            MissingForever(t, moves[1..]);
            MissingUndelivered(After(s, moves));
          } else {
            FreeSlotFree(s);
            RecordKeepsStep(s, e);
            FinalDrain(t, moves[1..]);
          }
        case Drain =>
          DrainKeepsStep(s);
          DrainMissesNothing(s, s.writeIdx);
          FinalDrain(t, moves[1..]);
      }
    }
  }

  lemma InStepSize(s: Ring)
    requires InStep(s)
    ensures |s.slots| == MAX_PENDING
  {
  }

  lemma MissingUndelivered(s: Ring)
    requires |s.slots| == MAX_PENDING && Missing(s) >= 1
    ensures |Drained(s).delivered| < |s.claims|
  {
    hide ReadySlots, DrainedTo;
    DrainMissesNothing(s, s.writeIdx);
    DrainedKeeps(s, s.writeIdx);
  }

  /** After any run of handlers and drains, a closing drain has delivered every claim, in order, exactly when no event
      was recorded while 256 were outstanding: one such event and it never will again. */
  lemma DeliversAllIff(moves: seq<Move>)
    ensures Drained(After(Init(), moves)).delivered == After(Init(), moves).claims <==> NeverFull(Init(), moves)
  {
    InitInStep();
    assert ReadySlots(Init().slots) == {};
    FinalDrain(Init(), moves);
  }

  // ---------- What a full ring does ----------

  /** One event short: the indices differ, yet no slot is ready. */
  ghost predicate Jammed(s: Ring) {
    |s.slots| == MAX_PENDING && Ahead(s) == 1 && forall i :: 0 <= i < MAX_PENDING ==> !View(s)[i].ready
  }

  /** The drain after an event too many delivers it in the oldest one's place, then the others, and stops jammed: one
      event is gone, and the slot the reader waits for is empty though the indices differ. */
  lemma OverrunJams(s: Ring, e: Event)
    requires InStep(s) && |s.claims| - |s.delivered| == MAX_PENDING
    ensures var t := Drained(Recorded(s, e));
            && t.delivered == s.delivered + [e] + s.claims[|s.delivered| + 1..] && t.claims == s.claims + [e]
            && Jammed(t) && t.readIdx != t.writeIdx && !t.slots[t.readIdx % MAX_PENDING].ready
  {
    hide View, ER.Distance, DrainedTo, Recorded;
    var u := Recorded(s, e);
    ViewRecorded(s, e);
    RecordedCounts(s, e);
    DrainDeliversFront(u, u.writeIdx, MAX_PENDING);
    DrainedKeeps(u, u.writeIdx);
    var t := Drained(u);
    assert View(u)[..MAX_PENDING] == View(u);
    assert View(s)[..MAX_PENDING] == View(s);
    assert Fields(View(u)) == [e] + Fields(View(s))[1..];
    assert s.claims[|s.delivered|..][1..] == s.claims[|s.delivered| + 1..];
    assert s.delivered + ([e] + s.claims[|s.delivered| + 1..]) == s.delivered + [e] + s.claims[|s.delivered| + 1..];
    JammedHead(t);
  }

  lemma JammedHead(t: Ring)
    requires Jammed(t)
    ensures t.readIdx != t.writeIdx && !t.slots[t.readIdx % MAX_PENDING].ready
  {
    ViewHanded(t);
    ER.WriteSlot(t.writeIdx, t.readIdx);
    hide ER.Distance;
    assert !View(t)[0].ready;
  }

  function Recs(es: seq<Event>): (moves: seq<Move>)
    ensures |moves| == |es|
  {
    seq<Move>(|es|, i requires 0 <= i < |es| => Rec(es[i]))
  }

  /** Place, as the reader counts, of the i-th event recorded into a jammed ring. */
  function Place(i: nat): (p: nat)
    ensures p < MAX_PENDING
  {
    (1 + i) % MAX_PENDING
  }

  /** Events recorded one after another into a ring that is one ahead and holds `j` more. */
  lemma {:induction false} RecsFill(s: Ring, es: seq<Event>, j: nat)
    requires |s.slots| == MAX_PENDING && Ahead(s) == 1 + j && j + |es| <= MAX_PENDING
    ensures var t := After(s, Recs(es));
            && Ahead(t) == 1 + j + |es| && t.delivered == s.delivered && t.claims == s.claims + es &&
                 t.readIdx == s.readIdx
            && forall i: nat :: i < MAX_PENDING ==>
                 View(t)[Place(i)] == if j <= i < j + |es| then Slot(true, es[i - j]) else View(s)[Place(i)]
    decreases |es|
  {
    hide View, ER.Distance, Recorded;
    if es == [] {
      assert s.claims + es == s.claims;
    } else {
      var t := Recorded(s, es[0]);
      ViewRecorded(s, es[0]);
      RecordedCounts(s, es[0]);
      assert Recs(es)[1..] == Recs(es[1..]);
      RecsFill(t, es[1..], j + 1);
      assert s.claims + [es[0]] + es[1..] == s.claims + es;
      assert After(s, Recs(es)) == After(t, Recs(es[1..]));
    }
  }

  lemma PlaceOnto(p: nat)
    requires p < MAX_PENDING
    ensures exists i: nat :: i < MAX_PENDING && Place(i) == p
  {
    var i: nat := if p == 0 then MAX_PENDING - 1 else p - 1;
    assert Place(i) == p;
  }

  /** The reader waits at a slot that is not ready. */
  ghost predicate Blocked(s: Ring) {
    && WellTyped(s) && !s.slots[s.readIdx % MAX_PENDING].ready
    && (s.consumer.Idle? || ((s.consumer.Loaded? || s.consumer.Looping?) && s.consumer.r == s.readIdx))
  }

  lemma {:induction false} BlockedDeliversNothing(s: Ring, actions: seq<Action>)
    requires Blocked(s) && ConsumerOnly(actions) && Steps(s, actions).Some?
    ensures Steps(s, actions).value.delivered == s.delivered
    decreases |actions|
  {
    if actions != [] {
      assert actions[0] in actions;
      assert ConsumerOnly(actions[1..]);
      BlockedDeliversNothing(Apply(s, actions[0]).value, actions[1..]);
    }
  }

  /** A jammed ring holds back what is recorded next: with fewer than 256 further events no drain, however often it is
      tried, delivers any of them. */
  lemma JamHoldsBack(s: Ring, es: seq<Event>, actions: seq<Action>)
    requires Quiet(s) && Jammed(s) && |es| < MAX_PENDING
    requires ConsumerOnly(actions) && Steps(After(s, Recs(es)), actions).Some?
    ensures var t := After(s, Recs(es));
            && t.claims == s.claims + es && t.readIdx != t.writeIdx
            && Steps(t, actions).value.delivered == s.delivered
  {
    hide Steps, ER.Distance, ConsumerOnly;
    var t := After(s, Recs(es));
    RecsFill(s, es, 0);
    var first := MovesAreSteps(s, Recs(es));
    assert Place(MAX_PENDING - 1) == 0;
    ViewHanded(t);
    ER.WriteSlot(t.writeIdx, t.readIdx);
    BlockedDeliversNothing(t, actions);
  }

  /** The 256th releases them all, itself first, and leaves the ring as jammed as before: it stays out of step. */
  lemma JamReleasesRotated(s: Ring, es: seq<Event>)
    requires Jammed(s) && |es| == MAX_PENDING
    ensures var t := Drained(After(s, Recs(es)));
            t.delivered == s.delivered + [es[MAX_PENDING - 1]] + es[..MAX_PENDING - 1] && Jammed(t)
  {
    hide View, ER.Distance, DrainedTo;
    var u := After(s, Recs(es));
    RecsFill(s, es, 0);
    forall p | 0 <= p < MAX_PENDING
      ensures View(u)[p] == Slot(true, ([es[MAX_PENDING - 1]] + es[..MAX_PENDING - 1])[p])
    {
      PlaceOnto(p);
      var i: nat :| i < MAX_PENDING && Place(i) == p;
      assert View(u)[Place(i)] == Slot(true, es[i]);
    }
    DrainDeliversFront(u, u.writeIdx, MAX_PENDING);
    DrainedKeeps(u, u.writeIdx);
    assert View(u)[..MAX_PENDING] == View(u);
    assert Fields(View(u)) == [es[MAX_PENDING - 1]] + es[..MAX_PENDING - 1];
    assert s.delivered + ([es[MAX_PENDING - 1]] + es[..MAX_PENDING - 1])
        == s.delivered + [es[MAX_PENDING - 1]] + es[..MAX_PENDING - 1];
  }
}
