/** Runs of the access monitor. */
module MonitorRuns {
  import opened Results
  import opened Words
  import opened Sets
  import opened PageCover
  import opened EventRing
  import opened MonitorState

  /** One step: a call from the script, or a fault with the range the handler picks, if any. */
  datatype Op =
    | Enable(addresses: seq<u64>, sizes: seq<int>, segvId: nat, busId: nat)
    | Disable(id: nat)
    | DisableAll
    | Drain
    | Fault(address: u64, code: nat, hit: Option<(nat, nat)>)

  /** The handler skips a fault only when no unfired range contains it. */
  ghost predicate CanHappen(s: State, op: Op) {
    match op
    case Enable(addresses, sizes, _, _) => |addresses| == |sizes|
    case Fault(a, _, Some((id, i))) => Hits(s, a, id, i)
    case Fault(a, _, None) => !Watched(s.monitors, a)
    case _ => true
  }

  /** A claimed fault finds a free slot in the ring.  The handler does not look: PendingRing says what happens
      otherwise. */
  ghost predicate HasRoom(s: State, op: Op) {
    op.Fault? && op.hit.Some? ==> |s.pending| < CAPACITY
  }

  ghost predicate Possible(s: State, op: Op) {
    CanHappen(s, op) && HasRoom(s, op)
  }

  ghost function Apply(s: State, op: Op, pageSize: u64): State
    requires pageSize > 0 && CanHappen(s, op)
  {
    match op
    case Enable(addresses, sizes, segvId, busId) => Enabled(s, NewRanges(addresses, sizes, pageSize), segvId, busId)
    case Disable(id) => Disabled(s, id)
    case DisableAll => AllDisabled(s)
    case Drain => Drained(s)
    case Fault(a, code, Some((id, i))) => Fired(s, id, i, a, code)
    case Fault(_, _, None) => s
  }

  ghost predicate PossibleRun(s: State, ops: seq<Op>, pageSize: u64)
    requires pageSize > 0
    decreases |ops|
  {
    ops != [] ==> Possible(s, ops[0]) && PossibleRun(Apply(s, ops[0], pageSize), ops[1..], pageSize)
  }

  ghost function Run(s: State, ops: seq<Op>, pageSize: u64): State
    requires pageSize > 0 && PossibleRun(s, ops, pageSize)
    decreases |ops|
  {
    if ops == [] then s else Run(Apply(s, ops[0], pageSize), ops[1..], pageSize)
  }

  // ---------- The invariant is kept ----------

  lemma {:induction false} CallsAll(monitors: map<nat, Monitor>, events: seq<Event>)
    requires forall k :: 0 <= k < |events| ==> events[k].monitorId in monitors
    ensures Calls(monitors, events) == events
  {
    if events != [] {
      CallsAll(monitors, events[1..]);
      assert events == [events[0]] + events[1..];
    }
  }

  /** No pending event is dropped: they fit the ring, and the monitors of all of them are active. */
  lemma DrainLosesNothing(s: State)
    requires EventsOk(s) && |s.pending| <= CAPACITY
    ensures Drained(s) == s.(pending := [], delivered := s.delivered + s.pending)
    ensures Events(Drained(s)) == Events(s)
  {
    CallsAll(s.monitors, s.pending);
  }

  lemma DrainKeeps(s: State, original: map<nat, Prot>)
    requires Inv(s, original)
    ensures Inv(Drained(s), original)
  {
    DrainLosesNothing(s);
    var d := Drained(s);
    assert Events(d) == Events(s);
    forall k | 0 <= k < |Events(d)|
      ensures EventOk(d, Events(d)[k])
    {
      assert EventOk(s, Events(s)[k]);
    }
    assert PagesOk(d, original) by {
      forall p | p in d.pages
        ensures PageOk(d, original, p)
      {
        assert PageOk(s, original, p);
      }
    }
  }

  lemma EnableKeepsEvents(s: State, ranges: seq<WatchedRange>, segvId: nat, busId: nat)
    requires MonitorsOk(s) && EventsOk(s) && forall i :: 0 <= i < |ranges| ==> !ranges[i].fired
    ensures EventsOk(Enabled(s, ranges, segvId, busId))
  {
    var t := Enabled(s, ranges, segvId, busId);
    assert Events(t) == Events(s);
    forall k | 0 <= k < |Events(t)|
      ensures EventOk(t, Events(t)[k])
    {
      assert EventOk(s, Events(s)[k]);
    }
    forall k | 0 <= k < |t.pending|
      ensures t.pending[k].monitorId in t.monitors
    {
    }
    forall id, i: nat | id in t.monitors && i < |t.monitors[id].ranges| && t.monitors[id].ranges[i].fired
      ensures HasEvent(Events(t), id, i)
    {
      assert id in s.monitors && s.monitors[id].ranges[i].fired;
    }
  }

  /** Adding a monitor leaves what the others watch, and the new one watches its ranges. */
  lemma EnableWatches(s: State, ranges: seq<WatchedRange>, segvId: nat, busId: nat, p: int)
    requires MonitorsOk(s) && forall i :: 0 <= i < |ranges| ==> !ranges[i].fired
    ensures Watched(Enabled(s, ranges, segvId, busId).monitors, p) <==>
              Watched(s.monitors, p) || SomeContains(ranges, p)
  {
    var t := Enabled(s, ranges, segvId, busId);
    assert s.nextId !in s.monitors;
    assert t.monitors[s.nextId].ranges == ranges;
    if Watched(s.monitors, p) {
      var id :| id in s.monitors && MonitorWatches(s.monitors, id, p);
      assert MonitorWatches(t.monitors, id, p);
    }
    if SomeContains(ranges, p) {
      var i :| 0 <= i < |ranges| && ranges[i].Contains(p);
      assert ranges[i].Watches(p);
      assert MonitorWatches(t.monitors, s.nextId, p);
    }
    if Watched(t.monitors, p) && !SomeContains(ranges, p) {
      var id :| id in t.monitors && MonitorWatches(t.monitors, id, p);
      assert id != s.nextId;
      assert MonitorWatches(s.monitors, id, p);
    }
  }

  lemma EnableKeeps(s: State, ranges: seq<WatchedRange>, segvId: nat, busId: nat, original: map<nat, Prot>)
    requires Inv(s, original) && RangesOk(Monitor(ranges, segvId, busId))
    requires forall i :: 0 <= i < |ranges| ==> !ranges[i].fired
    ensures Inv(Enabled(s, ranges, segvId, busId), original)
  {
    var t := Enabled(s, ranges, segvId, busId);
    EnableKeepsEvents(s, ranges, segvId, busId);
    hide EventsOk, Watched, SomeContains;
    forall p | p in t.pages
      ensures PageOk(t, original, p)
    {
      assert PageOk(s, original, p);
      EnableWatches(s, ranges, segvId, busId, p);
    }
  }

  lemma FireKeepsEvents(s: State, id: nat, i: nat, a: u64, code: nat)
    requires MonitorsOk(s) && EventsOk(s) && Hits(s, a, id, i)
    ensures EventsOk(Fired(s, id, i, a, code))
  {
    var t := Fired(s, id, i, a, code);
    var r := s.monitors[id].ranges[i];
    var e := Event(id, a, r.pageBase, r.rangeIndex, code);
    assert RangesOk(s.monitors[id]);
    assert Events(t) == Events(s) + [e];
    forall k | 0 <= k < |Events(t)|
      ensures EventOk(t, Events(t)[k]) && (k < |Events(s)| ==> !SameRange(Events(t)[k], e))
    {
      if k < |Events(s)| {
        assert Events(t)[k] == Events(s)[k];
        assert EventOk(s, Events(s)[k]);
      }
    }
    forall id', i': nat | id' in t.monitors && i' < |t.monitors[id'].ranges| && t.monitors[id'].ranges[i'].fired
      ensures HasEvent(Events(t), id', i')
    {
      if id' == id && i' == i {
        assert Events(t)[|Events(s)|] == e;
      } else {
        assert s.monitors[id'].ranges[i'].fired;
        assert HasEvent(Events(s), id', i');
        var k :| 0 <= k < |Events(s)| && Events(s)[k].monitorId == id' && Events(s)[k].rangeIndex == i';
        assert Events(t)[k] == Events(s)[k];
      }
    }
  }

  /** A watcher of `p` other than one given range. */
  ghost predicate WatchedByOther(monitors: map<nat, Monitor>, id: nat, i: nat, p: int) {
    exists id', i': nat :: id' in monitors && i' < |monitors[id'].ranges| && (id' != id || i' != i) &&
      monitors[id'].ranges[i'].Watches(p)
  }

  /** Firing one range takes it, and no other, out of what is watched. */
  lemma FireWatches(s: State, id: nat, i: nat, a: u64, code: nat, p: int)
    requires id in s.monitors && i < |s.monitors[id].ranges|
    ensures Watched(Fired(s, id, i, a, code).monitors, p) <==> WatchedByOther(s.monitors, id, i, p)
    ensures WatchedByOther(s.monitors, id, i, p) ==> Watched(s.monitors, p)
    ensures Watched(s.monitors, p) ==> WatchedByOther(s.monitors, id, i, p) || s.monitors[id].ranges[i].Watches(p)
  {
    var ms := Fired(s, id, i, a, code).monitors;
    if WatchedByOther(s.monitors, id, i, p) {
      var id', i': nat :| id' in s.monitors && i' < |s.monitors[id'].ranges| && (id' != id || i' != i) &&
        s.monitors[id'].ranges[i'].Watches(p);
      assert ms[id'].ranges[i'].Watches(p);
      assert MonitorWatches(ms, id', p) && MonitorWatches(s.monitors, id', p);
    }
    if Watched(ms, p) {
      var id' :| id' in ms && MonitorWatches(ms, id', p);
      var i' :| 0 <= i' < |ms[id'].ranges| && ms[id'].ranges[i'].Watches(p);
      assert s.monitors[id'].ranges[i'].Watches(p) && (id' != id || i' != i);
    }
    if Watched(s.monitors, p) {
      var id' :| id' in s.monitors && MonitorWatches(s.monitors, id', p);
      var i' :| 0 <= i' < |s.monitors[id'].ranges| && s.monitors[id'].ranges[i'].Watches(p);
    }
  }

  lemma FireKeeps(s: State, id: nat, i: nat, a: u64, code: nat, original: map<nat, Prot>)
    requires Inv(s, original) && Hits(s, a, id, i) && |s.pending| < CAPACITY
    ensures Inv(Fired(s, id, i, a, code), original)
  {
    var t := Fired(s, id, i, a, code);
    FireKeepsEvents(s, id, i, a, code);
    hide EventsOk, Watched, WatchedByOther;
    assert RangesOk(s.monitors[id]);
    forall p | p in t.pages
      ensures PageOk(t, original, p)
    {
      assert PageOk(s, original, p);
      FireWatches(s, id, i, a, code, p);
      WatcherWatches(s.monitors, id, i, p);
    }
  }

  lemma WatcherWatches(monitors: map<nat, Monitor>, id: nat, i: nat, p: int)
    requires id in monitors && i < |monitors[id].ranges|
    ensures monitors[id].ranges[i].Watches(p) ==> Watched(monitors, p)
  {
    if monitors[id].ranges[i].Watches(p) {
      assert MonitorWatches(monitors, id, p);
    }
  }

  lemma DropKeepsEvents(s: State, monitors: map<nat, Monitor>, pages: map<nat, Prot>)
    requires EventsOk(s) && s.pending == [] && monitors.Keys <= s.monitors.Keys
    requires forall id :: id in monitors ==> monitors[id] == s.monitors[id]
    ensures EventsOk(s.(monitors := monitors, pages := pages))
  {
    var t := s.(monitors := monitors, pages := pages);
    assert Events(t) == Events(s);
    forall k | 0 <= k < |Events(t)|
      ensures EventOk(t, Events(t)[k])
    {
      assert EventOk(s, Events(s)[k]);
    }
    forall id, i: nat | id in t.monitors && i < |t.monitors[id].ranges| && t.monitors[id].ranges[i].fired
      ensures HasEvent(Events(t), id, i)
    {
      assert s.monitors[id].ranges[i].fired;
    }
  }

  lemma RemovedWatches(monitors: map<nat, Monitor>, id: nat, p: int)
    requires id in monitors
    ensures Watched(monitors, p) <==> SomeWatches(monitors[id].ranges, p) || Watched(monitors - {id}, p)
  {
    var rest := monitors - {id};
    if Watched(monitors, p) && !SomeWatches(monitors[id].ranges, p) {
      var id' :| id' in monitors && MonitorWatches(monitors, id', p);
      assert MonitorWatches(rest, id', p);
    }
    if Watched(rest, p) {
      var id' :| id' in rest && MonitorWatches(rest, id', p);
      assert MonitorWatches(monitors, id', p);
    }
    if SomeWatches(monitors[id].ranges, p) {
      assert MonitorWatches(monitors, id, p);
    }
  }

  lemma DisableKeeps(s: State, id: nat, original: map<nat, Prot>)
    requires Inv(s, original)
    ensures Inv(Disabled(s, id), original)
  {
    DrainKeeps(s, original);
    var d := Drained(s);
    if id in d.monitors {
      var t := Disabled(s, id);
      DropKeepsEvents(d, t.monitors, t.pages);
      hide EventsOk, Watched, Drained;
      forall p | p in t.pages
        ensures PageOk(t, original, p)
      {
        assert PageOk(d, original, p);
        RemovedWatches(d.monitors, id, p);
      }
    }
  }

  lemma DisableAllKeeps(s: State, original: map<nat, Prot>)
    requires Inv(s, original)
    ensures Inv(AllDisabled(s), original)
  {
    DrainKeeps(s, original);
    var d := Drained(s);
    var t := AllDisabled(s);
    DropKeepsEvents(d, t.monitors, t.pages);
    hide EventsOk, Drained;
    forall p | p in t.pages
      ensures PageOk(t, original, p)
    {
      assert PageOk(d, original, p);
    }
  }

  lemma StepKeeps(s: State, op: Op, pageSize: u64, original: map<nat, Prot>)
    requires pageSize > 0 && Possible(s, op) && Inv(s, original)
    ensures Inv(Apply(s, op, pageSize), original)
  {
    hide Inv, Enabled, Fired, Disabled, AllDisabled, Drained;
    match op
    case Enable(addresses, sizes, segvId, busId) =>
      EnableKeeps(s, NewRanges(addresses, sizes, pageSize), segvId, busId, original);
    case Disable(id) => DisableKeeps(s, id, original);
    case DisableAll => DisableAllKeeps(s, original);
    case Drain => DrainKeeps(s, original);
    case Fault(a, code, Some((id, i))) => FireKeeps(s, id, i, a, code, original);
    case Fault(_, _, None) =>
  }

  lemma {:induction false} RunKeeps(s: State, ops: seq<Op>, pageSize: u64, original: map<nat, Prot>)
    requires pageSize > 0 && PossibleRun(s, ops, pageSize) && Inv(s, original)
    ensures Inv(Run(s, ops, pageSize), original)
    decreases |ops|
  {
    hide Inv, Apply, CanHappen, HasRoom;
    if ops != [] {
      StepKeeps(s, ops[0], pageSize, original);
      RunKeeps(Apply(s, ops[0], pageSize), ops[1..], pageSize, original);
    }
  }

  lemma InitInv(original: map<nat, Prot>)
    ensures Inv(Init(original), original)
  {
    var s := Init(original);
    forall p | p in s.pages
      ensures PageOk(s, original, p)
    {
    }
  }

  // ---------- What every run keeps ----------

  /** On every run that meets no full ring, overlapping ranges or not: each range of each monitor is reported at
      most once, whether still pending or already delivered; a range is fired exactly when its event was recorded;
      every pending event belongs to an active monitor; and a page the engine closed belongs to an unfired range of
      an active one. */
  lemma MonitorSafety(pages: map<nat, Prot>, ops: seq<Op>, pageSize: u64)
    requires pageSize > 0 && PossibleRun(Init(pages), ops, pageSize)
    ensures var s := Run(Init(pages), ops, pageSize);
            && (forall i, j :: 0 <= i < j < |Events(s)| ==> !SameRange(Events(s)[i], Events(s)[j]))
            && (forall id, i: nat :: id in s.monitors && i < |s.monitors[id].ranges| ==>
                  (s.monitors[id].ranges[i].fired <==> HasEvent(Events(s), id, i)))
            && (forall k :: 0 <= k < |s.pending| ==> s.pending[k].monitorId in s.monitors)
            && s.pages.Keys == pages.Keys
            && (forall p :: p in pages && s.pages[p] != pages[p] && s.pages[p] != READ_WRITE ==>
                  s.pages[p] == NO_ACCESS && Watched(s.monitors, p))
  {
    InitInv(pages);
    RunKeeps(Init(pages), ops, pageSize, pages);
    var s := Run(Init(pages), ops, pageSize);
    forall id, i: nat | id in s.monitors && i < |s.monitors[id].ranges| && HasEvent(Events(s), id, i)
      ensures s.monitors[id].ranges[i].fired
    {
      var k :| 0 <= k < |Events(s)| && Events(s)[k].monitorId == id && Events(s)[k].rangeIndex == i;
      assert EventOk(s, Events(s)[k]);
    }
    forall p | p in pages
      ensures PageOk(s, pages, p)
    {
    }
  }

  /** After everything is disabled, protections are the original ones exactly when every page that was ever
      watched was readable and writable, and nothing else, to begin with. */
  lemma RestoredIff(s: State, original: map<nat, Prot>)
    requires Inv(s, original)
    ensures AllDisabled(s).pages == original <==>
              forall p :: p in s.touched ==> p in original && original[p] == READ_WRITE
    ensures AllDisabled(s).monitors == map[] && AllDisabled(s).pending == []
    ensures AllDisabled(s).delivered == s.delivered + s.pending
  {
    DisableAllKeeps(s, original);
    DrainLosesNothing(s);
    var t := AllDisabled(s);
    hide Inv, EventsOk, Drained, AllDisabled;
    assert t.touched == s.touched && t.monitors == map[] && PagesOk(t, original) by {
      AllDisabledParts(s, original);
    }
    forall p | p in t.pages
      ensures t.pages[p] == if p in s.touched then READ_WRITE else original[p]
    {
      assert PageOk(t, original, p) && !Watched(t.monitors, p);
    }
    if t.pages == original {
      forall p | p in s.touched
        ensures p in original && original[p] == READ_WRITE
      {
        assert p in t.pages;
      }
    }
  }

  lemma AllDisabledParts(s: State, original: map<nat, Prot>)
    requires Inv(AllDisabled(s), original)
    ensures AllDisabled(s).touched == s.touched && AllDisabled(s).monitors == map[] && PagesOk(AllDisabled(s), original)
  {
  }

  /** Disabling one monitor delivers what is pending, gives its unfired pages back, and changes no page and no
      monitor besides. */
  lemma DisableTouchesOnlyItsOwn(s: State, id: nat, original: map<nat, Prot>)
    requires Inv(s, original) && id in s.monitors
    ensures var t := Disabled(s, id);
            && t.monitors == s.monitors - {id}
            && t.pending == [] && t.delivered == s.delivered + s.pending
            && t.pages.Keys == s.pages.Keys
            && (forall p :: p in s.pages ==>
                  t.pages[p] == if SomeWatches(s.monitors[id].ranges, p) then READ_WRITE else s.pages[p])
  {
    DrainLosesNothing(s);
  }

  // ---------- Exactness ----------

  /** Every watched page is closed. */
  ghost predicate Exact(s: State) {
    forall p :: p in s.pages && Watched(s.monitors, p) ==> s.pages[p] == NO_ACCESS
  }

  /** Handling a fault leaves every still watched page closed exactly when no other unfired range shares a page
      with the one that fired. */
  lemma FiringKeepsExactIff(s: State, id: nat, i: nat, a: u64, code: nat)
    requires MonitorsOk(s) && Exact(s) && Hits(s, a, id, i)
    ensures Exact(Fired(s, id, i, a, code)) <==>
              forall p :: p in s.pages && s.monitors[id].ranges[i].Contains(p) ==> !WatchedByOther(s.monitors, id, i, p)
  {
    hide Watched, WatchedByOther;
    var t := Fired(s, id, i, a, code);
    assert RangesOk(s.monitors[id]);
    forall p | p in s.pages
      ensures Watched(t.monitors, p) <==> WatchedByOther(s.monitors, id, i, p)
      ensures Watched(t.monitors, p) ==> Watched(s.monitors, p)
      ensures t.pages[p] == if s.monitors[id].ranges[i].Contains(p) then READ_WRITE else s.pages[p]
    {
      FireWatches(s, id, i, a, code, p);
    }
  }

  /** The same for disabling a monitor. */
  lemma DisablingKeepsExactIff(s: State, id: nat)
    requires Exact(s) && id in s.monitors
    ensures Exact(Disabled(s, id)) <==>
              forall p :: p in s.pages && SomeWatches(s.monitors[id].ranges, p) ==> !Watched(s.monitors - {id}, p)
  {
    hide Watched, SomeWatches;
    var t := Disabled(s, id);
    forall p | p in s.pages
      ensures Watched(t.monitors, p) ==> Watched(s.monitors, p)
      ensures t.pages[p] == if SomeWatches(s.monitors[id].ranges, p) then READ_WRITE else s.pages[p]
    {
      RemovedWatches(s.monitors, id, p);
    }
  }

  /** No page has two watchers. */
  ghost predicate Disjoint(s: State) {
    forall p, id, i: nat, id', i': nat ::
      p in s.pages && Watcher(s, id, i, p) && Watcher(s, id', i', p) ==> id == id' && i == i'
  }

  predicate Watcher(s: State, id: nat, i: nat, p: int) {
    id in s.monitors && i < |s.monitors[id].ranges| && s.monitors[id].ranges[i].Watches(p)
  }

  /** New ranges share no page with each other or with a watched range. */
  ghost predicate Apart(s: State, op: Op, pageSize: u64)
    requires pageSize > 0 && Possible(s, op)
  {
    op.Enable? ==>
      var ranges := NewRanges(op.addresses, op.sizes, pageSize);
      && (forall p :: p in s.pages && SomeContains(ranges, p) ==> !Watched(s.monitors, p))
      && (forall p, i, j | p in s.pages && 0 <= i < |ranges| && 0 <= j < |ranges| ::
            ranges[i].Contains(p) && ranges[j].Contains(p) ==> i == j)
  }

  ghost predicate ApartRun(s: State, ops: seq<Op>, pageSize: u64)
    requires pageSize > 0 && PossibleRun(s, ops, pageSize)
    decreases |ops|
  {
    ops != [] ==> Apart(s, ops[0], pageSize) && ApartRun(Apply(s, ops[0], pageSize), ops[1..], pageSize)
  }

  lemma WatcherIsWatched(s: State, id: nat, i: nat, p: int)
    requires Watcher(s, id, i, p)
    ensures Watched(s.monitors, p)
  {
    assert MonitorWatches(s.monitors, id, p);
  }

  lemma EnableKeepsExact(s: State, op: Op, pageSize: u64)
    requires pageSize > 0 && Possible(s, op) && Apart(s, op, pageSize) && op.Enable?
    requires MonitorsOk(s) && Exact(s) && Disjoint(s)
    ensures Exact(Apply(s, op, pageSize)) && Disjoint(Apply(s, op, pageSize))
  {
    hide Watched, SomeContains;
    var ranges := NewRanges(op.addresses, op.sizes, pageSize);
    var t := Apply(s, op, pageSize);
    forall p | p in t.pages && Watched(t.monitors, p)
      ensures t.pages[p] == NO_ACCESS
    {
      EnableWatches(s, ranges, op.segvId, op.busId, p);
    }
    assert t.monitors[s.nextId].ranges == ranges;
    forall p, id, i: nat, id', i': nat | p in t.pages && Watcher(t, id, i, p) && Watcher(t, id', i', p)
      ensures id == id' && i == i'
    {
      NewOrOldWatcher(s, ranges, op.segvId, op.busId, id, i, p);
      NewOrOldWatcher(s, ranges, op.segvId, op.busId, id', i', p);
    }
  }

  lemma NewOrOldWatcher(s: State, ranges: seq<WatchedRange>, segvId: nat, busId: nat, id: nat, i: nat, p: int)
    requires Watcher(Enabled(s, ranges, segvId, busId), id, i, p)
    ensures if id == s.nextId then i < |ranges| && ranges[i].Contains(p) && SomeContains(ranges, p)
            else Watcher(s, id, i, p) && Watched(s.monitors, p)
  {
    if id != s.nextId {
      WatcherIsWatched(s, id, i, p);
    }
  }

  lemma RestKeepsExact(s: State, op: Op, pageSize: u64)
    requires pageSize > 0 && Possible(s, op) && !op.Enable?
    requires MonitorsOk(s) && Exact(s) && Disjoint(s)
    ensures Exact(Apply(s, op, pageSize)) && Disjoint(Apply(s, op, pageSize))
  {
    var t := Apply(s, op, pageSize);
    forall id, i: nat, p | Watcher(t, id, i, p)
      ensures Watcher(s, id, i, p)
    {
    }
    match op
    case Fault(a, code, Some((id, i))) =>
      forall p | p in s.pages && s.monitors[id].ranges[i].Contains(p)
        ensures !WatchedByOther(s.monitors, id, i, p)
      {
        OnlyWatcher(s, id, i, p);
      }
      FiringKeepsExactIff(s, id, i, a, code);
    case Disable(id) =>
      if id in s.monitors {
        forall p | p in s.pages && SomeWatches(s.monitors[id].ranges, p)
          ensures !Watched(s.monitors - {id}, p)
        {
          NoOtherMonitor(s, id, p);
        }
        DisablingKeepsExactIff(s, id);
      }
    case _ =>
  }

  lemma OnlyWatcher(s: State, id: nat, i: nat, p: nat)
    requires Disjoint(s) && p in s.pages && Watcher(s, id, i, p)
    ensures !WatchedByOther(s.monitors, id, i, p)
  {
    forall id', i': nat | id' in s.monitors && i' < |s.monitors[id'].ranges| && (id' != id || i' != i)
      ensures !s.monitors[id'].ranges[i'].Watches(p)
    {
      assert !Watcher(s, id', i', p);
    }
  }

  lemma NoOtherMonitor(s: State, id: nat, p: nat)
    requires Disjoint(s) && p in s.pages && id in s.monitors && SomeWatches(s.monitors[id].ranges, p)
    ensures !Watched(s.monitors - {id}, p)
  {
    var rest := s.monitors - {id};
    var i: nat :| i < |s.monitors[id].ranges| && s.monitors[id].ranges[i].Watches(p);
    assert Watcher(s, id, i, p);
    forall id', i': nat | id' in rest && i' < |rest[id'].ranges|
      ensures !rest[id'].ranges[i'].Watches(p)
    {
      assert !Watcher(s, id', i', p);
    }
  }

  lemma {:induction false} RunKeepsExact(s: State, ops: seq<Op>, pageSize: u64, original: map<nat, Prot>)
    requires pageSize > 0 && PossibleRun(s, ops, pageSize) && ApartRun(s, ops, pageSize)
    requires Inv(s, original) && Exact(s) && Disjoint(s)
    ensures Exact(Run(s, ops, pageSize))
    decreases |ops|
  {
    hide EventsOk, PagesOk, Apply, CanHappen, HasRoom, Apart, Exact, Disjoint;
    if ops != [] {
      StepKeeps(s, ops[0], pageSize, original);
      if ops[0].Enable? {
        EnableKeepsExact(s, ops[0], pageSize);
      } else {
        RestKeepsExact(s, ops[0], pageSize);
      }
      RunKeepsExact(Apply(s, ops[0], pageSize), ops[1..], pageSize, original);
    }
  }

  /** On every run whose ranges share no page, over pages that are accessible at first: a page is inaccessible
      exactly when it belongs to an unfired range of an active monitor. */
  lemma InaccessibleIffWatched(pages: map<nat, Prot>, ops: seq<Op>, pageSize: u64, p: nat)
    requires pageSize > 0 && PossibleRun(Init(pages), ops, pageSize) && ApartRun(Init(pages), ops, pageSize)
    requires forall q :: q in pages ==> pages[q] != Prot(false, false, false)
    requires p in pages
    ensures var s := Run(Init(pages), ops, pageSize);
            p in s.pages && (s.pages[p] == Prot(false, false, false) <==> Watched(s.monitors, p))
  {
    InitInv(pages);
    RunKeeps(Init(pages), ops, pageSize, pages);
    RunKeepsExact(Init(pages), ops, pageSize, pages);
    assert PageOk(Run(Init(pages), ops, pageSize), pages, p);
  }

  const READ_ONLY := Prot(true, false, false)

  /** A read-only page, watched for a while and given back: it has become writable. */
  lemma ReadOnlyPageBecomesWritable(a: u64, n: u32, pageSize: nat)
    requires PageSize(pageSize) && 0 < n < TWO_31 && a + n + pageSize < TWO_64
    ensures 0 < pageSize < TWO_64
    ensures var p := RoundDown(a, pageSize);
            var ops := [Enable([a], [n], 1, 2), DisableAll];
            && PossibleRun(Init(map[p := READ_ONLY]), ops, pageSize)
            && Run(Init(map[p := READ_ONLY]), ops, pageSize).pages == map[p := Prot(true, true, false)]
  {
    PageSizeIsWord(pageSize);
    NewRangeCovers(a, n, 0, pageSize);
    hide RoundDown, PageSize, NewRange;
    var p := RoundDown(a, pageSize);
    var s := Init(map[p := READ_ONLY]);
    var ops := [Enable([a], [n], 1, 2), DisableAll];
    var ranges := NewRanges([a], [n], pageSize);
    var t := Enabled(s, ranges, 1, 2);
    assert ranges[0].Watches(p);
    assert t.pages == map[p := NO_ACCESS];
    assert MonitorWatches(t.monitors, 1, p);
    assert AllDisabled(t).pages == map[p := READ_WRITE];
    assert ops[1..] == [DisableAll] && ops[1..][1..] == [];
    assert Apply(s, ops[0], pageSize) == t && Apply(t, ops[1], pageSize) == AllDisabled(t);
    assert PossibleRun(AllDisabled(t), [], pageSize);
    assert Run(t, ops[1..], pageSize) == Run(AllDisabled(t), ops[1..][1..], pageSize);
  }

  /** Two ranges on one page: after the first is hit the page is open, and the second can no longer see an access
      although it has not fired. */
  lemma SecondRangeGoesBlind(a: u64, n: u32, pageSize: nat)
    requires PageSize(pageSize) && 0 < n < TWO_31 && a + n + pageSize < TWO_64
    ensures 0 < pageSize < TWO_64
    ensures var p := RoundDown(a, pageSize);
            var s := Enabled(Init(map[p := READ_WRITE]), NewRanges([a, a], [n, n], pageSize), 1, 2);
            Hits(s, a, 1, 0) && var t := Fired(s, 1, 0, a, 1);
            Watched(t.monitors, p) && t.pages[p] == Prot(true, true, false)
  {
    PageSizeIsWord(pageSize);
    NewRangeCovers(a, n, 0, pageSize);
    NewRangeCovers(a, n, 1, pageSize);
    hide RoundDown, PageSize, NewRange;
    var p := RoundDown(a, pageSize);
    var ranges := NewRanges([a, a], [n, n], pageSize);
    BothRanges(ranges, p, a);
  }

  lemma BothRanges(ranges: seq<WatchedRange>, p: nat, a: u64)
    requires |ranges| == 2 && ranges[0].Watches(a) && ranges[0].Contains(p) && ranges[1].Watches(p)
    requires ranges[0].originalProt == READ_WRITE
    ensures var s := Enabled(Init(map[p := READ_WRITE]), ranges, 1, 2);
            Hits(s, a, 1, 0) && var t := Fired(s, 1, 0, a, 1); Watched(t.monitors, p) && t.pages[p] == READ_WRITE
  {
    var s := Enabled(Init(map[p := READ_WRITE]), ranges, 1, 2);
    var t := Fired(s, 1, 0, a, 1);
    assert t.monitors[1].ranges[1] == ranges[1];
    assert MonitorWatches(t.monitors, 1, p);
  }

  lemma NewRangeCovers(a: u64, n: u32, index: nat, pageSize: nat)
    requires PageSize(pageSize) && 0 < n < TWO_31 && a + n + pageSize < TWO_64
    ensures 0 < pageSize < TWO_64
    ensures var r := NewRange(a, n, index, pageSize);
            r.Watches(a) && r.Watches(RoundDown(a, pageSize)) && r.originalProt == READ_WRITE
  {
    hide PageSize, RoundDown, MaskToPage, WatchedSpan;
    PageSizeIsWord(pageSize);
    SpanCovers(a, n, pageSize);
  }

  lemma SpanCovers(a: u64, n: u32, pageSize: u64)
    requires pageSize > 0 && PageSize(pageSize) && a + n + pageSize < TWO_64
    ensures var span := WatchedSpan(a, n, pageSize);
            span.base == RoundDown(a, pageSize) <= a && a + n <= span.base + span.size < TWO_64
  {
    hide PageSize, RoundDown, MaskToPage, WatchedSpan, Aligned;
    MaskIsRoundDown(a, pageSize);
    RoundDownFacts(a, pageSize);
    InPage(a, pageSize);
    WatchedSpanIsLeastCover(a, n, pageSize);
    WatchedBase(a, n, pageSize);
    WatchedEnd(a, n, pageSize);
  }

  lemma InPage(a: nat, pageSize: nat)
    requires pageSize > 0
    ensures a % pageSize <= a
  {
  }

  lemma WatchedBase(a: u64, n: u64, pageSize: u64)
    requires pageSize > 0
    ensures WatchedSpan(a, n, pageSize).base == MaskToPage(a, pageSize)
  {
  }

  lemma WatchedEnd(a: u64, n: u64, pageSize: nat)
    requires PageSize(pageSize) && a + n + pageSize < TWO_64
    ensures 0 < pageSize < TWO_64
    ensures var span := WatchedSpan(a, n, pageSize); span.base + span.size < TWO_64
  {
    hide PageSize, RoundDown, MaskToPage;
    MaskIsRoundDown(a, pageSize);
    RoundDownFacts(a, pageSize);
    var need := a + n - RoundDown(a, pageSize) + pageSize - 1;
    MaskIsRoundDown(need, pageSize);
    RoundDownFacts(need, pageSize);
  }

  // ---------- Which pages are closed ----------

  /** Some byte of the page is among the given ones. */
  predicate Overlaps(p: nat, pageSize: nat, a: nat, n: int) {
    p < a + n && a < p + pageSize
  }

  /** Enabling a monitor closes exactly the pages that some watched byte lies on. */
  lemma EnableClosesExactly(
      s: State, addresses: seq<u64>, sizes: seq<int>, segvId: nat, busId: nat, pageSize: nat, p: nat)
    requires PageSize(pageSize) && |addresses| == |sizes|
    requires forall i :: 0 <= i < |addresses| ==> 0 < sizes[i] < TWO_31 && addresses[i] + sizes[i] + pageSize < TWO_64
    requires p in s.pages && p % pageSize == 0
    ensures 0 < pageSize < TWO_64
    ensures var t := Enabled(s, NewRanges(addresses, sizes, pageSize), segvId, busId);
            p in t.pages && t.pages[p] ==
              if exists i :: 0 <= i < |addresses| && Overlaps(p, pageSize, addresses[i], sizes[i])
              then Prot(false, false, false) else s.pages[p]
  {
    PageSizeIsWord(pageSize);
    var ranges := NewRanges(addresses, sizes, pageSize);
    assert Aligned(p, pageSize);
    hide PageSize, NewRange, Overlaps, Aligned;
    forall i | 0 <= i < |addresses|
      ensures ranges[i].Contains(p) <==> Overlaps(p, pageSize, addresses[i], sizes[i])
    {
      NewRangeHolds(addresses[i], sizes[i], i, pageSize, p);
    }
  }

  /** A range holds exactly the pages its bytes lie on, whole. */
  lemma NewRangeHolds(a: u64, n: u32, index: nat, pageSize: nat, p: nat)
    requires PageSize(pageSize) && 0 < n < TWO_31 && a + n + pageSize < TWO_64
    requires 0 < pageSize < TWO_64 && Aligned(p, pageSize)
    ensures NewRange(a, n, index, pageSize).Contains(p) <==> Overlaps(p, pageSize, a, n)
  {
    hide PageSize, MaskToPage, WatchedSpan, Aligned, RoundDown;
    SpanCovers(a, n, pageSize);
    RoundDownFacts(a, pageSize);
    SpanIsLeast(a, n, pageSize, p);
    var base := WatchedSpan(a, n, pageSize).base;
    if p < base {
      MultiplesApart(p, base, pageSize);
    }
  }

  lemma SpanIsLeast(a: u64, n: u32, pageSize: u64, p: nat)
    requires pageSize > 0 && PageSize(pageSize) && a + n + pageSize < TWO_64 && Aligned(p, pageSize)
    ensures var span := WatchedSpan(a, n, pageSize);
            Aligned(span.base, pageSize) && (a + n <= p ==> span.base + span.size <= p)
  {
    hide PageSize, MaskToPage, WatchedSpan, RoundDown;
    SpanCovers(a, n, pageSize);
    InPage(a, pageSize);
    WatchedSpanIsLeastCover(a, n, pageSize);
    var span := WatchedSpan(a, n, pageSize);
    hide Aligned;
    if a + n <= p {
      assert span.base <= a && Aligned(span.base, pageSize) && Aligned(p, pageSize);
    }
  }

  // ---------- Faults ----------

  /** Ranges start and end on page boundaries. */
  ghost predicate AlignedRange(r: WatchedRange, pageSize: nat)
    requires pageSize > 0
  {
    Aligned(r.pageBase, pageSize) && Aligned(r.pageSize, pageSize) && r.pageBase < TWO_64 && r.pageSize < TWO_64
  }

  ghost predicate AllAligned(s: State, pageSize: nat)
    requires pageSize > 0
  {
    forall id, i: nat :: id in s.monitors && i < |s.monitors[id].ranges| ==>
      AlignedRange(s.monitors[id].ranges[i], pageSize)
  }

  lemma NewRangeAligned(address: u64, size: int, index: nat, pageSize: nat)
    requires PageSize(pageSize)
    ensures 0 < pageSize < TWO_64 && AlignedRange(NewRange(address, size, index, pageSize), pageSize)
  {
    MaskIsRoundDown(address, pageSize);
    RoundDownFacts(address, pageSize);
    var need := Wrap(address + Wrap(size) - RoundDown(address, pageSize) + pageSize - 1);
    MaskIsRoundDown(need, pageSize);
    RoundDownFacts(need, pageSize);
  }

  lemma StepKeepsAligned(s: State, op: Op, pageSize: nat)
    requires PageSize(pageSize) && 0 < pageSize < TWO_64 && Possible(s, op) && AllAligned(s, pageSize)
    ensures AllAligned(Apply(s, op, pageSize), pageSize)
  {
    hide PageSize, Aligned, NewRange;
    if op.Enable? {
      forall i: nat | i < |op.addresses|
        ensures AlignedRange(NewRange(op.addresses[i], op.sizes[i], i, pageSize), pageSize)
      {
        NewRangeAligned(op.addresses[i], op.sizes[i], i, pageSize);
      }
    }
  }

  lemma {:induction false} RunKeepsAligned(s: State, ops: seq<Op>, pageSize: nat)
    requires PageSize(pageSize) && 0 < pageSize < TWO_64 && PossibleRun(s, ops, pageSize) && AllAligned(s, pageSize)
    ensures AllAligned(Run(s, ops, pageSize), pageSize)
    decreases |ops|
  {
    hide PageSize, AllAligned, Apply, CanHappen, HasRoom;
    if ops != [] {
      StepKeepsAligned(s, ops[0], pageSize);
      RunKeepsAligned(Apply(s, ops[0], pageSize), ops[1..], pageSize);
    }
  }

  /** A page-aligned range contains all of a page or none of it. */
  lemma ContainsWholePage(r: WatchedRange, pageSize: nat, p: nat, a: nat)
    requires PageSize(pageSize) && 0 < pageSize && AlignedRange(r, pageSize) && Aligned(p, pageSize) &&
               p <= a < p + pageSize
    ensures r.Contains(a) <==> r.Contains(p)
  {
    var end := r.pageBase + r.pageSize;
    SumAligned(r.pageBase, r.pageSize, pageSize);
    hide Aligned, PageSize;
    if end < TWO_64 {
      assert Wrap(end) == end;
      if r.pageBase > p {
        MultiplesApart(p, r.pageBase, pageSize);
      }
      if end > p {
        MultiplesApart(p, end, pageSize);
      }
    } else {
      assert Wrap(end) == end - TWO_64;
    }
  }

  lemma FirstWatcher(ranges: seq<WatchedRange>, a: int) returns (i: nat)
    requires SomeWatches(ranges, a)
    ensures i < |ranges| && ranges[i].Watches(a) && forall j :: 0 <= j < i ==> !ranges[j].Watches(a)
  {
    i := 0;
    while !ranges[i].Watches(a)
      invariant i < |ranges| && forall j :: 0 <= j < i ==> !ranges[j].Watches(a)
      invariant exists k :: i <= k < |ranges| && ranges[k].Watches(a)
      decreases |ranges| - i
    {
      i := i + 1;
    }
  }

  /** An access anywhere on a page the engine closed is claimed by the handler, and whichever range it picks, the
      page is open when the instruction runs again. */
  lemma FaultIsResolved(pages: map<nat, Prot>, ops: seq<Op>, pageSize: nat, p: nat, a: nat)
    requires PageSize(pageSize) && 0 < pageSize < TWO_64 && PossibleRun(Init(pages), ops, pageSize)
    requires p in pages && Aligned(p, pageSize) && p <= a < p + pageSize && a < TWO_64
    requires var s := Run(Init(pages), ops, pageSize);
             p in s.pages && s.pages[p] == Prot(false, false, false) && p in s.touched
    ensures var s := Run(Init(pages), ops, pageSize);
            && (exists id, i: nat :: Hits(s, a, id, i))
            && forall id, i: nat, code :: Hits(s, a, id, i) ==>
                 p in Fired(s, id, i, a, code).pages && Fired(s, id, i, a, code).pages[p] == Prot(true, true, false)
  {
    var s := Run(Init(pages), ops, pageSize);
    InitInv(pages);
    RunKeeps(Init(pages), ops, pageSize, pages);
    RunKeepsAligned(Init(pages), ops, pageSize);
    assert PageOk(s, pages, p);
    ClosedPageHit(s, pageSize, p, a);
  }

  lemma ClosedPageHit(s: State, pageSize: nat, p: nat, a: u64)
    requires PageSize(pageSize) && pageSize > 0 && AllAligned(s, pageSize) && MonitorsOk(s)
    requires p in s.pages && Watched(s.monitors, p) && Aligned(p, pageSize) && p <= a < p + pageSize
    ensures exists id, i: nat :: Hits(s, a, id, i)
    ensures forall id, i: nat, code :: Hits(s, a, id, i) ==>
              p in Fired(s, id, i, a, code).pages && Fired(s, id, i, a, code).pages[p] == READ_WRITE
  {
    hide PageSize, Aligned;
    var id :| id in s.monitors && MonitorWatches(s.monitors, id, p);
    var ranges := s.monitors[id].ranges;
    var k: nat :| k < |ranges| && ranges[k].Watches(p);
    ContainsWholePage(ranges[k], pageSize, p, a);
    var i := FirstWatcher(ranges, a);
    assert Hits(s, a, id, i);
    forall id, i: nat, code | Hits(s, a, id, i)
      ensures p in Fired(s, id, i, a, code).pages && Fired(s, id, i, a, code).pages[p] == READ_WRITE
    {
      assert RangesOk(s.monitors[id]);
      ContainsWholePage(s.monitors[id].ranges[i], pageSize, p, a);
    }
  }

  // ---------- Room in the ring ----------

  function RangeKeys(monitors: map<nat, Monitor>): set<(nat, nat)> {
    set id, i | id in monitors && 0 <= i < |monitors[id].ranges| :: (id, i)
  }

  function EventKeys(events: seq<Event>): set<(nat, nat)> {
    set k | 0 <= k < |events| :: (events[k].monitorId, events[k].rangeIndex)
  }

  lemma {:induction false} KeysCount(events: seq<Event>)
    requires Once(events)
    ensures |EventKeys(events)| == |events|
    decreases |events|
  {
    if events != [] {
      var last := |events| - 1;
      var rest := events[..last];
      KeysCount(rest);
      var key := (events[last].monitorId, events[last].rangeIndex);
      assert key !in EventKeys(rest) by {
        forall k | 0 <= k < |rest|
          ensures key != (rest[k].monitorId, rest[k].rangeIndex)
        {
          assert !SameRange(events[k], events[last]);
        }
      }
      assert EventKeys(events) == EventKeys(rest) + {key} by {
        forall x
          ensures x in EventKeys(events) <==> x in EventKeys(rest) + {key}
        {
          if x in EventKeys(rest) {
            var k :| 0 <= k < |rest| && x == (rest[k].monitorId, rest[k].rangeIndex);
            assert events[k] == rest[k];
          }
        }
      }
    }
  }

  /** While the active monitors watch at most 256 ranges in all, a fault the handler claims always finds a free
      slot, so the producer's missing fullness test does no harm. */
  lemma RoomForEveryFault(s: State, original: map<nat, Prot>, a: int, id: nat, i: nat)
    requires Inv(s, original) && Hits(s, a, id, i) && |RangeKeys(s.monitors)| <= CAPACITY
    ensures |s.pending| < CAPACITY
  {
    var keys := EventKeys(s.pending);
    assert Once(s.pending) by {
      forall j, k | 0 <= j < k < |s.pending|
        ensures !SameRange(s.pending[j], s.pending[k])
      {
        assert s.pending[j] == Events(s)[|s.delivered| + j] && s.pending[k] == Events(s)[|s.delivered| + k];
      }
    }
    KeysCount(s.pending);
    forall x | x in keys
      ensures x in RangeKeys(s.monitors) && x != (id, i)
    {
      var k :| 0 <= k < |s.pending| && x == (s.pending[k].monitorId, s.pending[k].rangeIndex);
      assert s.pending[k] == Events(s)[|s.delivered| + k];
      assert EventOk(s, s.pending[k]);
    }
    SubsetSize(keys, RangeKeys(s.monitors) - {(id, i)});
    assert (id, i) in RangeKeys(s.monitors);
  }

  /** A run in which the active monitors never watch more than 256 ranges in all. */
  ghost predicate FewRangesRun(s: State, ops: seq<Op>, pageSize: u64)
    requires pageSize > 0
    decreases |ops|
  {
    ops != [] ==>
      CanHappen(s, ops[0]) && |RangeKeys(s.monitors)| <= CAPACITY &&
        FewRangesRun(Apply(s, ops[0], pageSize), ops[1..], pageSize)
  }

  /** Such a run never meets a full ring, however late it drains: it is one of the runs the results above are about. */
  lemma {:induction false} FewRangesAlwaysFit(s: State, ops: seq<Op>, pageSize: u64, original: map<nat, Prot>)
    requires pageSize > 0 && FewRangesRun(s, ops, pageSize) && Inv(s, original)
    ensures PossibleRun(s, ops, pageSize)
    decreases |ops|
  {
    hide Inv, Apply, CanHappen;
    if ops != [] {
      if ops[0].Fault? && ops[0].hit.Some? {
        ClaimedFaultHits(s, ops[0]);
        RoomForEveryFault(s, original, ops[0].address, ops[0].hit.value.0, ops[0].hit.value.1);
      }
      StepKeeps(s, ops[0], pageSize, original);
      FewRangesAlwaysFit(Apply(s, ops[0], pageSize), ops[1..], pageSize, original);
    }
  }

  lemma ClaimedFaultHits(s: State, op: Op)
    requires CanHappen(s, op) && op.Fault? && op.hit.Some?
    ensures Hits(s, op.address, op.hit.value.0, op.hit.value.1)
  {
  }
}
