/** Watched ranges, page protections and access events of native_memory_access_monitor.cc: the state of all
    monitors, the operations on it, and what every run keeps (POSIX; one fault is handled at a time). */
module MonitorState {
  import opened Results
  import opened Words
  import opened PageCover
  import opened EventRing

  datatype Prot = Prot(read: bool, write: bool, execute: bool)

  const NO_ACCESS := Prot(false, false, false)
  const READ_WRITE := Prot(true, true, false)

  datatype AccessType = Unknown | Read | Write | Execute

  function AccessCode(t: AccessType): nat {
    match t
    case Read => 1
    case Write => 2
    case Execute => 3
    case Unknown => 0
  }

  function AccessName(code: nat): string {
    match code
    case 1 => "read"
    case 2 => "write"
    case 3 => "execute"
    case _ => "unknown"
  }

  datatype WatchedRange = WatchedRange(pageBase: nat, pageSize: nat, originalProt: Prot, rangeIndex: nat, fired: bool) {
    /** The end is a 64-bit sum. */
    predicate Contains(a: int) {
      pageBase <= a < Wrap(pageBase + pageSize)
    }

    predicate Watches(a: int) {
      !fired && Contains(a)
    }
  }

  datatype Monitor = Monitor(ranges: seq<WatchedRange>, segvHandlerId: nat, busHandlerId: nat)

  /** Pages by address with their protection, the active monitors, the id counter, the recorded and the delivered
      events, and every page a range was ever set up on. */
  datatype State = State(
    pages: map<nat, Prot>, monitors: map<nat, Monitor>, nextId: nat, pending: seq<Event>, delivered: seq<Event>,
    touched: set<nat>)

  function Init(pages: map<nat, Prot>): State {
    State(pages, map[], 1, [], [], {})
  }

  // ---------- Operations ----------

  function SetProtection(pages: map<nat, Prot>, r: WatchedRange, prot: Prot): map<nat, Prot> {
    map p | p in pages :: if r.Contains(p) then prot else pages[p]
  }

  /** The range set up for one address and size; sizes are C ints converted to size_t. */
  function NewRange(address: u64, size: int, index: nat, pageSize: u64): WatchedRange
    requires pageSize > 0
  {
    var span := WatchedSpan(address, Wrap(size), pageSize);
    WatchedRange(span.base, span.size, READ_WRITE, index, false)
  }

  function NewRanges(addresses: seq<u64>, sizes: seq<int>, pageSize: u64): seq<WatchedRange>
    requires pageSize > 0 && |addresses| == |sizes|
  {
    seq(|addresses|, i requires 0 <= i < |addresses| => NewRange(addresses[i], sizes[i], i, pageSize))
  }

  predicate SomeContains(ranges: seq<WatchedRange>, a: int) {
    exists i :: 0 <= i < |ranges| && ranges[i].Contains(a)
  }

  predicate SomeWatches(ranges: seq<WatchedRange>, a: int) {
    exists i :: 0 <= i < |ranges| && ranges[i].Watches(a)
  }

  function Protect(pages: map<nat, Prot>, ranges: seq<WatchedRange>): map<nat, Prot> {
    map p | p in pages :: if SomeContains(ranges, p) then NO_ACCESS else pages[p]
  }

  /** Pages of unfired ranges get back what their range took for the original protection. */
  function Restore(pages: map<nat, Prot>, ranges: seq<WatchedRange>): map<nat, Prot> {
    map p | p in pages :: if SomeWatches(ranges, p) then READ_WRITE else pages[p]
  }

  predicate MonitorWatches(monitors: map<nat, Monitor>, id: nat, a: int) {
    id in monitors && SomeWatches(monitors[id].ranges, a)
  }

  predicate Watched(monitors: map<nat, Monitor>, a: int) {
    exists id :: id in monitors && MonitorWatches(monitors, id, a)
  }

  function RestoreEvery(pages: map<nat, Prot>, monitors: map<nat, Monitor>): map<nat, Prot> {
    map p | p in pages :: if Watched(monitors, p) then READ_WRITE else pages[p]
  }

  function PagesOf(pages: map<nat, Prot>, ranges: seq<WatchedRange>): set<nat> {
    set p | p in pages && SomeContains(ranges, p)
  }

  function Enabled(s: State, ranges: seq<WatchedRange>, segvId: nat, busId: nat): State {
    s.(pages := Protect(s.pages, ranges),
       monitors := s.monitors[s.nextId := Monitor(ranges, segvId, busId)],
       nextId := s.nextId + 1,
       touched := s.touched + PagesOf(s.pages, ranges))
  }

  /** A range the fault handler may pick: some active monitor's first unfired one that contains the address. */
  predicate Hits(s: State, a: int, id: nat, i: nat) {
    && id in s.monitors && i < |s.monitors[id].ranges| && s.monitors[id].ranges[i].Watches(a)
    && forall j :: 0 <= j < i ==> !s.monitors[id].ranges[j].Watches(a)
  }

  function FireRange(m: Monitor, i: nat): Monitor
    requires i < |m.ranges|
  {
    m.(ranges := m.ranges[i := m.ranges[i].(fired := true)])
  }

  function Fired(s: State, id: nat, i: nat, a: u64, code: nat): State
    requires id in s.monitors && i < |s.monitors[id].ranges|
  {
    var m := s.monitors[id];
    var r := m.ranges[i];
    s.(pages := SetProtection(s.pages, r, r.originalProt),
       monitors := s.monitors[id := FireRange(m, i)],
       pending := s.pending + [Event(id, a, r.pageBase, r.rangeIndex, code)])
  }

  /** Draining calls back for the events whose monitor is active. */
  function Calls(monitors: map<nat, Monitor>, events: seq<Event>): seq<Event> {
    if events == [] then []
    else (if events[0].monitorId in monitors then [events[0]] else []) + Calls(monitors, events[1..])
  }

  function Drained(s: State): State {
    s.(pending := [], delivered := s.delivered + Calls(s.monitors, s.pending))
  }

  function Disabled(s: State, id: nat): State {
    var d := Drained(s);
    if id !in d.monitors then d
    else d.(pages := Restore(d.pages, d.monitors[id].ranges), monitors := d.monitors - {id})
  }

  function AllDisabled(s: State): State {
    var d := Drained(s);
    d.(pages := RestoreEvery(d.pages, d.monitors), monitors := map[])
  }

  // ---------- The invariant of all runs ----------

  predicate SameRange(e: Event, e': Event) {
    e.monitorId == e'.monitorId && e.rangeIndex == e'.rangeIndex
  }

  /** Each range of each monitor contributes at most one event, ever. */
  ghost predicate Once(events: seq<Event>) {
    forall i, j :: 0 <= i < j < |events| ==> !SameRange(events[i], events[j])
  }

  function Events(s: State): seq<Event> {
    s.delivered + s.pending
  }

  /** An event of an active monitor: its range has fired, and the fault was inside it. */
  ghost predicate EventOk(s: State, e: Event) {
    && e.monitorId < s.nextId
    && (e.monitorId in s.monitors ==>
          var ranges := s.monitors[e.monitorId].ranges;
          && e.rangeIndex < |ranges| && ranges[e.rangeIndex].fired
          && ranges[e.rangeIndex].Contains(e.faultAddress) && e.pageBase == ranges[e.rangeIndex].pageBase)
  }

  ghost predicate HasEvent(events: seq<Event>, id: nat, i: nat) {
    exists k :: 0 <= k < |events| && events[k].monitorId == id && events[k].rangeIndex == i
  }

  ghost predicate RangesOk(m: Monitor) {
    forall i :: 0 <= i < |m.ranges| ==> m.ranges[i].rangeIndex == i && m.ranges[i].originalProt == READ_WRITE
  }

  /** Events and fired flags tell the same story. */
  ghost predicate EventsOk(s: State) {
    && Once(Events(s))
    && (forall k :: 0 <= k < |Events(s)| ==> EventOk(s, Events(s)[k]))
    && (forall k :: 0 <= k < |s.pending| ==> s.pending[k].monitorId in s.monitors)
    && (forall id, i: nat :: id in s.monitors && i < |s.monitors[id].ranges| && s.monitors[id].ranges[i].fired ==>
          HasEvent(Events(s), id, i))
  }

  ghost predicate MonitorsOk(s: State) {
    forall id :: id in s.monitors ==> id < s.nextId && RangesOk(s.monitors[id])
  }

  /** An untouched page has its original protection; a touched one is read-write, or closed and watched. */
  ghost predicate PageOk(s: State, original: map<nat, Prot>, p: nat)
    requires p in s.pages && p in original
  {
    if p in s.touched then s.pages[p] == READ_WRITE || (s.pages[p] == NO_ACCESS && Watched(s.monitors, p))
    else s.pages[p] == original[p] && !Watched(s.monitors, p)
  }

  ghost predicate PagesOk(s: State, original: map<nat, Prot>) {
    s.pages.Keys == original.Keys && s.touched <= s.pages.Keys && forall p :: p in s.pages ==> PageOk(s, original, p)
  }

  ghost predicate Inv(s: State, original: map<nat, Prot>) {
    MonitorsOk(s) && EventsOk(s) && PagesOk(s, original) && |s.pending| <= CAPACITY
  }
}
