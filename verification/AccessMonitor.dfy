/** The monitor itself: the page table, the active monitors and the ring, updated in place. */
module AccessMonitor {
  import opened Results
  import opened Words
  import opened HexText
  import opened EventRing
  import opened MonitorState
  import MonitorRuns
  import EH = ExceptionHandlers
  import PendingRing

  datatype MonitorError = LengthMismatch | BadId(error: ParseError)

  /** A call of a monitor's script callback. */
  datatype Call = Call(monitorId: nat, faultAddress: u64, pageBase: nat, accessType: string, rangeIndex: nat)

  function CallOf(e: Event): Call {
    Call(e.monitorId, e.faultAddress, e.pageBase, AccessName(e.accessTypeCode), e.rangeIndex)
  }

  /** A call tells its script what the event recorded: where the access was, on which page and range, and of what
      kind. */
  ghost predicate Reports(c: Call, e: Event) {
    && c.monitorId == e.monitorId && c.faultAddress == e.faultAddress
    && c.pageBase == e.pageBase && c.rangeIndex == e.rangeIndex
    && (e.accessTypeCode == 1 <==> c.accessType == "read")
    && (e.accessTypeCode == 2 <==> c.accessType == "write")
    && (e.accessTypeCode == 3 <==> c.accessType == "execute")
    && (e.accessTypeCode !in {1, 2, 3} <==> c.accessType == "unknown")
  }

  lemma CallReports(e: Event)
    ensures Reports(CallOf(e), e)
  {
    assert "read"[0] != "write"[0] && "execute"[0] != "unknown"[0] && |"read"| != |"execute"|;
  }

  /** The call of a watched access: the range that was hit, the address inside it, the range's page, and the kind of
      access in words. */
  ghost predicate ReportsAccess(c: Call, id: nat, i: nat, r: WatchedRange, a: u64, kind: AccessType) {
    && c.monitorId == id && c.rangeIndex == i && c.faultAddress == a && c.pageBase == r.pageBase
    && r.pageBase <= a < Wrap(r.pageBase + r.pageSize)
    && match kind
       case Read => c.accessType == "read"
       case Write => c.accessType == "write"
       case Execute => c.accessType == "execute"
       case Unknown => c.accessType == "unknown"
  }

  /** The address lies on the pages of a range that has not been hit yet. */
  predicate InUnfired(r: WatchedRange, a: u64) {
    !r.fired && r.pageBase <= a < Wrap(r.pageBase + r.pageSize)
  }

  /** The call's fault address lies on the pages of the range it names, and its page base is that range's. */
  ghost predicate InOwnRange(c: Call, monitors: map<nat, Monitor>) {
    && c.monitorId in monitors && c.rangeIndex < |monitors[c.monitorId].ranges|
    && var r := monitors[c.monitorId].ranges[c.rangeIndex];
       c.pageBase == r.pageBase && r.pageBase <= c.faultAddress < Wrap(r.pageBase + r.pageSize)
  }

  /** Every call made so far that belongs to an active monitor is about an access to its own range. */
  ghost predicate CallsInRange(calls: seq<Call>, monitors: map<nat, Monitor>) {
    forall k :: 0 <= k < |calls| && calls[k].monitorId in monitors ==> InOwnRange(calls[k], monitors)
  }

  // ---------- Handlers ----------

  /** A monitor takes a reference and registers for both kinds of access fault. */
  function EnabledHandlers(e: EH.State): EH.State {
    EH.Registered(EH.Registered(EH.RefEnabled(e), EH.AccessViolation, EH.MonitorSegv), EH.BusError, EH.MonitorSegv)
  }

  function DisabledHandlers(e: EH.State, m: Monitor): EH.State {
    EH.RefDisabled(EH.Unregistered(EH.Unregistered(e, m.segvHandlerId), m.busHandlerId))
  }

  function HandlerIds(monitors: map<nat, Monitor>): set<nat> {
    (set id | id in monitors :: monitors[id].segvHandlerId) + (set id | id in monitors :: monitors[id].busHandlerId)
  }

  function WithoutAll(handlers: seq<EH.Handler>, ids: set<nat>): seq<EH.Handler> {
    if handlers == [] then []
    else (if handlers[0].id in ids then [] else [handlers[0]]) + WithoutAll(handlers[1..], ids)
  }

  function AllDisabledHandlers(e: EH.State, monitors: map<nat, Monitor>): EH.State {
    e.(handlers := WithoutAll(e.handlers, HandlerIds(monitors)), refCount := e.refCount - |monitors|)
  }

  lemma {:induction false} WithoutOneMore(handlers: seq<EH.Handler>, ids: set<nat>, id: nat)
    ensures EH.Without(WithoutAll(handlers, ids), id) == WithoutAll(handlers, ids + {id})
  {
    if handlers != [] {
      WithoutOneMore(handlers[1..], ids, id);
      var first, rest := handlers[0], WithoutAll(handlers[1..], ids);
      if first.id in ids {
        assert WithoutAll(handlers, ids) == rest;
      } else {
        assert WithoutAll(handlers, ids) == [first] + rest;
        assert ([first] + rest)[1..] == rest;
      }
    }
  }

  lemma {:induction false} WithoutNone(handlers: seq<EH.Handler>)
    ensures WithoutAll(handlers, {}) == handlers
  {
    if handlers != [] {
      WithoutNone(handlers[1..]);
    }
  }

  lemma OneMoreDisabled(e: EH.State, done: map<nat, Monitor>, id: nat, m: Monitor)
    requires id !in done
    ensures DisabledHandlers(AllDisabledHandlers(e, done), m) == AllDisabledHandlers(e, done[id := m])
  {
    var ids := HandlerIds(done);
    WithoutOneMore(e.handlers, ids, m.segvHandlerId);
    WithoutOneMore(e.handlers, ids + {m.segvHandlerId}, m.busHandlerId);
    var more := done[id := m];
    assert HandlerIds(more) == ids + {m.segvHandlerId} + {m.busHandlerId} by {
      assert forall k :: k in done ==> more[k] == done[k];
      assert more[id] == m;
    }
  }

  // ---------- Page protections, one range at a time ----------

  lemma ProtectMore(pages: map<nat, Prot>, ranges: seq<WatchedRange>, r: WatchedRange)
    ensures SetProtection(Protect(pages, ranges), r, NO_ACCESS) == Protect(pages, ranges + [r])
  {
    forall p | p in pages
      ensures SomeContains(ranges + [r], p) <==> SomeContains(ranges, p) || r.Contains(p)
    {
      if SomeContains(ranges, p) {
        var i :| 0 <= i < |ranges| && ranges[i].Contains(p);
        assert (ranges + [r])[i].Contains(p);
      }
      assert (ranges + [r])[|ranges|] == r;
    }
  }

  lemma RestoreMore(pages: map<nat, Prot>, ranges: seq<WatchedRange>, r: WatchedRange)
    requires r.originalProt == READ_WRITE
    ensures Restore(pages, ranges + [r]) ==
              if r.fired then Restore(pages, ranges) else SetProtection(Restore(pages, ranges), r, r.originalProt)
  {
    forall p | p in pages
      ensures SomeWatches(ranges + [r], p) <==> SomeWatches(ranges, p) || r.Watches(p)
    {
      if SomeWatches(ranges, p) {
        var i :| 0 <= i < |ranges| && ranges[i].Watches(p);
        assert (ranges + [r])[i].Watches(p);
      }
      assert (ranges + [r])[|ranges|] == r;
    }
  }

  lemma RestoreEveryMore(pages: map<nat, Prot>, done: map<nat, Monitor>, id: nat, m: Monitor)
    requires id !in done
    ensures Restore(RestoreEvery(pages, done), m.ranges) == RestoreEvery(pages, done[id := m])
  {
    forall p | p in pages
      ensures Watched(done[id := m], p) <==> Watched(done, p) || SomeWatches(m.ranges, p)
    {
      MonitorRuns.RemovedWatches(done[id := m], id, p);
      assert done[id := m] - {id} == done;
    }
  }

  class NativeMemoryAccessMonitor {
    const exceptions: EH.ExceptionHandler
    const pageSize: u64
    const pending: PendingEvents
    var pages: map<nat, Prot>
    var monitors: map<nat, Monitor>
    var nextMonId: nat
    var calls: seq<Call>
    ghost const original: map<nat, Prot>
    ghost var delivered: seq<Event>
    ghost var touched: set<nat>

    ghost function Value(): State
      requires pending.Valid()
      reads this, pending, pending.entries
    {
      State(pages, monitors, nextMonId, pending.Pending(), delivered, touched)
    }

    ghost predicate Valid()
      reads this, pending, pending.entries
    {
      && pageSize > 0 && pending.Valid() && Inv(Value(), original)
      && |calls| == |delivered| && forall k :: 0 <= k < |calls| ==> Reports(calls[k], delivered[k])
    }

    /** In every state of the monitor, the calls of active monitors are about their own ranges. */
    lemma ValidCalls()
      requires Valid()
      ensures CallsInRange(calls, monitors)
    {
      hide Once;
      forall k | 0 <= k < |calls| && calls[k].monitorId in monitors
        ensures InOwnRange(calls[k], monitors)
      {
        assert Reports(calls[k], delivered[k]);
        assert Events(Value())[k] == delivered[k];
        assert EventOk(Value(), delivered[k]);
      }
    }

    constructor (exceptions: EH.ExceptionHandler, pages: map<nat, Prot>, pageSize: u64)
      requires pageSize > 0
      ensures this.exceptions == exceptions && this.pageSize == pageSize && original == pages
      ensures fresh(pending) && fresh(pending.entries)
      ensures Valid() && Value() == Init(pages)
    {
      this.exceptions, this.pageSize, this.pages, original := exceptions, pageSize, pages, pages;
      pending := new PendingEvents();
      monitors, nextMonId, calls, delivered, touched := map[], 1, [], [], {};
      MonitorRuns.InitInv(pages);
    }

    method SetUpRanges(addresses: seq<u64>, sizes: seq<int>) returns (ranges: seq<WatchedRange>)
      requires |addresses| == |sizes| && pageSize > 0
      modifies this`pages
      ensures ranges == NewRanges(addresses, sizes, pageSize) && pages == Protect(old(pages), ranges)
    {
      hide NewRange, Protect, SetProtection;
      ranges := [];
      ProtectNone(pages);
      for i := 0 to |addresses|
        invariant |ranges| == i && ranges == NewRanges(addresses, sizes, pageSize)[..i]
        invariant pages == Protect(old(pages), ranges)
      {
        var range := NewRange(addresses[i], sizes[i], i, pageSize);
        ProtectMore(old(pages), ranges, range);
        ranges := ranges + [range];
        pages := SetProtection(pages, range, NO_ACCESS);
      }
    }

    /** Watches the pages of the given ranges. */
    method Enable(addresses: seq<u64>, sizes: seq<int>) returns (r: Result<string, MonitorError>)
      requires Valid()
      modifies this, exceptions
      ensures Valid()
      ensures r == if |addresses| != |sizes| then Failure(LengthMismatch) else Success(ToHexAddr(old(nextMonId)))
      ensures r.Failure? ==> Value() == old(Value()) && exceptions.Value() == old(exceptions.Value())
      ensures r.Success? ==>
                && exceptions.Value() == EnabledHandlers(old(exceptions.Value()))
                && Value() == Enabled(old(Value()), NewRanges(addresses, sizes, pageSize),
                     old(exceptions.nextId), old(exceptions.nextId) + 1)
    {
      hide Inv, NewRange, Protect, PagesOf, ToHexAddr;
      if |addresses| != |sizes| {
        return Failure(LengthMismatch);
      }
      exceptions.RefEnable();
      var id := nextMonId;
      nextMonId := nextMonId + 1;
      var ranges := SetUpRanges(addresses, sizes);
      var segvHandlerId := exceptions.RegisterHandler(EH.AccessViolation, EH.MonitorSegv);
      var busHandlerId := exceptions.RegisterHandler(EH.BusError, EH.MonitorSegv);
      NewRangesOk(addresses, sizes, pageSize, segvHandlerId, busHandlerId);
      MonitorRuns.EnableKeeps(old(Value()), ranges, segvHandlerId, busHandlerId, original);
      monitors := monitors[id := Monitor(ranges, segvHandlerId, busHandlerId)];
      touched := touched + PagesOf(old(pages), ranges);
      return Success(ToHexAddr(id));
    }

    /** Delivers what is pending, oldest first, and reports how many slots were handed back.  Calls are made for active
        monitors only, each about an access to the monitor's own range. */
    method DrainPending() returns (count: nat)
      requires Valid()
      modifies this`calls, this`delivered, pending, pending.entries
      ensures Valid() && Value() == Drained(old(Value())) && count == |old(pending.Pending())|
      ensures |old(calls)| <= |calls| && calls[..|old(calls)|] == old(calls) && CallsInRange(calls, monitors)
      ensures forall k :: |old(calls)| <= k < |calls| ==> calls[k].monitorId in monitors
    {
      hide Inv, Calls, CallOf, Reports;
      MonitorRuns.DrainKeeps(Value(), original);
      NoCalls(monitors);
      count := 0;
      var ready, event := pending.Front();
      while ready
        invariant pending.Valid() && (ready <==> pending.Pending() != []) && (ready ==> event == pending.Pending()[0])
        invariant delivered + Calls(monitors, pending.Pending()) ==
                    old(delivered) + Calls(monitors, old(pending.Pending()))
        invariant |calls| == |delivered| && forall k :: 0 <= k < |calls| ==> Reports(calls[k], delivered[k])
        invariant |old(calls)| <= |calls| && calls[..|old(calls)|] == old(calls)
        invariant forall k :: |old(calls)| <= k < |calls| ==> calls[k].monitorId in monitors
        invariant count + |pending.Pending()| == |old(pending.Pending())|
        decreases |pending.Pending()|
      {
        OneCall(delivered, monitors, pending.Pending());
        if event.monitorId in monitors {
          CallReports(event);
          assert CallOf(event).monitorId in monitors by { ReportsSameMonitor(CallOf(event), event); }
          calls := calls + [CallOf(event)];
          delivered := delivered + [event];
        }
        pending.Release();
        count := count + 1;
        ready, event := pending.Front();
      }
      assert pending.Pending() == [] && delivered + [] == delivered;
      ValidCalls();
    }

    method RestoreRanges(ranges: seq<WatchedRange>)
      requires forall i :: 0 <= i < |ranges| ==> ranges[i].originalProt == READ_WRITE
      modifies this`pages
      ensures pages == Restore(old(pages), ranges)
    {
      hide Restore, SetProtection;
      RestoreNone(pages, ranges[..0]);
      for i := 0 to |ranges|
        invariant pages == Restore(old(pages), ranges[..i])
      {
        RestoreMore(old(pages), ranges[..i], ranges[i]);
        assert ranges[..i + 1] == ranges[..i] + [ranges[i]];
        if !ranges[i].fired {
          pages := SetProtection(pages, ranges[i], ranges[i].originalProt);
        }
      }
      assert ranges[..|ranges|] == ranges;
    }

    /** Drains, then takes out one monitor.  The id is parsed after draining. */
    method Disable(monitorIdStr: string) returns (r: Result<(), MonitorError>)
      requires Valid()
      modifies this, pending, pending.entries, exceptions
      ensures Valid()
      ensures match ParseHexAddr(monitorIdStr)
              case Failure(e) =>
                r == Failure(BadId(e)) && Value() == Drained(old(Value())) &&
                  exceptions.Value() == old(exceptions.Value())
              case Success(id) =>
                && r == Success(()) && Value() == Disabled(old(Value()), id)
                && exceptions.Value() ==
                     if id in old(monitors) then DisabledHandlers(old(exceptions.Value()), old(monitors)[id])
                     else old(exceptions.Value())
    {
      hide Inv, Restore, ParseHexAddr, Calls;
      var count := DrainPending();
      var parsed := ParseHexAddr(monitorIdStr);
      if parsed.Failure? {
        return Failure(BadId(parsed.error));
      }
      var monId := parsed.value;
      MonitorRuns.DisableKeeps(old(Value()), monId, original);
      if monId !in monitors {
        return Success(());
      }
      var monitor := monitors[monId];
      InvRanges(Value(), original, monId);
      RestoreRanges(monitor.ranges);
      exceptions.UnregisterHandler(monitor.segvHandlerId);
      exceptions.UnregisterHandler(monitor.busHandlerId);
      exceptions.RefDisable();
      monitors := monitors - {monId};
      return Success(());
    }

    /** Drains, then takes out every monitor, walking the unordered map in some order. */
    method DisableAll()
      requires Valid()
      modifies this, pending, pending.entries, exceptions
      ensures Valid() && Value() == AllDisabled(old(Value()))
      ensures exceptions.Value() == AllDisabledHandlers(old(exceptions.Value()), old(monitors))
    {
      hide Inv, Restore, RestoreEvery, Calls, HandlerIds, WithoutAll, AllDisabledHandlers, Reports, CallsInRange;
      var count := DrainPending();
      MonitorRuns.DisableAllKeeps(old(Value()), original);
      var rest := monitors;
      ghost var done: map<nat, Monitor> := map[];
      ghost var drained := Value();
      ghost var made := calls;
      NothingDone(pages, exceptions.Value());
      while rest.Keys != {}
        invariant rest.Keys <= monitors.Keys && done == monitors - rest.Keys
        invariant forall id :: id in rest ==> rest[id] == monitors[id]
        invariant pages == RestoreEvery(drained.pages, done)
        invariant exceptions.Value() == AllDisabledHandlers(old(exceptions.Value()), done)
        invariant pending.Valid() && Value() == drained.(pages := pages) && calls == made
        decreases rest.Keys
      {
        var id :| id in rest.Keys;
        var monitor := rest[id];
        InvRanges(drained, original, id);
        RestoreEveryMore(drained.pages, done, id, monitor);
        OneMoreDisabled(old(exceptions.Value()), done, id, monitor);
        RestoreRanges(monitor.ranges);
        exceptions.UnregisterHandler(monitor.segvHandlerId);
        exceptions.UnregisterHandler(monitor.busHandlerId);
        exceptions.RefDisable();
        rest := rest - {id};
        done := done[id := monitor];
      }
      assert done == monitors;
      monitors := map[];
    }

    /** The fault handler.  A fault in an unfired range fires the first such range of the monitor it is found in,
        opens its pages and records the event, whether or not the ring has room; any other fault is passed on. */
    method SegvHandler(faultAddr: u64, accessType: AccessType) returns (handled: bool, ghost hit: (nat, nat))
      requires Valid()
      modifies this`pages, this`monitors, pending`writeIdx, pending.entries
      ensures handled <==> Watched(old(monitors), faultAddr)
      ensures handled <==> exists id, i: nat {:trigger old(monitors)[id].ranges[i]} ::
                             id in old(monitors) && i < |old(monitors)[id].ranges| &&
                             InUnfired(old(monitors)[id].ranges[i], faultAddr)
      ensures !handled ==> Valid() && Value() == old(Value())
      ensures handled ==>
                Hits(old(Value()), faultAddr, hit.0, hit.1) &&
                var fired := Fired(old(Value()), hit.0, hit.1, faultAddr, AccessCode(accessType));
                && monitors == fired.monitors && pages == fired.pages
                && pending.writeIdx == PendingRing.Next(old(pending.writeIdx))
                && pending.entries[..] == old(pending.entries[..])[old(pending.writeIdx) % CAPACITY :=
                     Slot(true, fired.pending[|fired.pending| - 1])]
                && (old(|pending.Pending()|) < CAPACITY ==> Valid() && Value() == fired)
    {
      hide Inv, SetProtection;
      hit := (0, 0);
      var rest := monitors.Keys;
      while rest != {}
        invariant rest <= monitors.Keys && Value() == old(Value())
        invariant forall id :: id in monitors && id !in rest ==> !SomeWatches(monitors[id].ranges, faultAddr)
        decreases rest
      {
        var id :| id in rest;
        var monitor := monitors[id];
        for i := 0 to |monitor.ranges|
          invariant Value() == old(Value()) && monitor == monitors[id]
          invariant forall j :: 0 <= j < i ==> !monitor.ranges[j].Watches(faultAddr)
        {
          var range := monitor.ranges[i];
          if !range.fired {
            if range.Contains(faultAddr) {
              assert MonitorWatches(monitors, id, faultAddr);
              if |pending.Pending()| < CAPACITY {
                MonitorRuns.FireKeeps(Value(), id, i, faultAddr, AccessCode(accessType), original);
              }
              monitors := monitors[id := FireRange(monitor, i)];
              pages := SetProtection(pages, range, range.originalProt);
              pending.Record(Event(id, faultAddr, range.pageBase, range.rangeIndex, AccessCode(accessType)));
              return true, (id, i);
            }
          }
        }
        rest := rest - {id};
      }
      return false, hit;
    }

    /** A fault and the next drain, with room in the ring: a watched access is told to the script of the monitor that
        watches it, last of all that is pending, with the address, the page and the range it hit. */
    method FaultThenDrain(faultAddr: u64, accessType: AccessType) returns (handled: bool, ghost hit: (nat, nat))
      requires Valid() && |pending.Pending()| < CAPACITY
      modifies this, pending, pending.entries
      ensures Valid() && (handled <==> exists id, i: nat {:trigger old(monitors)[id].ranges[i]} ::
                                         id in old(monitors) && i < |old(monitors)[id].ranges| &&
                                         InUnfired(old(monitors)[id].ranges[i], faultAddr))
      ensures |calls| == |old(calls)| + |old(pending.Pending())| + (if handled then 1 else 0)
      ensures handled ==>
                && hit.0 in old(monitors) && hit.1 < |old(monitors)[hit.0].ranges|
                && var range := old(monitors)[hit.0].ranges[hit.1];
                   && !range.fired && ReportsAccess(calls[|calls| - 1], hit.0, hit.1, range, faultAddr, accessType)
    {
      hide Inv, Calls, Reports, PendingRing.Next, ReportsAccess;
      PendingActive(Value(), original);
      handled, hit := SegvHandler(faultAddr, accessType);
      PendingActive(Value(), original);
      var count := DrainPending();
      if handled {
        FiredReports(old(Value()), original, hit.0, hit.1, faultAddr, accessType, calls[|calls| - 1]);
      }
    }
  }

  /** What is pending belongs to active monitors, so draining delivers all of it. */
  lemma PendingActive(s: State, original: map<nat, Prot>)
    requires Inv(s, original)
    ensures Calls(s.monitors, s.pending) == s.pending
  {
    MonitorRuns.CallsAll(s.monitors, s.pending);
  }

  lemma FiredReports(s: State, original: map<nat, Prot>, id: nat, i: nat, a: u64, kind: AccessType, c: Call)
    requires Inv(s, original) && Hits(s, a, id, i)
    requires var pending := Fired(s, id, i, a, AccessCode(kind)).pending; Reports(c, pending[|pending| - 1])
    ensures ReportsAccess(c, id, i, s.monitors[id].ranges[i], a, kind)
  {
    InvRanges(s, original, id);
  }

  lemma ReportsSameMonitor(c: Call, e: Event)
    requires Reports(c, e)
    ensures c.monitorId == e.monitorId
  {
  }

  lemma NoCalls(monitors: map<nat, Monitor>)
    ensures Calls(monitors, []) == []
  {
  }

  lemma CallsUnfold(monitors: map<nat, Monitor>, events: seq<Event>)
    requires events != []
    ensures Calls(monitors, events) ==
              if events[0].monitorId in monitors then [events[0]] + Calls(monitors, events[1..])
              else Calls(monitors, events[1..])
  {
  }

  lemma Assoc(a: seq<Event>, b: seq<Event>, c: seq<Event>)
    ensures a + (b + c) == a + b + c
  {
  }

  lemma OneCall(made: seq<Event>, monitors: map<nat, Monitor>, events: seq<Event>)
    requires events != []
    ensures made + Calls(monitors, events) ==
              (if events[0].monitorId in monitors then made + [events[0]] else made) + Calls(monitors, events[1..])
  {
    hide *;
    var rest := Calls(monitors, events[1..]);
    CallsUnfold(monitors, events);
    Assoc(made, [events[0]], rest);
  }

  lemma ProtectNone(pages: map<nat, Prot>)
    ensures Protect(pages, []) == pages
  {
  }

  lemma RestoreNone(pages: map<nat, Prot>, none: seq<WatchedRange>)
    requires none == []
    ensures Restore(pages, none) == pages
  {
  }

  lemma NothingDone(pages: map<nat, Prot>, e: EH.State)
    ensures RestoreEvery(pages, map[]) == pages && AllDisabledHandlers(e, map[]) == e
  {
    var none: map<nat, Monitor> := map[];
    assert HandlerIds(none) == {};
    WithoutNone(e.handlers);
  }

  lemma NewRangesOk(addresses: seq<u64>, sizes: seq<int>, pageSize: u64, segvId: nat, busId: nat)
    requires pageSize > 0 && |addresses| == |sizes|
    ensures var ranges := NewRanges(addresses, sizes, pageSize);
            RangesOk(Monitor(ranges, segvId, busId)) && forall i :: 0 <= i < |ranges| ==> !ranges[i].fired
  {
  }

  lemma InvRanges(s: State, original: map<nat, Prot>, id: nat)
    requires Inv(s, original) && id in s.monitors
    ensures RangesOk(s.monitors[id])
  {
  }
}
