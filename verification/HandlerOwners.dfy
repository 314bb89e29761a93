/** Who registered the callbacks in the exception registry. */
module HandlerOwners {
  import opened ExceptionHandlers
  import AM = AccessMonitor

  /** The software-breakpoint trap, the hardware-breakpoint trap, and a monitor's two fault handlers. */
  datatype Owner = Software | Hardware | Segv(monitor: nat) | Bus(monitor: nat)

  function HandlerOf(o: Owner, id: nat): Handler {
    match o
    case Software => Handler(id, Breakpoint, SoftwareTrap)
    case Hardware => Handler(id, Breakpoint, HardwareTrap)
    case Segv(_) => Handler(id, AccessViolation, MonitorSegv)
    case Bus(_) => Handler(id, BusError, MonitorSegv)
  }

  /** The second handler of a hardware installation, whose id is not kept. */
  predicate Stray(h: Handler) {
    h.kind == SingleStep && h.callback == HardwareTrap
  }

  ghost predicate Owned(owned: set<(Owner, nat)>, h: Handler) {
    exists o: Owner :: (o, h.id) in owned && h == HandlerOf(o, h.id)
  }

  /** Every owner's handler is registered under an id of its own, and every handler has an owner or is stray. */
  ghost predicate Accounted(handlers: seq<Handler>, nextId: nat, owned: set<(Owner, nat)>) {
    && (forall h :: h in handlers ==> h.id < nextId && (Stray(h) || Owned(owned, h)))
    && (forall h, h' :: h in handlers && h' in handlers && h.id == h'.id ==> h == h')
    && (forall x :: x in owned ==> HandlerOf(x.0, x.1) in handlers)
    && (forall x, y :: x in owned && y in owned && x.1 == y.1 ==> x == y)
  }

  lemma OwnerRegisters(handlers: seq<Handler>, nextId: nat, owned: set<(Owner, nat)>, o: Owner)
    requires Accounted(handlers, nextId, owned)
    ensures Accounted(handlers + [HandlerOf(o, nextId)], nextId + 1, owned + {(o, nextId)})
  {
    var more := owned + {(o, nextId)};
    var all := handlers + [HandlerOf(o, nextId)];
    forall h | h in all
      ensures h.id < nextId + 1 && (Stray(h) || Owned(more, h)) && (h in handlers || h == HandlerOf(o, nextId))
    {
      if h in handlers && !Stray(h) {
        assert Owned(owned, h);
        var o' :| (o', h.id) in owned && h == HandlerOf(o', h.id);
        assert (o', h.id) in more;
      }
      if h !in handlers {
        assert (o, h.id) in more;
      }
    }
    forall x, y | x in more && y in more && x.1 == y.1
      ensures x == y
    {
      assert x in owned ==> HandlerOf(x.0, x.1) in handlers;
      assert y in owned ==> HandlerOf(y.0, y.1) in handlers;
    }
  }

  lemma StrayRegisters(handlers: seq<Handler>, nextId: nat, owned: set<(Owner, nat)>)
    requires Accounted(handlers, nextId, owned)
    ensures Accounted(handlers + [Handler(nextId, SingleStep, HardwareTrap)], nextId + 1, owned)
  {
  }

  /** Taking out the handlers of some ids takes out their owners and no other handler. */
  lemma OwnersUnregister(
    handlers: seq<Handler>, left: seq<Handler>, nextId: nat, owned: set<(Owner, nat)>, gone: set<(Owner, nat)>)
    requires Accounted(handlers, nextId, owned) && gone <= owned
    requires forall h :: h in left <==> h in handlers && forall x :: x in gone ==> x.1 != h.id
    ensures Accounted(left, nextId, owned - gone)
    ensures forall h :: h in handlers && Stray(h) ==> h in left
  {
    forall h | h in left
      ensures Stray(h) || Owned(owned - gone, h)
    {
      if !Stray(h) {
        assert Owned(owned, h);
        var o :| (o, h.id) in owned && h == HandlerOf(o, h.id);
        assert (o, h.id) in owned - gone;
      }
    }
    forall h | h in handlers && Stray(h)
      ensures h in left
    {
      forall x | x in gone
        ensures x.1 != h.id
      {
        assert HandlerOf(x.0, x.1) in handlers;
      }
    }
  }

  /** With no owner left, the handlers left are the stray ones. */
  lemma OnlyStraysLeft(handlers: seq<Handler>, nextId: nat)
    requires Accounted(handlers, nextId, {})
    ensures forall h :: h in handlers ==> Stray(h)
  {
    forall h | h in handlers
      ensures Stray(h)
    {
      assert !Owned({}, h);
    }
  }

  lemma {:induction false} WithoutAllExact(handlers: seq<Handler>, ids: set<nat>)
    ensures forall h :: h in AM.WithoutAll(handlers, ids) <==> h in handlers && h.id !in ids
  {
    if handlers != [] {
      WithoutAllExact(handlers[1..], ids);
    }
  }
}
