/** The exception-handler registry and the life of the signal dispositions (native_exception_handler.cc, POSIX). */
module ExceptionHandlers {
  import opened Results
  import opened Words

  datatype Signal = SIGSEGV | SIGBUS | SIGTRAP | SIGILL

  /** Who handles a signal: the system, nobody, code outside the engine, or globalSignalHandler. */
  datatype Disposition = Default | Ignored | Foreign(handler: nat) | Engine

  datatype Dispositions = Dispositions(segv: Disposition, bus: Disposition, trap: Disposition, ill: Disposition) {
    function Of(s: Signal): Disposition {
      match s
      case SIGSEGV => segv
      case SIGBUS => bus
      case SIGTRAP => trap
      case SIGILL => ill
    }
  }

  const ENGINE := Dispositions(Engine, Engine, Engine, Engine)

  datatype ExceptionType = AccessViolation | BusError | Breakpoint | SingleStep | IllegalInstruction

  /** The engine's own callbacks, and others. */
  datatype Callback = MonitorSegv | SoftwareTrap | HardwareTrap | Script(id: nat)

  datatype Handler = Handler(id: nat, kind: ExceptionType, callback: Callback)

  /** g_handlers, g_nextId, g_enabled, g_refCount, the current dispositions and the g_old_* copies. */
  datatype State = State(
    handlers: seq<Handler>, nextId: nat, enabled: bool, refCount: int, current: Dispositions, saved: Dispositions)

  function Init(original: Dispositions): State {
    State([], 1, false, 0, original, Dispositions(Default, Default, Default, Default))
  }

  // ---------- Operations ----------

  function Install(s: State): State {
    s.(saved := s.current, current := ENGINE)
  }

  function Remove(s: State): State {
    s.(current := s.saved)
  }

  function Enabled(s: State): State {
    if s.enabled then s else Install(s.(enabled := true))
  }

  function Disabled(s: State): State {
    if !s.enabled then s
    else if s.refCount > 0 then s.(enabled := false)
    else Remove(s.(enabled := false))
  }

  function RefEnabled(s: State): State {
    var t := s.(refCount := s.refCount + 1);
    if s.refCount == 0 && !s.enabled then Install(t.(enabled := true)) else t
  }

  function RefDisabled(s: State): State {
    s.(refCount := s.refCount - 1)
  }

  function Registered(s: State, kind: ExceptionType, callback: Callback): State {
    s.(handlers := s.handlers + [Handler(s.nextId, kind, callback)], nextId := s.nextId + 1)
  }

  function Without(handlers: seq<Handler>, id: nat): seq<Handler> {
    if handlers == [] then []
    else (if handlers[0].id == id then [] else [handlers[0]]) + Without(handlers[1..], id)
  }

  function Unregistered(s: State, id: nat): State {
    s.(handlers := Without(s.handlers, id))
  }

  lemma {:induction false} WithoutExact(handlers: seq<Handler>, id: nat)
    ensures forall h :: h in Without(handlers, id) <==> h in handlers && h.id != id
  {
    if handlers != [] {
      WithoutExact(handlers[1..], id);
    }
  }

  /** The registry and the process-wide signal table it manages. */
  class ExceptionHandler {
    var handlers: seq<Handler>
    var nextId: nat
    var enabled: bool
    var refCount: int
    var current: Dispositions
    var saved: Dispositions

    function Value(): State
      reads this
    {
      State(handlers, nextId, enabled, refCount, current, saved)
    }

    constructor (original: Dispositions)
      ensures Value() == Init(original)
    {
      handlers, nextId, enabled, refCount := [], 1, false, 0;
      current, saved := original, Dispositions(Default, Default, Default, Default);
    }

    method InstallHandlers()
      modifies this
      ensures Value() == Install(old(Value()))
    {
      saved := current;
      current := ENGINE;
    }

    method RemoveHandlers()
      modifies this
      ensures Value() == Remove(old(Value()))
    {
      current := saved;
    }

    method Enable()
      modifies this
      ensures Value() == Enabled(old(Value()))
    {
      var was := enabled;
      enabled := true;
      if was {
        return;
      }
      InstallHandlers();
    }

    method Disable()
      modifies this
      ensures Value() == Disabled(old(Value()))
    {
      var was := enabled;
      enabled := false;
      if !was {
        return;
      }
      if refCount > 0 {
        return;
      }
      RemoveHandlers();
    }

    method RefEnable()
      modifies this
      ensures Value() == RefEnabled(old(Value()))
    {
      var before := refCount;
      refCount := refCount + 1;
      if before == 0 && !enabled {
        enabled := true;
        InstallHandlers();
      }
    }

    method RefDisable()
      modifies this
      ensures Value() == RefDisabled(old(Value()))
    {
      refCount := refCount - 1;
    }

    method RegisterHandler(kind: ExceptionType, callback: Callback) returns (id: nat)
      modifies this
      ensures id == old(nextId) && Value() == Registered(old(Value()), kind, callback)
    {
      id := nextId;
      nextId := nextId + 1;
      handlers := handlers + [Handler(id, kind, callback)];
    }

    method UnregisterHandler(id: nat)
      modifies this
      ensures Value() == Unregistered(old(Value()), id)
    {
      var kept := [];
      ghost var whole := Without(handlers, id);
      for i := 0 to |handlers|
        invariant whole == kept + Without(handlers[i..], id)
      {
        assert handlers[i..][1..] == handlers[i + 1..];
        if handlers[i].id != id {
          kept := kept + [handlers[i]];
        }
      }
      handlers := kept;
    }

    /** The dispatch loop: callbacks registered for the exception's type are tried in order until one claims it;
        unclaimed exceptions go to what was saved for their own signal.  `traced` says that the signal reports a
        single step. */
    method Dispatch(signal: Signal, traced: bool, claims: Callback -> bool)
      returns (claimedBy: Option<nat>, forwardedTo: Option<Disposition>)
      ensures claimedBy.Some? ==>
                && claimedBy.value < |handlers|
                && Claims(handlers[claimedBy.value], signal, traced, claims)
                && (forall i :: 0 <= i < claimedBy.value ==> !Claims(handlers[i], signal, traced, claims))
                && forwardedTo.None?
      ensures claimedBy.None? ==>
                && (forall i :: 0 <= i < |handlers| ==> !Claims(handlers[i], signal, traced, claims))
                && (signal == SIGSEGV ==> forwardedTo == Some(saved.segv))
                && (signal == SIGBUS ==> forwardedTo == Some(saved.bus))
                && (signal == SIGTRAP ==> forwardedTo == Some(saved.trap))
                && (signal == SIGILL ==> forwardedTo == Some(saved.ill))
    {
      var kind := TypeOf(signal, traced);
      for i := 0 to |handlers|
        invariant forall k :: 0 <= k < i ==> !Claims(handlers[k], signal, traced, claims)
      {
        if handlers[i].kind == kind {
          if claims(handlers[i].callback) {
            return Some(i), None;
          }
        }
      }
      return None, Some(saved.Of(signal));
    }
  }

  function TypeOf(signal: Signal, traced: bool): ExceptionType {
    match signal
    case SIGSEGV => AccessViolation
    case SIGBUS => BusError
    case SIGTRAP => if traced then SingleStep else Breakpoint
    case SIGILL => IllegalInstruction
  }

  /** The callback is registered for what the signal reports, and claims it. */
  predicate Claims(h: Handler, signal: Signal, traced: bool, claims: Callback -> bool) {
    && claims(h.callback)
    && match h.kind
       case AccessViolation => signal == SIGSEGV
       case BusError => signal == SIGBUS
       case Breakpoint => signal == SIGTRAP && !traced
       case SingleStep => signal == SIGTRAP && traced
       case IllegalInstruction => signal == SIGILL
  }

  // ---------- Runs ----------

  datatype Op =
    | Enable
    | Disable
    | RefEnable
    | RefDisable
    | Register(kind: ExceptionType, callback: Callback)
    | Unregister(id: nat)

  function Apply(s: State, op: Op): State {
    match op
    case Enable => Enabled(s)
    case Disable => Disabled(s)
    case RefEnable => RefEnabled(s)
    case RefDisable => RefDisabled(s)
    case Register(kind, callback) => Registered(s, kind, callback)
    case Unregister(id) => Unregistered(s, id)
  }

  function Run(s: State, ops: seq<Op>): State
    decreases |ops|
  {
    if ops == [] then s else Run(Apply(s, ops[0]), ops[1..])
  }

  /** Subsystems release only what they hold. */
  predicate Balanced(s: State, ops: seq<Op>)
    decreases |ops|
  {
    ops != [] ==> (ops[0].RefDisable? ==> s.refCount > 0) && Balanced(Apply(s, ops[0]), ops[1..])
  }

  /** No disable() of the run happens while handlers are enabled and a subsystem still holds a reference. */
  predicate NeverDisabledInUse(s: State, ops: seq<Op>)
    decreases |ops|
  {
    ops != [] ==> !(ops[0].Disable? && s.enabled && s.refCount > 0) && NeverDisabledInUse(Apply(s, ops[0]), ops[1..])
  }

  /** While no disable() happened in use: installed, enabled and the saved originals go together. */
  ghost predicate Faithful(s: State, original: Dispositions) {
    && s.refCount >= 0 && (s.refCount > 0 ==> s.enabled)
    && (if s.enabled then s.current == ENGINE && s.saved == original else s.current == original)
  }

  /** After a disable() in use: the engine's handler stays, and a later install can only save the engine's own. */
  ghost predicate Lost(s: State) {
    s.refCount >= 0 && s.current == ENGINE && (s.enabled ==> s.saved == ENGINE)
  }

  lemma {:induction false} LostForever(s: State, ops: seq<Op>)
    requires Lost(s) && Balanced(s, ops)
    ensures Lost(Run(s, ops))
    decreases |ops|
  {
    if ops != [] {
      LostForever(Apply(s, ops[0]), ops[1..]);
    }
  }

  lemma {:induction false} FaithfulOrLost(s: State, ops: seq<Op>, original: Dispositions)
    requires Faithful(s, original) && Balanced(s, ops)
    ensures if NeverDisabledInUse(s, ops) then Faithful(Run(s, ops), original) else Lost(Run(s, ops))
    decreases |ops|
  {
    if ops != [] {
      var t := Apply(s, ops[0]);
      if ops[0].Disable? && s.enabled && s.refCount > 0 {
        LostForever(t, ops[1..]);
      } else {
        FaithfulOrLost(t, ops[1..], original);
      }
    }
  }

  /** The original dispositions come back with the final disable() exactly when no earlier disable() was called
      while handlers were enabled and a subsystem held a reference. */
  lemma RestoredIff(original: Dispositions, ops: seq<Op>)
    requires original != ENGINE && Balanced(Init(original), ops) && Run(Init(original), ops).refCount == 0
    ensures Disabled(Run(Init(original), ops)).current == original <==> NeverDisabledInUse(Init(original), ops)
  {
    FaithfulOrLost(Init(original), ops, original);
  }

  /** On every run, in use or not: whenever a reference is held or the engine is enabled, its handler is the
      current disposition of all four signals. */
  lemma CurrentWhenNeeded(original: Dispositions, ops: seq<Op>)
    requires Balanced(Init(original), ops)
    ensures var s := Run(Init(original), ops); s.refCount > 0 || s.enabled ==> s.current == ENGINE
  {
    FaithfulOrLost(Init(original), ops, original);
  }

  // ---------- Where unclaimed exceptions go ----------

  /** The call installs the engine's handlers, and so saves whatever is current. */
  predicate Installs(s: State, op: Op) {
    !s.enabled && (op.Enable? || (op.RefEnable? && s.refCount == 0))
  }

  /** No call installs the handlers while they are still current. */
  predicate NeverInstalledTwice(s: State, ops: seq<Op>)
    decreases |ops|
  {
    ops != [] ==> !(Installs(s, ops[0]) && s.current == ENGINE) && NeverInstalledTwice(Apply(s, ops[0]), ops[1..])
  }

  /** The handlers are current and forward to the originals, or the originals are current. */
  ghost predicate ForwardsTo(s: State, original: Dispositions) {
    (s.enabled ==> s.current == ENGINE) && if s.current == ENGINE then s.saved == original else s.current == original
  }

  lemma {:induction false} OwnForever(s: State, ops: seq<Op>)
    requires s.current == ENGINE && s.saved == ENGINE
    ensures Run(s, ops).current == ENGINE && Run(s, ops).saved == ENGINE
    decreases |ops|
  {
    if ops != [] {
      OwnForever(Apply(s, ops[0]), ops[1..]);
    }
  }

  lemma {:induction false} ForwardsUnlessTwice(s: State, ops: seq<Op>, original: Dispositions)
    requires original != ENGINE && ForwardsTo(s, original)
    ensures if NeverInstalledTwice(s, ops) then ForwardsTo(Run(s, ops), original)
            else Run(s, ops).current == ENGINE && Run(s, ops).saved == ENGINE
    decreases |ops|
  {
    if ops != [] {
      var t := Apply(s, ops[0]);
      if Installs(s, ops[0]) && s.current == ENGINE {
        OwnForever(t, ops[1..]);
      } else {
        ForwardsUnlessTwice(t, ops[1..], original);
      }
    }
  }

  /** An exception that reaches the engine's handler and that no callback claims is forwarded to the original
      disposition of its signal exactly when the handlers were never installed while already current; otherwise to the
      engine's own handler. */
  lemma UnclaimedGoesToOriginalIff(original: Dispositions, ops: seq<Op>)
    requires original != ENGINE && Run(Init(original), ops).current == ENGINE
    ensures var s := Run(Init(original), ops);
            if NeverInstalledTwice(Init(original), ops) then
              && s.saved.segv == original.segv && s.saved.bus == original.bus
              && s.saved.trap == original.trap && s.saved.ill == original.ill
            else
              && s.saved.segv == Engine && s.saved.bus == Engine && s.saved.trap == Engine && s.saved.ill == Engine
  {
    ForwardsUnlessTwice(Init(original), ops, original);
  }

  /** Without a disable() in use the handlers are never installed twice. */
  lemma {:induction false} UsedProperlyInstalledOnce(s: State, ops: seq<Op>, original: Dispositions)
    requires original != ENGINE && Faithful(s, original) && Balanced(s, ops) && NeverDisabledInUse(s, ops)
    ensures NeverInstalledTwice(s, ops)
    decreases |ops|
  {
    if ops != [] {
      UsedProperlyInstalledOnce(Apply(s, ops[0]), ops[1..], original);
    }
  }

  /** On a run without a disable() in use, every unclaimed exception goes to the original disposition. */
  lemma UnclaimedGoesToOriginal(original: Dispositions, ops: seq<Op>)
    requires original != ENGINE && Balanced(Init(original), ops) && NeverDisabledInUse(Init(original), ops)
    requires Run(Init(original), ops).current == ENGINE
    ensures var s := Run(Init(original), ops);
            && s.saved.segv == original.segv && s.saved.bus == original.bus
            && s.saved.trap == original.trap && s.saved.ill == original.ill
  {
    UsedProperlyInstalledOnce(Init(original), ops, original);
    UnclaimedGoesToOriginalIff(original, ops);
  }

  /** A concrete run after which the engine forwards to itself: a subsystem takes a reference, a script disables and
      enables again. */
  lemma ForwardsToItselfExample(original: Dispositions)
    ensures var ops := [RefEnable, Disable, Enable];
            && Balanced(Init(original), ops)
            && Run(Init(original), ops).current == ENGINE && Run(Init(original), ops).saved.segv == Engine
  {
    var ops := [RefEnable, Disable, Enable];
    assert ops[1..] == [Disable, Enable] && ops[1..][1..] == [Enable] && ops[1..][1..][1..] == [];
    var s1 := RefEnabled(Init(original));
    var s2 := Disabled(s1);
    assert Run(Init(original), ops) == Run(s1, ops[1..]) == Run(s2, ops[1..][1..]) == Enabled(s2);
    assert Balanced(s2, ops[1..][1..]) && Balanced(s1, ops[1..]);
  }

  // ---------- Letting go ----------

  predicate Asks(op: Op) {
    op.Enable? || op.RefEnable?
  }

  lemma {:induction false} EnabledIffAsked(s: State, ops: seq<Op>)
    requires Balanced(s, ops) && s.refCount >= 0 && (s.refCount > 0 ==> s.enabled)
    requires forall i :: 0 <= i < |ops| ==> !ops[i].Disable?
    ensures Run(s, ops).enabled <==> s.enabled || exists i :: 0 <= i < |ops| && Asks(ops[i])
    decreases |ops|
  {
    if ops != [] {
      var rest := ops[1..];
      EnabledIffAsked(Apply(s, ops[0]), rest);
      assert forall i :: 0 <= i < |rest| ==> rest[i] == ops[i + 1];
      if i :| 0 < i < |ops| && Asks(ops[i]) {
        assert Asks(rest[i - 1]);
      }
    }
  }

  /** Letting go of references never takes the engine's handlers out: without a disable(), the original dispositions
      are current exactly when nobody ever asked for the handlers, however few references are left. */
  lemma LettingGoRestoresNothing(original: Dispositions, ops: seq<Op>)
    requires original != ENGINE && Balanced(Init(original), ops)
    requires forall i :: 0 <= i < |ops| ==> !ops[i].Disable?
    ensures Run(Init(original), ops).current == original <==> forall i :: 0 <= i < |ops| ==> !Asks(ops[i])
  {
    hide Asks, Run;
    NothingDisabled(Init(original), ops);
    FaithfulOrLost(Init(original), ops, original);
    EnabledIffAsked(Init(original), ops);
  }

  /** A concrete run: the only reference is taken and let go, and the engine's handlers stay. */
  lemma LetGoExample(original: Dispositions)
    ensures var ops := [RefEnable, RefDisable];
            && Balanced(Init(original), ops)
            && Run(Init(original), ops).refCount == 0 && Run(Init(original), ops).current == ENGINE
  {
    var ops := [RefEnable, RefDisable];
    assert ops[1..] == [RefDisable] && ops[1..][1..] == [];
    var s := RefEnabled(Init(original));
    assert Run(Init(original), ops) == Run(s, ops[1..]) == RefDisabled(s);
    assert Balanced(s, ops[1..]);
  }

  lemma {:induction false} NothingDisabled(s: State, ops: seq<Op>)
    requires forall i :: 0 <= i < |ops| ==> !ops[i].Disable?
    ensures NeverDisabledInUse(s, ops)
    decreases |ops|
  {
    if ops != [] {
      NothingDisabled(Apply(s, ops[0]), ops[1..]);
    }
  }

  /** A concrete run that loses the originals: a subsystem takes a reference, a script disables, the subsystem
      lets go, and the closing disable() has nothing to undo. */
  lemma LostExample(original: Dispositions)
    requires original != ENGINE
    ensures var ops := [RefEnable, Disable, RefDisable];
            Balanced(Init(original), ops) && Disabled(Run(Init(original), ops)).current == ENGINE
  {
    var ops := [RefEnable, Disable, RefDisable];
    assert ops[1..] == [Disable, RefDisable] && ops[1..][1..] == [RefDisable] && ops[1..][1..][1..] == [];
    var s1 := RefEnabled(Init(original));
    var s2 := Disabled(s1);
    assert Run(Init(original), ops) == Run(s1, ops[1..]) == Run(s2, ops[1..][1..]) == RefDisabled(s2);
    assert Balanced(s2, ops[1..][1..]) && Balanced(s1, ops[1..]);
  }
}
