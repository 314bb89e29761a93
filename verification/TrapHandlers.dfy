/** What native_breakpoint.cc and native_hw_breakpoint.cc keep about their handler: whether it is installed, and
    under which id it is registered. */
module TrapHandlers {
  import opened ExceptionHandlers

  datatype Trap = Trap(installed: bool, id: nat)

  /** The handler and the exception state it is registered with. */
  datatype TrapState = TrapState(trap: Trap, exceptions: ExceptionHandlers.State)

  /** The handler goes with the last breakpoint. */
  function MaybeRemoved(t: TrapState, empty: bool): TrapState {
    if !t.trap.installed || !empty then t
    else TrapState(Trap(false, 0), RefDisabled(Unregistered(t.exceptions, t.trap.id)))
  }
}
