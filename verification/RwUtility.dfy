/** The blocking rendezvous around survey, refresh and reset. */
module RwUtility {
  import opened Basics

  /** How the wait on the future of a blocking call ends. */
  datatype Wait = Ready | TimedOut | Deferred

  /** A call without a callback blocks, and uses its own promise as the callback. */
  function Callback(upon: Option<Signal>, own: Signal): Signal {
    if upon.Some? then upon.value else own
  }

  /** What the wait leaves in `errno`. */
  function WaitError(upon: Option<Signal>, wait: Wait): Errno {
    if upon.Some? || wait == Ready then OK
    else if wait == TimedOut then ETIME
    else EWOULDBLOCK
  }
}
