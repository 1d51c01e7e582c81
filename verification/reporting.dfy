/**
 `errorf`: how a report takes effect. The store's test context selects one
 of four behaviours; the source tells them apart by comparing the context
 with two sentinel values and nil, and here they are an explicit mode.
 */
module Reporting {

  /** The test context a store is built with, as the source distinguishes it. */
  datatype Context =
    | Nil                 // no test context at all
    | IgnoreSentinel      // the package's `IgnoreErrors` value
    | LogSentinel         // the package's `LogErrors` value
    | Test(id: nat)       // any real test or benchmark

  /** The four reporting behaviours. */
  datatype Mode = IgnoreErrors | LogErrors | NoContext | FailTest

  /** The observable effect of one report carrying message `msg`. */
  datatype Effect<M> =
    | NoEffect
    | Logged(msg: M)      // written to the test log
    | Panicked(msg: M)    // the process aborts with the message
    | Failed(msg: M)      // a non-fatal test failure; the test continues

  /** The sentinel-identity switch, resolved once: each context has exactly one mode. */
  function ModeOf(t: Context): (m: Mode)
    ensures m == NoContext <==> t == Nil
    ensures m == FailTest <==> t.Test?
    ensures m == IgnoreErrors <==> t == IgnoreSentinel
    ensures m == LogErrors <==> t == LogSentinel
  {
    match t
    case IgnoreSentinel => IgnoreErrors
    case LogSentinel => LogErrors
    case Nil => NoContext
    case Test(_) => FailTest
  }

  /** Execution goes on after the effect. */
  predicate Continues<M>(e: Effect<M>) {
    !e.Panicked?
  }

  /**
   Go's `errorf`: the effect of reporting `msg` under `mode`. It is total,
   carries the message unchanged, stops execution only without a test
   context, and leaves no trace only in the ignoring mode.
   */
  function Errorf<M>(mode: Mode, msg: M): (e: Effect<M>)
    ensures Continues(e) <==> mode != NoContext
    ensures e == NoEffect <==> mode == IgnoreErrors
    ensures e != NoEffect ==> e.msg == msg
    ensures e.Failed? <==> mode == FailTest
  {
    match mode
    case IgnoreErrors => NoEffect
    case LogErrors => Logged(msg)
    case NoContext => Panicked(msg)
    case FailTest => Failed(msg)
  }
}
