/// Vocabulary shared by the poll and select back-ends of the event reactor:
/// the socket handle the reactor hands to a back-end, the decoded interest
/// flags, the trace of handler invocations that stands for the handlers
/// themselves, the readiness oracle that stands for the blocking system
/// call, and the two pieces of wait logic both back-ends share.
module Reactor {

  /** SW_OK and SW_ERR, the only results a back-end operation returns. */
  datatype Status = Ok | Err

  datatype Option<T> = None | Some(value: T)

  /** An interest bitmask as the reactor's isset_read_event,
      isset_write_event and isset_error_event predicates and the
      SW_EVENT_ONCE bit decode it. */
  datatype Interest = Interest(read: bool, write: bool, error: bool, once: bool)

  /** The handler kinds that get_handler looks up. */
  datatype Kind = Read | Write | Error

  /** The order in which both back-ends try the handlers of one
      descriptor: read, then write, then error. */
  function Rank(k: Kind): nat
  {
    match k
    case Read => 0
    case Write => 1
    case Error => 2
  }

  /** One handler invocation: the kind of handler and the descriptor of the
      event passed to it. */
  datatype Dispatch = Dispatch(kind: Kind, fd: int)

  /** What the blocking system call reported: a failure (recoverable when
      the reactor's catch_error says so), a time-out, or readiness data. */
  datatype Wakeup<R> = Failed(recoverable: bool) | TimedOut | Ready(result: R)

  /** How one round of the wait loop ends: the loop stops on an
      unrecoverable failure; otherwise the end-of-round callbacks run,
      tagged with whether the round timed out. */
  datatype RoundEnd = Stopped | EndCallbacks(timedOut: bool)

  datatype TimeVal = TimeVal(sec: int, usec: int)

  /** The socket handle, owned by the caller. Its descriptor never changes;
      its interest, its removed flag and its hang-up flag are updated in
      place by the reactor's bookkeeping and by the wait loop. */
  class Socket {
    const fd: int
    var events: Interest
    var removed: bool
    var eventHup: bool

    constructor (fd: int, events: Interest)
      ensures this.fd == fd && this.events == events
      ensures !removed && !eventHup
    {
      this.fd := fd;
      this.events := events;
      removed := false;
      eventHup := false;
    }
  }

  /** C division of a by a positive b: the quotient is truncated toward zero. */
  function CDiv(a: int, b: int): (q: int)
    requires b > 0
    ensures a >= 0 ==> q * b <= a < q * b + b
    ensures a < 0 ==> q * b - b < a <= q * b
  {
    if a >= 0 then a / b else -((-a) / b)
  }

  /** The timeout a wait call settles on before its loop: a configured
      timeout of zero is derived from the caller's timeval, no timeval
      meaning "wait forever" (-1). Shared by both back-ends. */
  function EffectiveTimeout(timeoutMsec: int, timeo: Option<TimeVal>): (t: int)
    ensures timeoutMsec != 0 ==> t == timeoutMsec
    ensures timeoutMsec == 0 && timeo.None? ==> t == -1
    ensures timeoutMsec == 0 && timeo.Some? && timeo.value.sec >= 0 && timeo.value.usec >= 0 ==>
              t >= 0 && t * 1000 <= timeo.value.sec * 1000000 + timeo.value.usec < t * 1000 + 1000
  {
    if timeoutMsec != 0 then timeoutMsec
    else match timeo
      case None => -1
      case Some(tv) =>
        var t := tv.sec * 1000 + CDiv(tv.usec, 1000);
        assert tv.sec * 1000 * 1000 == tv.sec * 1000000;
        t
  }

  /** The classification both wait loops apply to the system call's result. */
  function RoundEndOf<R>(w: Wakeup<R>): (e: RoundEnd)
    ensures e == Stopped <==> w.Failed? && !w.recoverable
    ensures e == EndCallbacks(true) <==> w.TimedOut?
    ensures e == EndCallbacks(false) <==> (w.Failed? && w.recoverable) || w.Ready?
  {
    match w
    case Failed(recoverable) => if recoverable then EndCallbacks(false) else Stopped
    case TimedOut => EndCallbacks(true)
    case Ready(_) => EndCallbacks(false)
  }
}
