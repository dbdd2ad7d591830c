# swoole reactor back-ends: poll and select

This project models the two portable event-loop back-ends of swoole's
reactor, `src/reactor/poll.cc` and `src/reactor/select.cc`, and proves
properties of the model in Dafny.

A reactor keeps a table of registered sockets. Each socket records an
interest: read, write, error, and a one-shot flag. Each back-end does four
things:

- `add`, `set` and `del` register a socket, change its interest and remove it.
- `wait` runs rounds. Each round asks the kernel which descriptors are
  ready and then fires the read, write and error handlers of the ready
  sockets (for poll, with the two exceptions listed below: an entry moved
  down by a one-shot deletion is skipped, and a hang-up or error that
  comes with readiness fires no error handler).
- A socket that asks for one-shot is deleted after its handlers ran,
  unless it was already removed (for poll, also unless its iteration left
  early through the error branch, or it was the entry skipped after a
  one-shot deletion).
- Each round ends with the end callbacks, or the loop stops on an
  unrecoverable error.

Modules:

- `Reactor` (`reactor.dfy`) holds the vocabulary both back-ends share:
  - the `Socket` class, with its descriptor, interest, `removed` flag and
    `event_hup` flag;
  - the interest, handler kinds and the handler trace a round produces;
  - the initial timeout `wait` settles on;
  - the classification of the system call's result: failure, time-out or
    readiness.
- `PollEvents` (`poll_events.dfy`) is the pure part of the poll back-end:
  - the masks `add` and `set` request;
  - which handlers fire for one table entry;
  - `PollRound`, the outcome of one dispatch pass over the whole table,
    compaction included, and lemmas about it.
- `PollPass` (`poll_pass.dfy`) is the loop invariant of the poll dispatch
  pass, stated on value snapshots of the table and of the sockets' flags.
- `PollBackend` (`poll_backend.dfy`) is the class `PollReactor`:
  - two arrays, the socket pointers and the `pollfd` records, plus the
    count of registered entries;
  - `add`, `set`, `del` and `exist` as methods with loops;
  - the dispatch pass as a loop over the arrays, proved to compute
    `PollRound`.
- `SelectEvents` (`select_events.dfy`) is the pure part of the select
  back-end:
  - the `FD_SETSIZE` guards of `SW_FD_SET`, `SW_FD_CLR` and `SW_FD_ISSET`;
  - the `timeval` handed to `select`;
  - the handlers fired for one descriptor;
  - `SelectRound`, the dispatch pass in ascending descriptor order, and
    lemmas about it.
- `SelectBackend` (`select_backend.dfy`) is the class `SelectReactor`:
  - a map from descriptor to socket, the three fd-sets, `maxfd` and the
    count;
  - `add`, `set` and `del`;
  - the rebuild of the fd-sets at the top of each round, as a loop over
    the map;
  - the dispatch loop over `0 .. maxfd`, proved to compute `SelectRound`.
  The select contracts are stated on snapshots: `Table` (each
  descriptor's socket with its removed flag, interest and `event_hup`
  flag, as the pass sees them), `Interests` (each descriptor's interest, as the rebuild reads it)
  and `Retire` (the table after a pass, with the deleted descriptors marked
  removed).

The system call is not executed. Its outcome is a parameter of each round,
of type `Wakeup`: a failure (recoverable or not), a time-out, or readiness
together with what the kernel reports. For poll, readiness is the returned
mask of each entry. For select, it is the three sets of ready descriptors.
Handlers are not run either. A round's effect on handlers is the sequence
of `Dispatch(kind, fd)` invocations it makes, in order.

Behaviours of the code as written that the model keeps and the lemmas make
visible:

- **One-shot compaction in poll's wait skips an entry.** Deleting entry `i`
  moves entry `i + 1` down into slot `i`. The loop's increment then steps
  over that entry, so it gets no handler in this round, ready or not, and
  it stays in the table (`PollEvents.PollRoundSkipsSuccessor`).
- **Poll's del reads one slot past the registered entries.** The last step
  of the shift reads slot `event_num`, which is one past the end of an
  array of `max_fd_num` slots when the table is full. The model gives both
  arrays one spare slot so that this read is defined. The branch
  `i == event_num` inside that loop is dead code: the model proves it
  unreachable.
- **Poll's set drops error interest.** `set` translates only read and write
  interest into the mask, while `add` also requests `POLLHUP` for error
  interest (`PollEvents.SetMask`).
- **Poll folds errors into reads and writes.** A hang-up or error that
  comes with read or write readiness fires no error handler. It also skips
  the one-shot check for that entry, because the error branch leaves the
  iteration early.
- **Select's timeval has an unscaled microseconds field.** The millisecond
  remainder is stored as is in `tv_usec`, so the timeout `select` receives
  is exact only for whole seconds (`SelectEvents.SelectTimeoutUnscaled`).
- **Select's add has no duplicate check.** A second add for the same
  descriptor keeps the first socket in the map, and still succeeds and
  counts.
- **Select's add accepts `FD_SETSIZE` itself.** The guard rejects only
  larger descriptors, but `SW_FD_SET` never puts descriptor `FD_SETSIZE`
  in a set, so it never fires a handler.

## Model

| member | source | states |
|---|---|---|
| Reactor.CDiv | src/reactor/poll.cc:163 | C's `/` on a positive divisor truncates toward zero: the quotient times the divisor is within one divisor of the dividend, on the zero side |
| Reactor.EffectiveTimeout | src/reactor/poll.cc:159-165 | a non-zero configured timeout is kept; zero with no timeval becomes -1 (wait forever); zero with a timeval becomes its duration in whole milliseconds, rounded down (select.cc:129-135 is the same code) |
| Reactor.RoundEndOf | src/reactor/poll.cc:174-183 | a round stops the loop exactly on an unrecoverable failure, ends with `execute_end_callbacks(true)` exactly on a time-out, and with `execute_end_callbacks(false)` exactly on a recoverable failure or readiness (select.cc:174-184 is the same code) |
| PollEvents.AddMask | src/reactor/poll.cc:83-93 | the mask add requests has POLLIN iff read interest, POLLOUT iff write, POLLHUP iff error, and no other bit |
| PollEvents.SetMask | src/reactor/poll.cc:107-113 | the mask set writes has POLLIN iff read and POLLOUT iff write and nothing else; it equals add's mask with error interest dropped |
| PollEvents.Find | src/reactor/poll.cc:104-106 | the index of the first entry for a descriptor, or the table length when there is none |
| PollEvents.EntryTrace | src/reactor/poll.cc:193-222 | for one entry: read fires iff POLLIN is returned and the socket is not removed, write iff POLLOUT is returned and it is not removed, error iff POLLHUP or POLLERR is returned with neither POLLIN nor POLLOUT and it is not removed; an error handler fires alone; at most read and write fire together, in that order |
| PollEvents.EntryTraceOrdered | src/reactor/poll.cc:192-222 | each handler fires at most once per entry, in the order read, write, error |
| PollEvents.HupMarked | src/reactor/poll.cc:193-196 | a read with POLLHUP or POLLERR on a socket that is not removed sets `event_hup` before the read handler runs |
| PollEvents.SkipsOnceCheck | src/reactor/poll.cc:212-216 | a hang-up or error together with read or write readiness, on a socket that is not removed, leaves the iteration through `continue` before the one-shot check |
| PollEvents.OnceDeletes | src/reactor/poll.cc:223-225 | the entry is deleted after its handlers iff the iteration reached the one-shot check, the socket is not removed and its interest has the one-shot bit, whether or not it was ready |
| PollEvents.PollRound | src/reactor/poll.cc:185-226 | one dispatch pass as the loop runs it: each visited row's handlers, its `event_hup` mark and its one-shot deletion, with the row after a deleted row stepped over; the table it leaves is never longer than the one it started from |
| PollEvents.VisitedFrom | src/reactor/poll.cc:185-225 | reference definition of the indices the pass visits from an index on: that index, then the next one, or the one after it when the row is deleted as one-shot; all within the table |
| PollEvents.VisitedSteps | src/reactor/poll.cc:185-225 | from a visited index the pass goes on to the next visit, and the row right after a row deleted as one-shot is never visited |
| PollEvents.PollRoundVisited | src/reactor/poll.cc:185-226 | both directions: a pass deletes exactly the sockets of the visited rows that OnceDeletes, marks `event_hup` on exactly the visited rows that are HupMarked, and fires a handler exactly when a visited row with that descriptor calls for it |
| PollEvents.PollRoundFromTable | src/reactor/poll.cc:185-226 | every row a pass keeps was in the table; every socket it deletes or marks `event_hup` belongs to a row that calls for it |
| PollEvents.PollRoundSound | src/reactor/poll.cc:185-222 | every handler a pass fires is one that the returned mask of a row with that descriptor calls for |
| PollEvents.PollRoundOrdered | src/reactor/poll.cc:185-226 | with distinct descriptors, and one-shot deletions or not, a pass fires the handlers of a lower-index row before those of a higher one, those of one row in the order read, write, error, and no handler twice |
| PollEvents.PollRoundSkipsSuccessor | src/reactor/poll.cc:223-225 | when the first row is deleted as one-shot, the row after it gets no handler in this pass and is the first row left in the table |
| PollEvents.PollRoundVisitsAll | src/reactor/poll.cc:185-226 | with no one-shot deletion, the pass fires every row's handlers in table order, keeps the table unchanged and deletes nothing |
| PollEvents.PollRoundCount | src/reactor/poll.cc:223-225 | the table shrinks by exactly the number of sockets deleted |
| PollEvents.PollRoundDeletedLeave | src/reactor/poll.cc:223-224 | a deleted socket leaves the table, and a socket already removed is never deleted |
| PollBackend.PollReactor.constructor | src/reactor/poll.cc:39-54 | an empty table whose capacity is `max_fd_num` |
| PollBackend.PollReactor.Exist | src/reactor/poll.cc:235-243 | true iff some registered entry has the descriptor |
| PollBackend.PollReactor.Add | src/reactor/poll.cc:63-96 | fails iff the descriptor is already registered or the table is full, and then changes nothing; otherwise appends the socket, and a pollfd with add's mask, at index `event_num`, and counts it |
| PollBackend.PollReactor.Set | src/reactor/poll.cc:98-121 | succeeds iff the descriptor is registered; rewrites the mask of its first entry to set's mask and records the interest on the socket; on failure nothing changes |
| PollBackend.PollReactor.Del | src/reactor/poll.cc:123-150 | fails iff the socket is already removed or its descriptor is not registered, and then changes nothing; otherwise the entry is removed from both arrays, keeping the order of the others, the count drops by one and the socket is marked removed |
| PollBackend.PollReactor.ShiftLeft | src/reactor/poll.cc:133-144 | every slot from the found index up to the old count takes its successor's contents; the slots before it and from the old count on are unchanged |
| PollBackend.PollReactor.DispatchEntry | src/reactor/poll.cc:193-222 | fires EntryTrace for the entry, sets `event_hup` iff a read comes with a hang-up or an error, and reports whether the error branch left the iteration early |
| PollBackend.PollReactor.Visit | src/reactor/poll.cc:185-225 | one iteration: the entry's handlers, then a one-shot deletion iff the error branch did not leave early, the socket is not removed and it asks for one-shot; the rows after a deletion move down one index |
| PollBackend.PollReactor.VisitTable | src/reactor/poll.cc:185-225 | one iteration on the whole table: a deletion drops row i and otherwise the table is unchanged; the visited socket's flags change as the entry's handlers and deletion say |
| PollBackend.PollReactor.Advance | src/reactor/poll.cc:185-225 | one iteration stated on the snapshots: the table loses the row PollRound's first step drops, and only the visited socket's flags change |
| PollBackend.PollReactor.Step | src/reactor/poll.cc:185-225 | one iteration keeps the loop invariant: the outcome so far plus a pass over the rows left is still the pass over the whole table |
| PollBackend.PollReactor.DispatchLoop | src/reactor/poll.cc:185-226 | the loop `for (i = 0; i < event_num; i++)`, with the count shrinking under it, computes PollRound's trace, remaining table and socket flags |
| PollBackend.PollReactor.DispatchPass | src/reactor/poll.cc:185-226 | the handlers fired, the table left and every socket's removed and `event_hup` flags are those of PollRound on the table the pass started from |
| PollBackend.WithRevents | src/reactor/poll.cc:173 | poll's write-back changes only the returned mask of each registered pollfd; descriptor, requested mask and socket stay |
| PollBackend.PollReactor.Deliver | src/reactor/poll.cc:173 | poll's write-back stores the returned mask in each registered pollfd and changes nothing else |
| PollBackend.PollReactor.Ready | src/reactor/poll.cc:173-226 | a round with readiness runs PollRound over the table with the returned masks |
| PollBackend.PollReactor.Wait | src/reactor/poll.cc:169-231 | a round ends as RoundEndOf says; on failure or time-out no handler fires and the table and every registered socket are unchanged; on readiness the trace, the table left and the sockets' flags are PollRound's |
| SelectEvents.FdSet | src/reactor/select.cc:40-43 | adds the descriptor to the set iff it is below FD_SETSIZE; other members are unchanged |
| SelectEvents.FdClr | src/reactor/select.cc:44-47 | removes the descriptor from the set iff it is below FD_SETSIZE; other members are unchanged |
| SelectEvents.FdIsSet | src/reactor/select.cc:48 | SW_FD_ISSET: a descriptor tests as set only when it is below FD_SETSIZE and in the set |
| SelectEvents.FdSetIsSet | src/reactor/select.cc:40-48 | a descriptor put in with SW_FD_SET tests as set iff it is below FD_SETSIZE, one cleared with SW_FD_CLR never tests as set, and other descriptors test as before |
| SelectEvents.WantedStep | src/reactor/select.cc:148-160 | one more descriptor in the rebuild adds it to a kind's set exactly as SW_FD_SET would when its interest asks for that kind, so the rebuilt sets do not depend on the map's iteration order |
| SelectEvents.SelectTimeout | src/reactor/select.cc:162-171 | UINT_MAX seconds for a negative timeout; zero when deferred tasks are pending; otherwise whole seconds and a remainder below 1000 that add back up to the timeout in milliseconds |
| SelectEvents.SelectTimeoutUnscaled | src/reactor/select.cc:169-170 | the timeval lasts exactly the timeout iff the timeout is a whole number of seconds, and it never lasts longer |
| SelectEvents.FdTrace | src/reactor/select.cc:195-218 | for one descriptor, each handler fires iff its own set reports the descriptor (below FD_SETSIZE) and the socket is not removed; all are for that descriptor, in the order read, write, error |
| SelectEvents.Meet | src/reactor/select.cc:173 | what select leaves in each fd-set it was given: the descriptors it reports ready in that set |
| SelectEvents.SelectRound | src/reactor/select.cc:185-222 | the dispatch pass over descriptors 0 .. n - 1 in ascending order, skipping descriptors not in the map; a deletion removes only the current descriptor, so later ones are seen as the pass began |
| SelectEvents.SelectRoundNext | src/reactor/select.cc:185-222 | the pass up to n + 1 is the pass up to n followed by descriptor n's handlers, and deletes n iff its entry is one-shot and not removed |
| SelectEvents.SelectRoundDeleted | src/reactor/select.cc:219-221 | a pass deletes exactly the visited descriptors whose entry is one-shot and not removed |
| SelectEvents.SelectRoundFires | src/reactor/select.cc:185-218 | a handler is in the trace iff its descriptor is below the bound, is in the map, and its set reports it while the socket is not removed |
| SelectEvents.SelectRoundBound | src/reactor/select.cc:185 | every handler of the pass is for a descriptor from 0 up to the bound |
| SelectEvents.SelectRoundOrdered | src/reactor/select.cc:185-218 | the trace is in ascending descriptor order and, for one descriptor, read before write before error; no handler fires twice |
| SelectBackend.SelectReactor.constructor | src/reactor/select.cc:35-37 | an empty map, empty sets, maxfd 0 and a count of 0 |
| SelectBackend.SelectReactor.Add | src/reactor/select.cc:75-90 | fails iff the descriptor exceeds FD_SETSIZE, and then changes nothing; otherwise counts the add, files the socket only if the descriptor is not already in the map, and raises maxfd to the descriptor |
| SelectBackend.SelectReactor.Del | src/reactor/select.cc:92-109 | fails iff the socket is already removed or its descriptor is not in the map, and then changes nothing; otherwise erases the descriptor, clears it from the three sets through SW_FD_CLR, drops the count and marks the socket removed |
| SelectBackend.SelectReactor.Set | src/reactor/select.cc:111-120 | succeeds iff the descriptor is in the map, and then records the interest on the socket; on failure nothing changes |
| SelectBackend.SelectReactor.Rebuild | src/reactor/select.cc:140-160 | the three sets become exactly the descriptors of the map whose interest asks for each kind and that are below FD_SETSIZE; the map, maxfd and count are unchanged |
| SelectBackend.SelectReactor.FillAll | src/reactor/select.cc:148-160 | the loop over the map, from zeroed sets, fills them as Rebuild states |
| SelectBackend.SelectReactor.FillOne | src/reactor/select.cc:149-159 | one entry joins the sets its interest names |
| SelectBackend.SelectReactor.Handlers | src/reactor/select.cc:195-218 | fires FdTrace for the socket against the current sets |
| SelectBackend.SelectReactor.Visit | src/reactor/select.cc:186-221 | nothing for a descriptor not in the map; otherwise FdTrace, then a deletion iff the entry is one-shot and not removed, which erases it from the map and the sets and marks it removed; the socket's interest and `event_hup` flag stay as they were, and the map, sets and count are unchanged when nothing is deleted |
| SelectBackend.SelectReactor.Advance | src/reactor/select.cc:186-221 | Visit stated on the snapshots: a descriptor not yet visited is seen as the pass began, and the loop invariant extends by that descriptor |
| SelectBackend.SelectReactor.PassFrom | src/reactor/select.cc:185-222 | the loop over 0 .. maxfd computes SelectRound's trace and deletions on the table and sets as it found them |
| SelectBackend.SelectReactor.Pass | src/reactor/select.cc:185-222 | the trace is SelectRound's; the map and the sets lose exactly the deleted descriptors; the count drops by as many; exactly their sockets are marked removed, and every socket's interest and `event_hup` flag stay as they were |
| SelectBackend.SelectReactor.ReadyPass | src/reactor/select.cc:173-222 | select leaves in each set only what it reports ready; the pass then runs SelectRound over those sets, with Pass's outcome for the map, the sets, the count and every socket's flags |
| SelectBackend.SelectReactor.Wait | src/reactor/select.cc:139-227 | one round: the sets are rebuilt from the map, the timeval is SelectTimeout, and the round ends as RoundEndOf says; on failure or time-out no handler fires and the map, the count and every mapped socket are unchanged; on readiness the trace is SelectRound over the rebuilt sets met with what select reported, exactly the one-shot deletions leave the map and are marked removed, and no socket's interest or `event_hup` flag changes |

## Left out

- System calls: `poll` and `select` are replaced by their outcome, a parameter of each round. The kernel's semantics of readiness are not modelled.
- Handlers: the read, write and error handlers are not run. The model records which one fires for which descriptor, in order. In the model handlers cannot change the table, so a handler that deletes or adds sockets during a pass is not modelled. A handler's return value only feeds a log line.
- The outer `while (reactor->running)` loop: each `Wait` models one round. `before_wait`, `onBegin`, `catch_error`'s own logic, `get_timeout_msec` and `SW_REACTOR_CONTINUE` belong to the reactor class, which is not part of this model.
- Logging (`swWarn`, `swTrace`, `swoole_error_log`) and the `free` functions, which only release memory.
- The reactor's `_add`, `_set` and `_del` are not part of this model. Their effects are taken to be: `_add` counts the socket, `_set` records the interest on the socket, and `_del` uncounts it and marks it removed.
- PollBackend.PollReactor.Add: whatever else `_add` records on the socket is not modelled.
- SelectBackend.SelectReactor.Add: whatever else `_add` records on the socket is not modelled, so the interest passed to add reaches the fd-sets only through the socket's own interest.
- PollBackend.PollReactor.Wait: the timeout handed to `poll` comes from `get_timeout_msec`, which is not part of this model. The initial timeout is modelled separately, by `EffectiveTimeout`.
- SelectBackend.SelectReactor.Wait: the timeval is computed but is not tied to the outcome parameter.
- SelectBackend.SelectReactor.Wait: on failure or time-out the model states the sets as the rebuild left them, not what `select` writes into them. They are rebuilt before their next use.
- PollBackend.PollReactor.Wait: on failure or time-out the model states every pollfd unchanged, while `poll` writes each entry's `revents` (clearing them on a time-out). Nothing observes the difference, because `Deliver` rewrites every returned mask before the next dispatch.
- Interest is four booleans (read, write, error, once). The bit layout of `SW_EVENT_*` and the `isset_*_event` helpers belong to the reactor header, which is not part of this model.
- An `fd_set` is a set of integers. The select model does not capture its fixed size beyond the FD_SETSIZE guards.
- Descriptors are unbounded integers. A negative descriptor gets no special treatment, as in the source.
- PollBackend.PollReactor.constructor: both arrays have one slot more than `max_fd_num`, so that `del`'s read one past the last entry stays inside the array. The model therefore does not capture that this read is out of bounds when the table is full.
- Integer widths: `event_num`, `maxfd` and the timeout are unbounded. The source's `int` and `uint32_t` do not wrap at the sizes a reactor reaches.
- SelectBackend.SelectReactor.constructor: the source's constructor only sets `maxfd`, leaving the three `fd_set` members uninitialised; the model starts them empty. Nothing reads them before the first rebuild zeroes them.
- Socket fields other than the descriptor, interest, `removed` and `event_hup` (such as `fd_type`, used to look up a handler) are not modelled.
