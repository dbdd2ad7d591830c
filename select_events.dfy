/// The pure part of the select back-end: the guarded fd-set operations,
/// the timeval handed to select, the handlers fired for one descriptor,
/// and the outcome of one dispatch pass in ascending descriptor order.
module SelectEvents {
  import opened Reactor

  /** The capacity of an fd_set. */
  const FD_SETSIZE: int := 1024
  /** The largest unsigned int, used as "no time-out". */
  const UINT_MAX: int := 4294967295

  /** SW_FD_SET: adds fd to the set only when it fits in an fd_set. */
  function FdSet(s: set<int>, fd: int): (t: set<int>)
    ensures fd in t <==> fd in s || fd < FD_SETSIZE
    ensures forall x :: x != fd ==> (x in t <==> x in s)
  {
    if fd < FD_SETSIZE then s + {fd} else s
  }

  /** SW_FD_CLR: removes fd from the set only when it fits in an fd_set. */
  function FdClr(s: set<int>, fd: int): (t: set<int>)
    ensures fd in t <==> fd in s && fd >= FD_SETSIZE
    ensures forall x :: x != fd ==> (x in t <==> x in s)
  {
    if fd < FD_SETSIZE then s - {fd} else s
  }

  /** SW_FD_ISSET: a descriptor beyond the fd_set never tests as set. */
  predicate FdIsSet(s: set<int>, fd: int) { fd < FD_SETSIZE && fd in s }

  /** A descriptor put in a set with SW_FD_SET tests as set exactly when
      it fits in an fd_set; one cleared with SW_FD_CLR never tests as set;
      neither touches how other descriptors test. */
  lemma FdSetIsSet(s: set<int>, fd: int)
    ensures FdIsSet(FdSet(s, fd), fd) <==> fd < FD_SETSIZE
    ensures !FdIsSet(FdClr(s, fd), fd)
    ensures forall x :: x != fd ==> (FdIsSet(FdSet(s, fd), x) <==> FdIsSet(s, x))
    ensures forall x :: x != fd ==> (FdIsSet(FdClr(s, fd), x) <==> FdIsSet(s, x))
  {
  }

  /** Whether interest i asks for events of kind k. */
  predicate Asks(i: Interest, k: Kind)
  {
    match k
    case Read => i.read
    case Write => i.write
    case Error => i.error
  }

  /** The descriptors among keys that the fd-set for kind k holds once the
      rebuild has gone over them: those whose interest asks for k and that
      fit in an fd_set. */
  function Wanted(ints: map<int, Interest>, k: Kind, keys: set<int>): set<int>
  {
    set fd | fd in keys && fd in ints && fd < FD_SETSIZE && Asks(ints[fd], k)
  }

  /** Some descriptor of a non-empty set. */
  lemma Pick(s: set<int>) returns (fd: int)
    requires s != {}
    ensures fd in s
  {
    if forall x :: x !in s {
      assert false;
    }
    fd :| fd in s;
  }

  /** Going over one more descriptor adds it to the fd-set for kind k
      exactly when SW_FD_SET would. */
  lemma WantedStep(ints: map<int, Interest>, k: Kind, keys: set<int>, fd: int)
    requires fd in ints
    ensures Wanted(ints, k, keys + {fd}) ==
              if Asks(ints[fd], k) then FdSet(Wanted(ints, k, keys), fd) else Wanted(ints, k, keys)
  {
  }

  /** The timeval the wait loop passes to select: UINT_MAX seconds for a
      negative timeout, zero when deferred tasks are pending, and otherwise
      the seconds and the millisecond remainder, the latter stored as is in
      the microseconds field. */
  function SelectTimeout(msec: int, deferTasks: bool): (tv: TimeVal)
    ensures msec < 0 ==> tv == TimeVal(UINT_MAX, 0)
    ensures msec >= 0 && deferTasks ==> tv == TimeVal(0, 0)
    ensures msec >= 0 && !deferTasks ==> 0 <= tv.usec < 1000 && tv.sec >= 0 && tv.sec * 1000 + tv.usec == msec
  {
    if msec < 0 then TimeVal(UINT_MAX, 0)
    else if deferTasks then TimeVal(0, 0)
    else
      var sec := CDiv(msec, 1000);
      TimeVal(sec, msec - sec * 1000)
  }

  /** The duration of a timeval in microseconds. */
  function Micros(tv: TimeVal): int { tv.sec * 1000000 + tv.usec }

  /** The timeval select receives lasts msec milliseconds exactly when msec
      is a whole number of seconds: the remainder is passed in the
      microseconds field without being scaled, so it counts a thousand
      times too little. */
  lemma SelectTimeoutUnscaled(msec: int)
    requires msec >= 0
    ensures Micros(SelectTimeout(msec, false)) == msec * 1000 <==> msec % 1000 == 0
    ensures Micros(SelectTimeout(msec, false)) <= msec * 1000
  {
    var tv := SelectTimeout(msec, false);
    assert msec == tv.sec * 1000 + tv.usec;
    assert msec * 1000 == Micros(tv) + tv.usec * 999;
    assert tv.usec == msec % 1000;
  }

  /** The sets select reports as ready: readable, writable, exceptional. */
  datatype Sets = Sets(r: set<int>, w: set<int>, e: set<int>)

  /** The fd-sets the rebuild fills from the interests of the descriptors
      in keys. */
  function Requested(ints: map<int, Interest>, keys: set<int>): Sets
  {
    Sets(Wanted(ints, Read, keys), Wanted(ints, Write, keys), Wanted(ints, Error, keys))
  }

  /** What select leaves in the fd-sets it was given: the descriptors of
      each set it reports ready. */
  function Meet(a: Sets, b: Sets): Sets
  {
    Sets(a.r * b.r, a.w * b.w, a.e * b.e)
  }

  /** The fd-sets with the descriptors in del cleared. */
  function Without(a: Sets, del: set<int>): Sets
  {
    Sets(a.r - del, a.w - del, a.e - del)
  }

  /** A registered descriptor as the pass sees it: its socket and the
      socket's removed flag, interest and event_hup flag when the pass
      reaches it. The select back-end reads event_hup nowhere and writes
      it nowhere; it is here so that the pass can state it unchanged. */
  datatype Entry = Entry(sock: Socket, removed: bool, events: Interest, hup: bool)

  /** Whether the handler of kind k fires for descriptor fd: each kind is
      tested on its own set, with no folding of errors into reads or
      writes. */
  predicate Fires(k: Kind, fd: int, en: Entry, rs: Sets)
  {
    !en.removed && match k
      case Read => FdIsSet(rs.r, fd)
      case Write => FdIsSet(rs.w, fd)
      case Error => FdIsSet(rs.e, fd)
  }

  /** The handlers fired for descriptor fd, in the order read, write, error. */
  function FdTrace(fd: int, en: Entry, rs: Sets): (t: seq<Dispatch>)
    ensures forall k :: Dispatch(k, fd) in t <==> Fires(k, fd, en, rs)
    ensures forall d :: d in t ==> d.fd == fd
    ensures forall i, j :: 0 <= i < j < |t| ==> Rank(t[i].kind) < Rank(t[j].kind)
  {
    (if Fires(Read, fd, en, rs) then [Dispatch(Read, fd)] else [])
    + (if Fires(Write, fd, en, rs) then [Dispatch(Write, fd)] else [])
    + (if Fires(Error, fd, en, rs) then [Dispatch(Error, fd)] else [])
  }

  /** The entry is auto-deleted after its handlers ran. */
  predicate Deletes(en: Entry) { !en.removed && en.events.once }

  /** The outcome of a pass: the handler trace and the descriptors deleted
      as one-shot. */
  datatype SelectOut = SelectOut(trace: seq<Dispatch>, deleted: set<int>)

  /** The dispatch pass over descriptors 0 .. n - 1 of the table, in
      ascending order, skipping descriptors not in the table. A deletion
      only removes the current descriptor, so every later descriptor is
      seen as it was when the pass began. */
  function SelectRound(tab: map<int, Entry>, rs: Sets, n: int): (out: SelectOut)
    decreases n
  {
    if n <= 0 then SelectOut([], {})
    else
      var prev := SelectRound(tab, rs, n - 1);
      var fd := n - 1;
      if fd in tab then
        SelectOut(prev.trace + FdTrace(fd, tab[fd], rs), prev.deleted + (if Deletes(tab[fd]) then {fd} else {}))
      else prev
  }

  /** The table after a pass that deleted del: a deleted descriptor's
      socket is marked removed; nothing else changes. */
  function Retire(tab: map<int, Entry>, del: set<int>): (t: map<int, Entry>)
    ensures t.Keys == tab.Keys
    ensures forall fd :: fd in tab ==> t[fd] == if fd in del then tab[fd].(removed := true) else tab[fd]
  {
    map fd | fd in tab :: if fd in del then tab[fd].(removed := true) else tab[fd]
  }

  /** A descriptor the pass has not reached yet is reported as the ready
      sets first had it, whatever the pass cleared from them. */
  lemma FdTraceUnvisited(fd: int, en: Entry, rs: Sets, del: set<int>)
    requires fd !in del
    ensures FdTrace(fd, en, Without(rs, del)) == FdTrace(fd, en, rs)
  {
  }

  /** Dropping one more descriptor from what is left of a map. */
  lemma DropOne<T>(m0: map<int, T>, del: set<int>, fd: int, m: map<int, T>, m': map<int, T>, dropped: bool)
    requires m == m0 - del && fd !in del
    requires dropped ==> fd in m && m' == m - {fd}
    requires !dropped ==> m' == m
    ensures m' == m0 - (del + if dropped then {fd} else {})
    ensures |del + if dropped then {fd} else {}| == |del| + if dropped then 1 else 0
  {
    if dropped {
      assert m'.Keys == m0.Keys - (del + {fd});
    } else {
      assert del + {} == del;
    }
  }

  /** Clearing one more descriptor from what is left of the ready sets. */
  lemma DropSets(rs0: Sets, del: set<int>, fd: int, rs: Sets, rs': Sets, dropped: bool)
    requires rs == Without(rs0, del)
    requires dropped ==> rs' == Without(rs, {fd})
    requires !dropped ==> rs' == rs
    ensures rs' == Without(rs0, del + if dropped then {fd} else {})
  {
    if !dropped {
      assert del + {} == del;
    }
  }

  /** One more descriptor: the pass up to n + 1 is the pass up to n
      followed by descriptor n. */
  lemma SelectRoundNext(tab: map<int, Entry>, rs: Sets, n: int)
    requires n >= 0
    ensures var prev, out := SelectRound(tab, rs, n), SelectRound(tab, rs, n + 1);
      && out.trace == prev.trace + (if n in tab then FdTrace(n, tab[n], rs) else [])
      && out.deleted == prev.deleted + (if n in tab && Deletes(tab[n]) then {n} else {})
      && n !in prev.deleted
  {
    SelectRoundDeleted(tab, rs, n);
  }

  /** A one-shot deletion happens exactly for the visited descriptors whose
      entry is not removed and asks for one-shot. */
  lemma {:induction false} SelectRoundDeleted(tab: map<int, Entry>, rs: Sets, n: int)
    ensures forall fd :: fd in SelectRound(tab, rs, n).deleted <==> 0 <= fd < n && fd in tab && Deletes(tab[fd])
    decreases n
  {
    if n > 0 {
      SelectRoundDeleted(tab, rs, n - 1);
    }
  }

  /** A handler appears in the trace exactly when its descriptor was
      visited and its own set reports the descriptor while the socket is
      not removed: read, write and error each fire independently. */
  lemma {:induction false} SelectRoundFires(tab: map<int, Entry>, rs: Sets, n: int)
    ensures forall k, fd :: Dispatch(k, fd) in SelectRound(tab, rs, n).trace <==>
              0 <= fd < n && fd in tab && Fires(k, fd, tab[fd], rs)
    decreases n
  {
    if n > 0 {
      SelectRoundFires(tab, rs, n - 1);
      SelectRoundBound(tab, rs, n - 1);
    }
  }

  /** Every handler of the pass up to n is for a descriptor below n. */
  lemma {:induction false} SelectRoundBound(tab: map<int, Entry>, rs: Sets, n: int)
    ensures forall d :: d in SelectRound(tab, rs, n).trace ==> 0 <= d.fd < n
    decreases n
  {
    if n > 0 {
      SelectRoundBound(tab, rs, n - 1);
    }
  }

  /** Handler a comes before handler b in a pass: a lower descriptor, or
      the same descriptor and an earlier kind. */
  predicate Before(a: Dispatch, b: Dispatch)
  {
    a.fd < b.fd || (a.fd == b.fd && Rank(a.kind) < Rank(b.kind))
  }

  /** The trace is in ascending descriptor order, and for one descriptor
      in the order read, write, error; in particular no handler fires
      twice. */
  lemma {:induction false} SelectRoundOrdered(tab: map<int, Entry>, rs: Sets, n: int)
    ensures forall i, j :: 0 <= i < j < |SelectRound(tab, rs, n).trace| ==>
              Before(SelectRound(tab, rs, n).trace[i], SelectRound(tab, rs, n).trace[j])
    decreases n
  {
    if n > 0 {
      SelectRoundOrdered(tab, rs, n - 1);
      SelectRoundBound(tab, rs, n - 1);
      var prev := SelectRound(tab, rs, n - 1).trace;
      var here := if n - 1 in tab then FdTrace(n - 1, tab[n - 1], rs) else [];
      var t := SelectRound(tab, rs, n).trace;
      assert t == prev + here;
      forall i, j | 0 <= i < j < |t|
        ensures Before(t[i], t[j])
      {
        if j < |prev| {
          assert t[i] == prev[i] && t[j] == prev[j];
        } else if i < |prev| {
          assert t[i] == prev[i] && prev[i] in prev;
          assert t[j] == here[j - |prev|] && here[j - |prev|] in here;
        } else {
          var i', j' := i - |prev|, j - |prev|;
          assert t[i] == here[i'] && t[j] == here[j'];
          assert here[i'] in here && here[j'] in here;
        }
      }
    }
  }
}
