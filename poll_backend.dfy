/// The poll back-end's state and operations: two parallel arrays, the
/// sockets and their pollfd records, dense over the prefix [0, count).
module PollBackend {
  import opened Reactor
  import opened PollEvents
  import opened PollPass

  /** The returned masks the system call writes into the first rows. */
  function WithRevents(rows: seq<Row>, rv: seq<bv16>): (r: seq<Row>)
    requires |rv| == |rows|
    ensures |r| == |rows|
    ensures forall k :: 0 <= k < |rows| ==>
              && r[k].pfd.revents == rv[k]
              && r[k].pfd.fd == rows[k].pfd.fd && r[k].pfd.events == rows[k].pfd.events
              && r[k].sock == rows[k].sock && r[k].removed == rows[k].removed && r[k].once == rows[k].once
  {
    seq(|rows|, k requires 0 <= k < |rows| => rows[k].(pfd := rows[k].pfd.(revents := rv[k])))
  }

  /** t is s without its element at index k, stated pointwise. */
  lemma Removed<T>(s: seq<T>, k: nat, t: seq<T>)
    requires k < |s| && |t| == |s| - 1
    requires forall j :: 0 <= j < k ==> t[j] == s[j]
    requires forall j :: k <= j < |t| ==> t[j] == s[j + 1]
    ensures t == s[..k] + s[k + 1..]
  {
    var r := s[..k] + s[k + 1..];
    assert forall j :: k <= j < |t| ==> r[j] == s[j + 1];
  }

  class PollReactor {
    /** max_fd_num, also the reactor's advertised max_event_num. */
    const capacity: nat
    /** The socket of each entry. Both arrays carry one slot beyond
        capacity: the compaction in Del reads slot count. */
    const fds: array<Socket?>
    /** The pollfd record of each entry. */
    const events: array<PollFd>
    /** The reactor's event_num, kept by its _add and _del. */
    var count: nat

    ghost predicate Valid()
      reads this, fds, events
    {
      && fds.Length == capacity + 1 && events.Length == capacity + 1
      && count <= capacity
      && (forall k :: 0 <= k < count ==> fds[k] != null && fds[k].fd == events[k].fd)
      && (forall j, k :: 0 <= j < k < count ==> events[j].fd != events[k].fd)
    }

    /** The pollfd records of the registered entries. */
    ghost function PollFds(): seq<PollFd>
      reads this, events
      requires count <= events.Length
    {
      events[..count]
    }

    /** The sockets of the registered entries. */
    ghost function Sockets(): seq<Socket?>
      reads this, fds
      requires count <= fds.Length
    {
      fds[..count]
    }

    ghost function Members(): set<Socket?>
      reads this, fds
      requires count <= fds.Length
    {
      set k | 0 <= k < count :: fds[k]
    }

    ghost function RowAt(k: int): Row
      requires Valid() && 0 <= k < count
      reads this, fds, events, fds[k]
    {
      Row(fds[k], events[k], fds[k].removed, fds[k].events.once)
    }

    ghost function RowsTo(n: nat): (rs: seq<Row>)
      requires Valid() && n <= count
      reads this, fds, events, Members()
      ensures |rs| == n
      ensures forall k :: 0 <= k < n ==> rs[k] == RowAt(k)
    {
      if n == 0 then [] else RowsTo(n - 1) + [RowAt(n - 1)]
    }

    /** The table as the dispatch pass sees it. */
    ghost function Rows(): seq<Row>
      requires Valid()
      reads this, fds, events, Members()
    {
      RowsTo(count)
    }

    /** swReactorPoll_create: both arrays sized to the capacity. */
    constructor (maxFdNum: nat)
      ensures Valid() && capacity == maxFdNum && count == 0
      ensures fresh(fds) && fresh(events)
    {
      capacity := maxFdNum;
      fds := new Socket?[maxFdNum + 1];
      events := new PollFd[maxFdNum + 1];
      count := 0;
    }

    /** swReactorPoll_exist: a linear scan of the registered prefix. */
    method Exist(fd: int) returns (b: bool)
      requires Valid()
      ensures b <==> exists k :: 0 <= k < count && events[k].fd == fd
    {
      var i := 0;
      while i < count
        invariant 0 <= i <= count
        invariant forall k :: 0 <= k < i ==> events[k].fd != fd
      {
        if events[i].fd == fd {
          return true;
        }
        i := i + 1;
      }
      return false;
    }

    /** swReactorPoll_add: refuses a descriptor already registered and a
        full table; otherwise appends at index count. The new pollfd's
        returned mask is whatever the slot held. */
    method Add(socket: Socket, interest: Interest) returns (r: Status)
      requires Valid()
      modifies this, fds, events
      ensures Valid()
      ensures r == Err <==> (exists k :: 0 <= k < old(count) && old(events[k].fd) == socket.fd) || old(count) == capacity
      ensures r == Err ==> count == old(count) && fds[..] == old(fds[..]) && events[..] == old(events[..])
      ensures r == Ok ==> count == old(count) + 1
      ensures r == Ok ==> Sockets() == old(Sockets()) + [socket]
      ensures r == Ok ==> PollFds() == old(PollFds()) + [PollFd(socket.fd, AddMask(interest), old(events[count].revents))]
    {
      var fd := socket.fd;
      var present := Exist(fd);
      if present {
        return Err;
      }
      var cur := count;
      if count == capacity {
        return Err;
      }
      count := count + 1;  // the reactor's _add
      fds[cur] := socket;
      events[cur] := events[cur].(fd := fd, events := 0);
      if interest.read {
        events[cur] := events[cur].(events := events[cur].events | POLLIN);
      }
      if interest.write {
        events[cur] := events[cur].(events := events[cur].events | POLLOUT);
      }
      if interest.error {
        events[cur] := events[cur].(events := events[cur].events | POLLHUP);
      }
      assert events[cur].events == AddMask(interest);
      return Ok;
    }

    /** swReactorPoll_set: rewrites the requested mask of the first entry
        for the socket's descriptor, in place, from read and write interest
        only, then records the interest on the socket. */
    method Set(socket: Socket, interest: Interest) returns (r: Status)
      requires Valid()
      modifies events, socket
      ensures Valid()
      ensures var k := Find(old(PollFds()), socket.fd);
        && (r == Ok <==> k < count)
        && (r == Ok ==> PollFds() == old(PollFds())[k := old(PollFds())[k].(events := SetMask(interest))])
        && (r == Ok ==> socket.events == interest)
        && (r == Err ==> PollFds() == old(PollFds()) && socket.events == old(socket.events))
      ensures socket.removed == old(socket.removed) && socket.eventHup == old(socket.eventHup)
    {
      var i := 0;
      while i < count
        invariant 0 <= i <= count
        invariant forall j :: 0 <= j < i ==> events[j].fd != socket.fd
        invariant events[..] == old(events[..]) && socket.events == old(socket.events)
      {
        if events[i].fd == socket.fd {
          events[i] := events[i].(events := 0);
          if interest.read {
            events[i] := events[i].(events := events[i].events | POLLIN);
          }
          if interest.write {
            events[i] := events[i].(events := events[i].events | POLLOUT);
          }
          assert events[i].events == SetMask(interest);
          socket.events := interest;  // the reactor's _set
          assert Find(old(PollFds()), socket.fd) == i;
          return Ok;
        }
        i := i + 1;
      }
      assert events[..count] == old(PollFds());
      return Err;
    }

    /** swReactorPoll_del: refuses a socket already removed and a
        descriptor not registered; otherwise shifts every later entry one
        slot left (ShiftLeft) and lets the reactor's _del account for it. */
    method Del(socket: Socket) returns (r: Status)
      requires Valid()
      modifies this, fds, events, socket
      ensures Valid()
      ensures socket.events == old(socket.events) && socket.eventHup == old(socket.eventHup)
      ensures var k := Find(old(PollFds()), socket.fd);
        && (r == Ok <==> !old(socket.removed) && k < old(count))
        && (r == Ok ==> count == old(count) - 1 && socket.removed)
        && (r == Ok ==> PollFds() == old(PollFds())[..k] + old(PollFds())[k + 1..])
        && (r == Ok ==> Sockets() == old(Sockets())[..k] + old(Sockets())[k + 1..])
        && (r == Err ==> count == old(count) && socket.removed == old(socket.removed))
        && (r == Err ==> PollFds() == old(PollFds()) && Sockets() == old(Sockets()))
      ensures r == Ok ==> var k := Find(old(PollFds()), socket.fd);
        && (forall j :: 0 <= j < k ==> fds[j] == old(fds[j]) && events[j] == old(events[j]))
        && (forall j :: k <= j < count ==> fds[j] == old(fds[j + 1]) && events[j] == old(events[j + 1]))
    {
      if socket.removed {
        return Err;
      }
      var i := 0;
      while i < count && events[i].fd != socket.fd
        invariant 0 <= i <= count
        invariant forall j :: 0 <= j < i ==> events[j].fd != socket.fd
      {
        i := i + 1;
      }
      if i == count {
        return Err;
      }
      assert Find(old(PollFds()), socket.fd) == i;
      ShiftLeft(i);
      count := count - 1;  // the reactor's _del
      socket.removed := true;
      Removed(old(PollFds()), i, PollFds());
      Removed(old(Sockets()), i, Sockets());
      return Ok;
    }

    /** The compaction loop of swReactorPoll_del: from the found index k up
        to the pre-removal count, each slot takes its successor. Its last
        step reads slot count, which is the spare slot when the table is
        full. */
    method ShiftLeft(k: nat)
      requires Valid() && k < count
      modifies fds, events
      ensures forall j :: 0 <= j < k ==> fds[j] == old(fds[j]) && events[j] == old(events[j])
      ensures forall j :: k <= j < count ==> fds[j] == old(fds[j + 1]) && events[j] == old(events[j + 1])
      ensures forall j :: count <= j < fds.Length ==> fds[j] == old(fds[j]) && events[j] == old(events[j])
    {
      var i := k;
      while i < count
        invariant k <= i <= count
        invariant forall j :: 0 <= j < k ==> fds[j] == old(fds[j]) && events[j] == old(events[j])
        invariant forall j :: k <= j < i ==> fds[j] == old(fds[j + 1]) && events[j] == old(events[j + 1])
        invariant forall j :: i <= j < fds.Length ==> fds[j] == old(fds[j]) && events[j] == old(events[j])
      {
        if i == count {
          // Unreachable under the loop guard.
          assert false;
        } else {
          fds[i] := fds[i + 1];
          events[i] := events[i + 1];
        }
        i := i + 1;
      }
    }

    /** The handlers the wait loop fires for entry i: read (marking
        event_hup when a hang-up or an error comes with it), write, then
        error, the last only without read or write readiness. skip tells
        that the error branch left the entry early. */
    method DispatchEntry(i: nat) returns (t: seq<Dispatch>, skip: bool)
      requires Valid() && i < count
      modifies fds[i]
      ensures t == EntryTrace(old(RowAt(i)))
      ensures skip == SkipsOnceCheck(old(RowAt(i)))
      ensures fds[i].eventHup == (old(fds[i].eventHup) || HupMarked(old(RowAt(i))))
      ensures fds[i].removed == old(fds[i].removed) && fds[i].events == old(fds[i].events)
    {
      var s := fds[i];
      var fd := events[i].fd;
      var rev := events[i].revents;
      t, skip := [], false;
      if rev & POLLIN != 0 && !s.removed {
        if rev & (POLLHUP | POLLERR) != 0 {
          s.eventHup := true;
        }
        t := t + [Dispatch(Read, fd)];
      }
      if rev & POLLOUT != 0 && !s.removed {
        t := t + [Dispatch(Write, fd)];
      }
      if rev & (POLLHUP | POLLERR) != 0 && !s.removed {
        if rev & POLLIN != 0 || rev & POLLOUT != 0 {
          skip := true;
          return;
        }
        t := t + [Dispatch(Error, fd)];
      }
    }

    /** One step of the dispatch pass at index i: the entry's handlers,
        then its one-shot deletion unless the error branch left it early or
        the socket is removed. A deletion moves every later row one index
        down. */
    method Visit(i: nat) returns (t: seq<Dispatch>, deleted: bool)
      requires Valid() && i < count
      modifies this, fds, events, fds[i]
      ensures Valid()
      ensures t == EntryTrace(old(RowAt(i))) && deleted == OnceDeletes(old(RowAt(i)))
      ensures count == old(count) - (if deleted then 1 else 0)
      ensures old(fds[i]).removed == (old(fds[i].removed) || deleted)
      ensures old(fds[i]).eventHup == (old(fds[i].eventHup) || HupMarked(old(RowAt(i))))
      ensures old(fds[i]).events == old(fds[i].events)
      ensures forall k :: 0 <= k < i ==> RowAt(k) == old(RowAt(k))
      ensures !deleted ==> forall k :: i <= k < count ==> RowAt(k) == old(RowAt(k))
      ensures deleted ==> forall k :: i <= k < count ==> RowAt(k) == old(RowAt(k + 1))
    {
      var s := fds[i];
      var skip;
      t, skip := DispatchEntry(i);
      deleted := false;
      if !skip && !s.removed && s.events.once {
        assert Find(PollFds(), s.fd) == i;
        var _ := Del(s);
        deleted := true;
      }
    }

    /** The table's sockets are distinct, since its descriptors are. */
    lemma RowsDistinct()
      requires Valid()
      ensures DistinctSocks(Rows())
    {
      var rows := Rows();
      forall a, b | 0 <= a < b < |rows|
        ensures rows[a].sock != rows[b].sock
      {
        assert rows[a].sock.fd == events[a].fd && rows[b].sock.fd == events[b].fd;
      }
    }

    /** Visit, stated on the whole table: a deletion drops row i, and
        otherwise the table is unchanged. */
    method VisitTable(i: nat) returns (t: seq<Dispatch>, deleted: bool)
      requires Valid() && i < count
      modifies this, fds, events, fds[i]
      ensures Valid()
      ensures t == EntryTrace(old(RowAt(i))) && deleted == OnceDeletes(old(RowAt(i)))
      ensures deleted ==> Rows() == old(Rows())[..i] + old(Rows())[i + 1..]
      ensures !deleted ==> Rows() == old(Rows())
      ensures old(fds[i]).removed == (old(fds[i].removed) || deleted)
      ensures old(fds[i]).eventHup == (old(fds[i].eventHup) || HupMarked(old(RowAt(i))))
      ensures old(fds[i]).events == old(fds[i].events)
    {
      ghost var table := Rows();
      t, deleted := Visit(i);
      if deleted {
        Removed(table, i, Rows());
      } else {
        assert Rows() == table;
      }
    }

    /** Visit at index i, stated on the snapshots: the table loses the row
        FirstStep drops, and the visited socket takes the flags FirstStep's
        outcome gives it; every other socket of rows0 keeps its flags. */
    method Advance(i: nat, ghost rows0: seq<Row>, ghost rest: seq<Row>) returns (t: seq<Dispatch>, ghost next: seq<Row>)
      requires Valid() && i < count && Rows()[i..] == rest
      modifies this, fds, events, fds[i]
      ensures Valid()
      ensures rest != [] && t == FirstStep(rest).0.trace && next == FirstStep(rest).1
      ensures Rows() == old(Rows())[..i] + FirstStep(rest).0.kept + next
      ensures Marks(rows0) == Remark(old(Marks(rows0)), rows0, rest[0].sock,
                                     rest[0].sock in FirstStep(rest).0.deleted, rest[0].sock in FirstStep(rest).0.hup)
    {
      ghost var table, marks := Rows(), Marks(rows0);
      ghost var s0 := rest[0].sock;
      assert rest[0] == RowAt(i);
      var gone;
      t, gone := VisitTable(i);
      next := FirstStep(rest).1;
      Cut(table, i, rest, Rows());
      ghost var marks' := Remark(marks, rows0, s0, s0 in FirstStep(rest).0.deleted, s0 in FirstStep(rest).0.hup);
      forall a | 0 <= a < |rows0|
        ensures Marks(rows0)[a] == marks'[a]
      {
        if rows0[a].sock != s0 {
          assert unchanged(rows0[a].sock);
        }
      }
    }

    /** Advance, stated as a step of the pass from one PassAt to the next:
        the outcome so far grows by the step's handlers, and together with
        a pass over the rows left it still makes up the same outcome. */
    method Step(i: nat, ghost rows0: seq<Row>, ghost m0: seq<Mark>, ghost rest: seq<Row>, ghost acc: RoundOut)
        returns (t: seq<Dispatch>, ghost next: seq<Row>, ghost acc': RoundOut)
      requires Valid() && i < count && PassAt(i, Rows(), Marks(rows0), rest, acc, rows0, m0)
      modifies this, fds, events, rest[0].sock
      ensures Valid() && PassAt(i + 1, Rows(), Marks(rows0), next, acc', rows0, m0)
      ensures acc'.trace == acc.trace + t && |next| < |rest|
      ensures Join(acc', PollRound(next)) == Join(acc, PollRound(rest))
    {
      ghost var table, marks := Rows(), Marks(rows0);
      RowsDistinct();
      assert table[i..] == rest && fds[i] == rest[0].sock;
      t, next := Advance(i, rows0, rest);
      acc' := Join(acc, FirstStep(rest).0);
      PassAtStep(i, table, marks, rest, acc, rows0, m0, Rows(), Marks(rows0));
      PollRoundStep(acc, rest);
    }

    /** The dispatch pass of swReactorPoll_wait: the handlers fired, the
        table left behind and the sockets' flags are those of PollRound;
        socks is the footprint of the table's sockets. */
    method DispatchPass(ghost rows0: seq<Row>, ghost socks: set<Socket>) returns (trace: seq<Dispatch>)
      requires Valid() && Rows() == rows0
      requires forall r :: r in rows0 ==> r.sock in socks
      modifies this, fds, events, socks
      ensures Valid()
      ensures trace == PollRound(rows0).trace
      ensures Rows() == PollRound(rows0).kept
      ensures Marks(rows0) == Settle(old(Marks(rows0)), rows0, PollRound(rows0))
    {
      ghost var m0 := Marks(rows0);
      PassAtStart(rows0, m0);
      trace := DispatchLoop(rows0, m0, socks);
    }

    /** The loop of the dispatch pass: visits index 0 upwards while the
        index is below the current count, stepping past the row a one-shot
        deletion moves into the current index. */
    method DispatchLoop(ghost rows0: seq<Row>, ghost m0: seq<Mark>, ghost socks: set<Socket>) returns (trace: seq<Dispatch>)
      requires Valid() && PassAt(0, Rows(), Marks(rows0), rows0, RoundOut([], [], {}, {}), rows0, m0)
      requires forall r :: r in rows0 ==> r.sock in socks
      modifies this, fds, events, socks
      ensures Valid()
      ensures trace == PollRound(rows0).trace
      ensures Rows() == PollRound(rows0).kept
      ensures Marks(rows0) == Settle(m0, rows0, PollRound(rows0))
    {
      ghost var out := PollRound(rows0);
      ghost var rest := rows0;
      ghost var acc := RoundOut([], [], {}, {});
      NothingJoin(out);
      trace := [];
      var i: nat := 0;
      while i < count
        invariant Valid() && PassAt(i, Rows(), Marks(rows0), rest, acc, rows0, m0)
        invariant trace == acc.trace
        invariant Join(acc, PollRound(rest)) == out
        decreases |rest|
      {
        var t;
        t, rest, acc := Step(i, rows0, m0, rest, acc);
        trace := trace + t;
        i := i + 1;
      }
      PassAtEnd(i, Rows(), Marks(rows0), rest, acc, rows0, m0);
      JoinNothing(acc);
      assert acc == out;
    }

    /** The system call's write-back: poll stores a returned mask into each
        of the count pollfd records it was given. */
    method Deliver(rv: seq<bv16>)
      requires Valid() && |rv| == count
      modifies events
      ensures Valid()
      ensures Rows() == WithRevents(old(Rows()), rv)
    {
      forall k | 0 <= k < count {
        events[k] := events[k].(revents := rv[k]);
      }
      assert forall k :: 0 <= k < count ==> RowAt(k) == old(RowAt(k)).(pfd := old(RowAt(k)).pfd.(revents := rv[k]));
    }

    /** A round whose system call reported readiness: the returned masks
        are stored, then the dispatch pass runs over the table. */
    method Ready(rv: seq<bv16>) returns (trace: seq<Dispatch>)
      requires Valid() && |rv| == count
      modifies this, fds, events, Members()
      ensures Valid()
      ensures var rows0 := WithRevents(old(Rows()), rv);
        && trace == PollRound(rows0).trace
        && Rows() == PollRound(rows0).kept
        && Marks(rows0) == Settle(old(Marks(rows0)), rows0, PollRound(rows0))
    {
      Deliver(rv);
      ghost var rows0 := Rows();
      ghost var socks := set r | r in rows0 :: r.sock;
      forall r | r in rows0
        ensures r.sock in Members()
      {
        var k :| 0 <= k < |rows0| && rows0[k] == r;
        assert r == RowAt(k);
      }
      trace := DispatchPass(rows0, socks);
    }

    /** One round of swReactorPoll_wait's loop, given what the system call
        reported: a failure ends the loop or the round, a time-out ends the
        round with the time-out flag, and readiness runs the dispatch pass
        before the round's end. */
    method Wait(res: Wakeup<seq<bv16>>) returns (end: RoundEnd, trace: seq<Dispatch>)
      requires Valid()
      requires res.Ready? ==> |res.result| == count
      modifies this, fds, events, Members()
      ensures Valid() && end == RoundEndOf(res)
      ensures !res.Ready? ==> trace == [] && count == old(count) && Rows() == old(Rows())
      ensures !res.Ready? ==> forall k :: 0 <= k < old(count) ==> unchanged(old(fds[k]))
      ensures res.Ready? ==> var rows0 := WithRevents(old(Rows()), res.result);
        && trace == PollRound(rows0).trace
        && Rows() == PollRound(rows0).kept
        && Marks(rows0) == Settle(old(Marks(rows0)), rows0, PollRound(rows0))
    {
      match res
      case Failed(recoverable) =>
        end := if recoverable then EndCallbacks(false) else Stopped;
        trace := [];
      case TimedOut =>
        end := EndCallbacks(true);
        trace := [];
      case Ready(rv) =>
        trace := Ready(rv);
        end := EndCallbacks(false);
    }
  }
}
