/// The select back-end's state and operations: a map from descriptor to
/// socket, the three fd-sets handed to select, and the highest descriptor
/// ever added.
module SelectBackend {
  import opened Reactor
  import opened SelectEvents

  /** The table as the dispatch pass sees it: each descriptor's socket
      with the socket's removed flag, interest and event_hup flag. */
  ghost function Table(m: map<int, Socket>): (tab: map<int, Entry>)
    reads m.Values
    ensures tab.Keys == m.Keys
    ensures forall fd :: fd in m ==> tab[fd] == Entry(m[fd], m[fd].removed, m[fd].events, m[fd].eventHup)
  {
    map fd | fd in m :: Entry(m[fd], m[fd].removed, m[fd].events, m[fd].eventHup)
  }

  /** The interest of each descriptor's socket. */
  ghost function Interests(m: map<int, Socket>): (ints: map<int, Interest>)
    reads m.Values
    ensures ints.Keys == m.Keys
    ensures forall fd :: fd in m ==> ints[fd] == m[fd].events
  {
    map fd | fd in m :: m[fd].events
  }

  class SelectReactor {
    /** The descriptor-to-socket map (an unordered_map in the source). */
    var fds: map<int, Socket>
    /** The read, write and exceptional fd-sets. */
    var rfds: set<int>
    var wfds: set<int>
    var efds: set<int>
    /** The highest descriptor added; it never decreases. */
    var maxfd: int
    /** The reactor's event_num, kept by its _add and _del. */
    var count: nat

    /** Every socket is filed under its own descriptor, no higher than
        maxfd nor than FD_SETSIZE; the fd-sets only hold descriptors that
        fit in an fd_set; every entry was counted by _add. */
    ghost predicate Valid()
      reads this
    {
      && 0 <= maxfd
      && (forall fd :: fd in fds ==> fds[fd].fd == fd && fd <= maxfd && fd <= FD_SETSIZE)
      && (forall fd :: fd in rfds ==> fd < FD_SETSIZE)
      && (forall fd :: fd in wfds ==> fd < FD_SETSIZE)
      && (forall fd :: fd in efds ==> fd < FD_SETSIZE)
      && |fds| <= count
    }

    /** The three fd-sets together. */
    ghost function FdSets(): Sets
      reads this
    {
      Sets(rfds, wfds, efds)
    }

    /** swReactorSelect_create: an empty map and maxfd 0. */
    constructor ()
      ensures Valid() && fds == map[] && maxfd == 0 && count == 0
      ensures rfds == {} && wfds == {} && efds == {}
    {
      fds := map[];
      rfds, wfds, efds := {}, {}, {};
      maxfd := 0;
      count := 0;
    }

    /** swReactorSelect_add: refuses only a descriptor above FD_SETSIZE.
        There is no duplicate check: an existing entry for the descriptor
        is kept, and the call still succeeds and is still counted. */
    method Add(socket: Socket, interest: Interest) returns (r: Status)
      requires Valid()
      modifies this
      ensures Valid()
      ensures r == Err <==> socket.fd > FD_SETSIZE
      ensures r == Err ==> fds == old(fds) && maxfd == old(maxfd) && count == old(count)
      ensures r == Ok ==> fds == if socket.fd in old(fds) then old(fds) else old(fds)[socket.fd := socket]
      ensures r == Ok ==> maxfd == (if socket.fd > old(maxfd) then socket.fd else old(maxfd))
      ensures r == Ok ==> count == old(count) + 1
      ensures rfds == old(rfds) && wfds == old(wfds) && efds == old(efds)
    {
      var fd := socket.fd;
      if fd > FD_SETSIZE {
        return Err;
      }
      count := count + 1;  // the reactor's _add
      if fd !in fds {
        fds := fds[fd := socket];
      }
      if fd > maxfd {
        maxfd := fd;
      }
      return Ok;
    }

    /** swReactorSelect_del: refuses a socket already removed and a
        descriptor not in the map; otherwise erases the descriptor, clears
        it from the three fd-sets and lets the reactor's _del account for
        it. The entry erased is the one filed under the socket's
        descriptor. */
    method Del(socket: Socket) returns (r: Status)
      requires Valid()
      modifies this, socket
      ensures Valid()
      ensures r == Ok <==> !old(socket.removed) && socket.fd in old(fds)
      ensures r == Ok ==> fds == old(fds) - {socket.fd} && count == old(count) - 1 && socket.removed
      ensures r == Ok ==> rfds == FdClr(old(rfds), socket.fd) && wfds == FdClr(old(wfds), socket.fd)
                          && efds == FdClr(old(efds), socket.fd)
      ensures r == Err ==> fds == old(fds) && count == old(count) && socket.removed == old(socket.removed)
      ensures r == Err ==> rfds == old(rfds) && wfds == old(wfds) && efds == old(efds)
      ensures maxfd == old(maxfd)
      ensures socket.events == old(socket.events) && socket.eventHup == old(socket.eventHup)
    {
      if socket.removed {
        return Err;
      }
      var fd := socket.fd;
      if fd !in fds {
        return Err;
      }
      fds := fds - {fd};
      rfds := FdClr(rfds, fd);
      wfds := FdClr(wfds, fd);
      efds := FdClr(efds, fd);
      assert fds.Keys == old(fds).Keys - {fd};
      count := count - 1;  // the reactor's _del
      socket.removed := true;
      return Ok;
    }

    /** swReactorSelect_set: only checks that the descriptor is in the map,
        then lets the reactor's _set record the interest on the socket. */
    method Set(socket: Socket, interest: Interest) returns (r: Status)
      requires Valid()
      modifies socket
      ensures Valid()
      ensures r == Ok <==> socket.fd in fds
      ensures r == Ok ==> socket.events == interest
      ensures r == Err ==> socket.events == old(socket.events)
      ensures socket.removed == old(socket.removed) && socket.eventHup == old(socket.eventHup)
    {
      if socket.fd !in fds {
        return Err;
      }
      socket.events := interest;  // the reactor's _set
      return Ok;
    }

    /** The set rebuild at the top of each round of swReactorSelect_wait:
        the three sets are zeroed, then every entry of the map, in
        whatever order the map yields them, is added to the sets its
        socket's interest names, when it fits in an fd_set. */
    method Rebuild()
      requires Valid()
      modifies this
      ensures Valid()
      ensures fds == old(fds) && maxfd == old(maxfd) && count == old(count)
      ensures FdSets() == Requested(Interests(fds), fds.Keys)
    {
      ghost var ints := Interests(fds);
      rfds, wfds, efds := {}, {}, {};
      FillAll(ints);
    }

    /** The loop of the rebuild, from zeroed sets. */
    method FillAll(ghost ints: map<int, Interest>)
      requires Valid() && ints == Interests(fds) && SetsAre(ints, {})
      modifies this
      ensures Valid()
      ensures fds == old(fds) && maxfd == old(maxfd) && count == old(count)
      ensures SetsAre(ints, fds.Keys)
    {
      var todo := fds.Keys;
      ghost var done: set<int> := {};
      while todo != {}
        invariant todo + done == fds.Keys && todo !! done
        invariant fds == old(fds) && maxfd == old(maxfd) && count == old(count)
        invariant SetsAre(ints, done)
        decreases todo
      {
        // Pick only shows that todo has an element, for the :| below.
        ghost var element := Pick(todo);
        var fd :| fd in todo;
        FillOne(fd, ints, done);
        todo := todo - {fd};
        done := done + {fd};
      }
    }

    /** The fd-sets as the rebuild leaves them after going over done. */
    ghost predicate SetsAre(ints: map<int, Interest>, done: set<int>)
      reads this
    {
      && rfds == Wanted(ints, Read, done)
      && wfds == Wanted(ints, Write, done)
      && efds == Wanted(ints, Error, done)
    }

    /** One entry of the rebuild: its descriptor joins the sets its
        socket's interest names. */
    method FillOne(fd: int, ghost ints: map<int, Interest>, ghost done: set<int>)
      requires fd in fds && fd in ints && ints[fd] == fds[fd].events && SetsAre(ints, done)
      modifies this
      ensures fds == old(fds) && maxfd == old(maxfd) && count == old(count)
      ensures SetsAre(ints, done + {fd})
    {
      var events := fds[fd].events;
      WantedStep(ints, Read, done, fd);
      WantedStep(ints, Write, done, fd);
      WantedStep(ints, Error, done, fd);
      if events.read {
        rfds := FdSet(rfds, fd);
      }
      if events.write {
        wfds := FdSet(wfds, fd);
      }
      if events.error {
        efds := FdSet(efds, fd);
      }
    }

    /** The body of the dispatch loop of swReactorSelect_wait for one
        descriptor: nothing when the descriptor is not in the map;
        otherwise the read, write and error handlers, each when its fd-set
        reports the descriptor and the socket is not removed, and then the
        deletion of a one-shot socket that is still not removed. */
    method Visit(fd: int) returns (t: seq<Dispatch>, deleted: bool)
      requires Valid()
      modifies this, if fd in fds then {fds[fd]} else {}
      ensures Valid() && maxfd == old(maxfd)
      ensures fd !in old(fds) ==> t == [] && !deleted
      ensures fd in old(fds) ==>
                var en := old(Entry(fds[fd], fds[fd].removed, fds[fd].events, fds[fd].eventHup));
                t == FdTrace(fd, en, old(FdSets())) && deleted == Deletes(en)
      ensures deleted ==> fds == old(fds) - {fd} && count == old(count) - 1
                          && FdSets() == Without(old(FdSets()), {fd})
      ensures !deleted ==> fds == old(fds) && count == old(count)
                           && rfds == old(rfds) && wfds == old(wfds) && efds == old(efds)
      ensures fd in old(fds) ==> old(fds)[fd].removed == (old(fds[fd].removed) || deleted)
                                 && old(fds)[fd].events == old(fds[fd].events)
                                 && old(fds)[fd].eventHup == old(fds[fd].eventHup)
    {
      t := [];
      deleted := false;
      if fd !in fds {
        return;
      }
      var socket := fds[fd];
      t := Handlers(socket);
      if !socket.removed && socket.events.once {
        var r := Del(socket);
        deleted := true;
      }
    }

    /** The read, write and error handlers of one visit, each when its
        fd-set reports the socket's descriptor and the socket is not
        removed. */
    method Handlers(socket: Socket) returns (t: seq<Dispatch>)
      ensures t == FdTrace(socket.fd, Entry(socket, socket.removed, socket.events, socket.eventHup), FdSets())
    {
      t := [];
      var fd := socket.fd;
      if FdIsSet(rfds, fd) && !socket.removed {
        t := t + [Dispatch(Read, fd)];
      }
      if FdIsSet(wfds, fd) && !socket.removed {
        t := t + [Dispatch(Write, fd)];
      }
      if FdIsSet(efds, fd) && !socket.removed {
        t := t + [Dispatch(Error, fd)];
      }
    }

    /** The dispatch loop of swReactorSelect_wait over descriptors 0 to
        maxfd, run on the ready sets select left in the three fd-sets: its
        trace and its one-shot deletions are those of SelectRound on the
        table and the ready sets as the loop found them. */
    method Pass() returns (trace: seq<Dispatch>)
      requires Valid()
      modifies this, fds.Values
      ensures Valid() && maxfd == old(maxfd)
      ensures var out := SelectRound(old(Table(fds)), old(FdSets()), old(maxfd) + 1);
        && trace == out.trace
        && fds == old(fds) - out.deleted
        && FdSets() == Without(old(FdSets()), out.deleted)
        && count == old(count) - |out.deleted|
        && Table(old(fds)) == Retire(old(Table(fds)), out.deleted)
    {
      ghost var fds0 := fds;
      ghost var tab0 := Table(fds);
      ghost var rs0 := FdSets();
      ghost var out;
      trace, out := PassFrom(fds0, tab0, rs0, count);
      ghost var del := out.deleted;
      assert forall x :: x in fds0 ==> Table(fds0)[x] == Retire(tab0, del)[x];
    }

    /** Where the loop of Pass stands once the descriptors below fd are
        visited, the pass so far having deleted del: those descriptors are
        gone from the map and from the fd-sets, the count is down by as
        many, and exactly their sockets have been marked removed. */
    ghost predicate Passed(fds0: map<int, Socket>, tab0: map<int, Entry>, rs0: Sets, c0: nat, del: set<int>)
      reads this, fds0.Values
    {
      && fds == fds0 - del
      && FdSets() == Without(rs0, del)
      && count == c0 - |del|
      && tab0.Keys == fds0.Keys
      && (forall x :: x in fds0 ==> tab0[x].sock == fds0[x] && fds0[x].removed == (tab0[x].removed || x in del)
                                    && fds0[x].events == tab0[x].events && fds0[x].eventHup == tab0[x].hup)
    }

    /** The loop of Pass, entered with nothing visited yet. */
    method PassFrom(ghost fds0: map<int, Socket>, ghost tab0: map<int, Entry>, ghost rs0: Sets, ghost c0: nat)
      returns (trace: seq<Dispatch>, ghost out: SelectOut)
      requires Valid() && fds == fds0 && tab0 == Table(fds0) && rs0 == FdSets() && count == c0
      modifies this, fds0.Values
      ensures Valid() && maxfd == old(maxfd)
      ensures out == SelectRound(tab0, rs0, maxfd + 1) && trace == out.trace
      ensures Passed(fds0, tab0, rs0, c0, out.deleted)
    {
      trace := [];
      var fd := 0;
      out := SelectOut([], {});
      while fd <= maxfd
        invariant 0 <= fd <= maxfd + 1 && maxfd == old(maxfd) && Valid()
        invariant forall x :: x in fds0 ==> fds0[x].fd == x
        invariant out == SelectRound(tab0, rs0, fd) && trace == out.trace
        invariant Passed(fds0, tab0, rs0, c0, out.deleted)
      {
        SelectRoundNext(tab0, rs0, fd);
        var t := Advance(fd, fds0, tab0, rs0, c0, out.deleted);
        trace := trace + t;
        out := SelectRound(tab0, rs0, fd + 1);
        fd := fd + 1;
      }
      assert fd == maxfd + 1;
    }

    /** One turn of the loop of Pass: the descriptors below fd have been
        visited, and none of them is fd. */
    method Advance(fd: int, ghost fds0: map<int, Socket>, ghost tab0: map<int, Entry>, ghost rs0: Sets,
                   ghost c0: nat, ghost del: set<int>)
      returns (t: seq<Dispatch>)
      requires Valid() && fd !in del && Passed(fds0, tab0, rs0, c0, del)
      requires forall x :: x in fds0 ==> fds0[x].fd == x
      modifies this, fds0.Values
      ensures Valid() && maxfd == old(maxfd)
      ensures t == if fd in tab0 then FdTrace(fd, tab0[fd], rs0) else []
      ensures Passed(fds0, tab0, rs0, c0, del + if fd in tab0 && Deletes(tab0[fd]) then {fd} else {})
    {
      ghost var fdsIn, rsIn := fds, FdSets();
      ghost var del' := del + if fd in tab0 && Deletes(tab0[fd]) then {fd} else {};
      assert fd in fds <==> fd in tab0;
      if fd in fds {
        assert Entry(fds[fd], fds[fd].removed, fds[fd].events, fds[fd].eventHup) == tab0[fd];
        FdTraceUnvisited(fd, tab0[fd], rs0, del);
      }
      var deleted;
      t, deleted := Visit(fd);
      DropOne(fds0, del, fd, fdsIn, fds, deleted);
      DropSets(rs0, del, fd, rsIn, FdSets(), deleted);
      forall x | x in fds0
        ensures tab0[x].sock == fds0[x] && fds0[x].removed == (tab0[x].removed || x in del')
                && fds0[x].events == tab0[x].events && fds0[x].eventHup == tab0[x].hup
      {
        assert old(tab0[x].sock == fds0[x] && fds0[x].removed == (tab0[x].removed || x in del)
                   && fds0[x].events == tab0[x].events && fds0[x].eventHup == tab0[x].hup);
        if x == fd {
          assert fds0[x] == fdsIn[fd];
        } else {
          assert fds0[x].fd != fd;
          assert fds0[x].removed == old(fds0[x].removed) && fds0[x].events == old(fds0[x].events)
                 && fds0[x].eventHup == old(fds0[x].eventHup);
        }
      }
    }

    /** One round of the loop of swReactorSelect_wait, with the system call
        replaced by its outcome res (on readiness, the sets select reports
        ready): the fd-sets are rebuilt, the timeval is computed from the
        reactor's timeout, and the round ends as RoundEndOf says; on
        readiness the fd-sets are cut down to what select reported and the
        dispatch pass runs over them. */
    method Wait(timeoutMsec: int, deferTasks: bool, res: Wakeup<Sets>) returns (tv: TimeVal, end: RoundEnd, trace: seq<Dispatch>)
      requires Valid()
      modifies this, fds.Values
      ensures Valid() && maxfd == old(maxfd)
      ensures tv == SelectTimeout(timeoutMsec, deferTasks) && end == RoundEndOf(res)
      ensures !res.Ready? ==> trace == [] && fds == old(fds) && count == old(count)
                              && FdSets() == Requested(old(Interests(fds)), old(fds).Keys)
                              && Table(old(fds)) == old(Table(fds))
      ensures !res.Ready? ==> forall x :: x in old(fds) ==> unchanged(old(fds)[x])
      ensures res.Ready? ==>
                var ready := Meet(Requested(old(Interests(fds)), old(fds).Keys), res.result);
                var out := SelectRound(old(Table(fds)), ready, old(maxfd) + 1);
                && trace == out.trace
                && fds == old(fds) - out.deleted && count == old(count) - |out.deleted|
                && FdSets() == Without(ready, out.deleted)
                && Table(old(fds)) == Retire(old(Table(fds)), out.deleted)
    {
      ghost var tab, ints, m0 := Table(fds), Interests(fds), maxfd;
      Rebuild();
      assert forall x :: x in fds ==> Table(fds)[x] == tab[x] && Interests(fds)[x] == ints[x];
      assert Table(fds) == tab && Interests(fds) == ints;
      ghost var asked := FdSets();
      assert asked == Requested(ints, old(fds).Keys);
      tv := SelectTimeout(timeoutMsec, deferTasks);
      match res
      case Failed(recoverable) =>
        end := if recoverable then EndCallbacks(false) else Stopped;
        trace := [];
      case TimedOut =>
        end := EndCallbacks(true);
        trace := [];
      case Ready(rs) =>
        assert Table(fds) == tab && maxfd == m0 && fds == old(fds) && count == old(count);
        trace := ReadyPass(rs);
        end := EndCallbacks(false);
    }

    /** The readiness branch of a round: select leaves in each fd-set only
        the descriptors it reports ready, and the dispatch pass runs over
        what is left. */
    method ReadyPass(rs: Sets) returns (trace: seq<Dispatch>)
      requires Valid()
      modifies this, fds.Values
      ensures Valid() && maxfd == old(maxfd)
      ensures var out := SelectRound(old(Table(fds)), Meet(old(FdSets()), rs), old(maxfd) + 1);
        && trace == out.trace
        && fds == old(fds) - out.deleted && count == old(count) - |out.deleted|
        && FdSets() == Without(Meet(old(FdSets()), rs), out.deleted)
        && Table(old(fds)) == Retire(old(Table(fds)), out.deleted)
    {
      rfds, wfds, efds := rfds * rs.r, wfds * rs.w, efds * rs.e;
      assert forall x :: x in fds ==> Table(fds)[x] == old(Table(fds))[x];
      assert Table(fds) == old(Table(fds)) && FdSets() == Meet(old(FdSets()), rs);
      trace := Pass();
    }
  }
}
