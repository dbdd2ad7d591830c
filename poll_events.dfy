/// The pure part of the poll back-end: translating interest into the
/// requested poll mask, deciding which handlers fire for one table entry,
/// and the outcome of one dispatch pass over the whole table, one-shot
/// deletions and the compaction they cause included.
module PollEvents {
  import opened Reactor

  // Bits of a pollfd mask (Linux values).
  const POLLIN: bv16 := 0x001
  const POLLOUT: bv16 := 0x004
  const POLLERR: bv16 := 0x008
  const POLLHUP: bv16 := 0x010

  /** struct pollfd: the descriptor, the requested mask, the returned mask. */
  datatype PollFd = PollFd(fd: int, events: bv16, revents: bv16)

  /** The requested mask add builds from zero: read asks for POLLIN, write
      for POLLOUT, error for POLLHUP, and nothing else is requested. */
  function AddMask(i: Interest): (m: bv16)
    ensures (m & POLLIN != 0) == i.read
    ensures (m & POLLOUT != 0) == i.write
    ensures (m & POLLHUP != 0) == i.error
    ensures m & !(POLLIN | POLLOUT | POLLHUP) == 0
  {
    (if i.read then POLLIN else 0) | (if i.write then POLLOUT else 0) | (if i.error then POLLHUP else 0)
  }

  /** The requested mask set rewrites: only read and write interest are
      translated; error interest is dropped, unlike in add. */
  function SetMask(i: Interest): (m: bv16)
    ensures (m & POLLIN != 0) == i.read
    ensures (m & POLLOUT != 0) == i.write
    ensures m & !(POLLIN | POLLOUT) == 0
    ensures m == AddMask(i.(error := false))
  {
    (if i.read then POLLIN else 0) | (if i.write then POLLOUT else 0)
  }

  /** Index of the first entry for descriptor fd, or |t| when there is none. */
  function Find(t: seq<PollFd>, fd: int): (k: nat)
    ensures k <= |t|
    ensures k < |t| ==> t[k].fd == fd
    ensures forall j :: 0 <= j < k ==> t[j].fd != fd
  {
    if t == [] then 0
    else if t[0].fd == fd then 0
    else 1 + Find(t[1..], fd)
  }

  /** A table entry as the dispatch pass sees it: the socket, its pollfd
      with the returned mask, and the socket's removed and one-shot flags
      when the pass reaches it. */
  datatype Row = Row(sock: Socket, pfd: PollFd, removed: bool, once: bool)

  predicate Readable(r: Row) { r.pfd.revents & POLLIN != 0 }
  predicate Writable(r: Row) { r.pfd.revents & POLLOUT != 0 }
  predicate Broken(r: Row) { r.pfd.revents & (POLLHUP | POLLERR) != 0 }

  /** A read that comes with a hang-up or an error marks the socket's
      event_hup before the read handler runs. */
  predicate HupMarked(r: Row) { Readable(r) && !r.removed && Broken(r) }

  /** Hang-up or error together with readiness: the error branch's
      `continue` leaves the entry, so its one-shot check is not reached. */
  predicate SkipsOnceCheck(r: Row) { Broken(r) && !r.removed && (Readable(r) || Writable(r)) }

  /** The entry is auto-deleted after its handlers ran. */
  predicate OnceDeletes(r: Row) { !SkipsOnceCheck(r) && !r.removed && r.once }

  /** The handlers fired for one entry, in the order read, write, error. */
  function EntryTrace(r: Row): (t: seq<Dispatch>)
    ensures Dispatch(Read, r.pfd.fd) in t <==> Readable(r) && !r.removed
    ensures Dispatch(Write, r.pfd.fd) in t <==> Writable(r) && !r.removed
    ensures Dispatch(Error, r.pfd.fd) in t <==> Broken(r) && !Readable(r) && !Writable(r) && !r.removed
    ensures forall d :: d in t ==> d.fd == r.pfd.fd
    ensures Dispatch(Error, r.pfd.fd) in t ==> t == [Dispatch(Error, r.pfd.fd)]
    ensures |t| <= 2 && (|t| == 2 ==> t[0].kind == Read && t[1].kind == Write)
  {
    (if Readable(r) && !r.removed then [Dispatch(Read, r.pfd.fd)] else [])
    + (if Writable(r) && !r.removed then [Dispatch(Write, r.pfd.fd)] else [])
    + (if Broken(r) && !r.removed && !Readable(r) && !Writable(r) then [Dispatch(Error, r.pfd.fd)] else [])
  }

  /** For one entry each handler fires at most once, in the order read,
      write, error. */
  lemma EntryTraceOrdered(r: Row)
    ensures forall i, j :: 0 <= i < j < |EntryTrace(r)| ==> Rank(EntryTrace(r)[i].kind) < Rank(EntryTrace(r)[j].kind)
  {
  }

  /** The outcome of one dispatch pass: the handler trace, the rows left in
      the table (in order), the sockets deleted as one-shot, and the
      sockets whose event_hup was set. */
  datatype RoundOut = RoundOut(trace: seq<Dispatch>, kept: seq<Row>, deleted: set<Socket>, hup: set<Socket>)

  /** The outcome of a pass over a table's front followed by its rest. */
  function Join(a: RoundOut, b: RoundOut): RoundOut
  {
    RoundOut(a.trace + b.trace, a.kept + b.kept, a.deleted + b.deleted, a.hup + b.hup)
  }

  lemma JoinAssoc(a: RoundOut, b: RoundOut, c: RoundOut)
    ensures Join(Join(a, b), c) == Join(a, Join(b, c))
  {
    assert (a.trace + b.trace) + c.trace == a.trace + (b.trace + c.trace);
    assert (a.kept + b.kept) + c.kept == a.kept + (b.kept + c.kept);
  }

  lemma NothingJoin(b: RoundOut)
    ensures Join(RoundOut([], [], {}, {}), b) == b
  {
    assert [] + b.trace == b.trace && [] + b.kept == b.kept;
  }

  lemma JoinNothing(a: RoundOut)
    ensures Join(a, PollRound([])) == a
  {
    assert a.trace + [] == a.trace && a.kept + [] == a.kept;
  }

  /** One dispatch pass over the table, as the wait loop runs it: a
      one-shot deletion compacts the table, moving the next row into the
      current index, and the loop's increment then steps over that row,
      which stays in the table unvisited. */
  function PollRound(rows: seq<Row>): (out: RoundOut)
    ensures |out.kept| <= |rows|
    decreases |rows|
  {
    if rows == [] then RoundOut([], [], {}, {})
    else
      var r := rows[0];
      var hup := if HupMarked(r) then {r.sock} else {};
      if OnceDeletes(r) then
        if |rows| == 1 then RoundOut(EntryTrace(r), [], {r.sock}, hup)
        else
          var rest := PollRound(rows[2..]);
          RoundOut(EntryTrace(r) + rest.trace, [rows[1]] + rest.kept, {r.sock} + rest.deleted, hup + rest.hup)
      else
        var rest := PollRound(rows[1..]);
        RoundOut(EntryTrace(r) + rest.trace, [r] + rest.kept, rest.deleted, hup + rest.hup)
  }

  /** The first step of a pass: what the first row contributes, and the
      rows the pass continues with. */
  function FirstStep(rows: seq<Row>): (RoundOut, seq<Row>)
    requires rows != []
  {
    var r := rows[0];
    var hup := if HupMarked(r) then {r.sock} else {};
    if OnceDeletes(r) then
      if |rows| == 1 then (RoundOut(EntryTrace(r), [], {r.sock}, hup), [])
      else (RoundOut(EntryTrace(r), [rows[1]], {r.sock}, hup), rows[2..])
    else (RoundOut(EntryTrace(r), [r], {}, hup), rows[1..])
  }

  lemma PollRoundUnfold(rows: seq<Row>)
    requires rows != []
    ensures PollRound(rows) == Join(FirstStep(rows).0, PollRound(FirstStep(rows).1))
  {
  }

  /** Every row a pass keeps is a row of the table; every socket it
      deletes or marks hung up belongs to a row that calls for it. */
  lemma {:induction false} PollRoundFromTable(rows: seq<Row>)
    ensures forall r :: r in PollRound(rows).kept ==> r in rows
    ensures forall s :: s in PollRound(rows).deleted ==> exists r :: r in rows && r.sock == s && OnceDeletes(r)
    ensures forall s :: s in PollRound(rows).hup ==> exists r :: r in rows && r.sock == s && HupMarked(r)
    decreases |rows|
  {
    if rows != [] {
      var tail := if OnceDeletes(rows[0]) && |rows| >= 2 then rows[2..] else rows[1..];
      PollRoundFromTable(tail);
      forall r | r in tail
        ensures r in rows
      {
        var j :| 0 <= j < |tail| && tail[j] == r;
        assert r == rows[j + (|rows| - |tail|)];
      }
    }
  }

  /** The rows a step keeps and goes on with are the rows ahead, less the
      first one when it is deleted. */
  lemma FirstStepRows(rest: seq<Row>)
    requires rest != []
    ensures FirstStep(rest).0.kept + FirstStep(rest).1 == if OnceDeletes(rest[0]) then rest[1..] else rest
  {
    if |rest| >= 2 {
      assert [rest[1]] + rest[2..] == rest[1..];
      assert [rest[0]] + rest[1..] == rest;
    }
  }

  /** A pass whose front has produced acc reaches the same outcome after
      one more step. */
  lemma PollRoundStep(acc: RoundOut, rest: seq<Row>)
    requires rest != []
    ensures Join(Join(acc, FirstStep(rest).0), PollRound(FirstStep(rest).1)) == Join(acc, PollRound(rest))
  {
    PollRoundUnfold(rest);
    JoinAssoc(acc, FirstStep(rest).0, PollRound(FirstStep(rest).1));
  }

  /** A step of the pass drops one or two rows from the front of the rows
      still ahead, none of which shares the first row's socket; only that
      socket can join the deleted or marked sets. */
  lemma FirstStepFresh(acc: RoundOut, rest: seq<Row>)
    requires rest != [] && DistinctSocks(rest)
    ensures var next, acc' := FirstStep(rest).1, Join(acc, FirstStep(rest).0);
      && |next| < |rest|
      && (forall k :: 0 <= k < |next| ==> next[k] == rest[k + (|rest| - |next|)] && next[k].sock != rest[0].sock)
      && (forall s :: s != rest[0].sock ==> (s in acc'.deleted <==> s in acc.deleted) && (s in acc'.hup <==> s in acc.hup))
  {
    var first, next := FirstStep(rest).0, FirstStep(rest).1;
    var offset := if OnceDeletes(rest[0]) && |rest| >= 2 then 2 else 1;
    assert next == rest[offset..];
    assert first.deleted <= {rest[0].sock} && first.hup <= {rest[0].sock};
    forall k | 0 <= k < |next|
      ensures next[k] == rest[k + offset] && next[k].sock != rest[0].sock
    {
    }
  }

  /** Reference definition: every row visited, its handlers in turn. */
  function AllEntries(rows: seq<Row>): seq<Dispatch>
  {
    if rows == [] then [] else EntryTrace(rows[0]) + AllEntries(rows[1..])
  }

  /** Descriptors in a table are pairwise distinct. */
  predicate DistinctFds(rows: seq<Row>)
  {
    forall i, j :: 0 <= i < j < |rows| ==> rows[i].pfd.fd != rows[j].pfd.fd
  }

  /** Sockets in a table are pairwise distinct. */
  predicate DistinctSocks(rows: seq<Row>)
  {
    forall i, j :: 0 <= i < j < |rows| ==> rows[i].sock != rows[j].sock
  }

  predicate Fires(k: Kind, r: Row)
  {
    Dispatch(k, r.pfd.fd) in EntryTrace(r)
  }

  /** Every handler invocation of a pass is one its row's returned mask
      calls for. */
  lemma {:induction false} PollRoundSound(rows: seq<Row>)
    ensures forall d :: d in PollRound(rows).trace ==>
              exists r :: r in rows && r.pfd.fd == d.fd && Fires(d.kind, r)
    decreases |rows|
  {
    if rows != [] {
      var r := rows[0];
      var out := PollRound(rows);
      var tail := if OnceDeletes(r) && |rows| >= 2 then rows[2..] else rows[1..];
      if |rows| >= 2 || !OnceDeletes(r) {
        PollRoundSound(tail);
      }
      forall d | d in out.trace
        ensures exists q :: q in rows && q.pfd.fd == d.fd && Fires(d.kind, q)
      {
        if d in EntryTrace(r) {
          assert r in rows && r.pfd.fd == d.fd && Fires(d.kind, r);
        } else {
          assert OnceDeletes(r) ==> |rows| >= 2;
          assert d in PollRound(tail).trace;
          var q :| q in tail && q.pfd.fd == d.fd && Fires(d.kind, q);
          assert q in rows;
        }
      }
    }
  }

  /** The hazard of the compaction: when the first row is deleted as
      one-shot, the row after it gets no handler in this pass, ready or
      not, and it stays in the table. */
  lemma PollRoundSkipsSuccessor(rows: seq<Row>)
    requires |rows| >= 2 && OnceDeletes(rows[0]) && DistinctFds(rows)
    ensures forall d :: d in PollRound(rows).trace ==> d.fd != rows[1].pfd.fd
    ensures PollRound(rows).kept[0] == rows[1]
  {
    var rest := rows[2..];
    PollRoundSound(rest);
    forall d | d in PollRound(rows).trace
      ensures d.fd != rows[1].pfd.fd
    {
      if d !in EntryTrace(rows[0]) {
        assert d in PollRound(rest).trace;
        var q :| q in rest && q.pfd.fd == d.fd && Fires(d.kind, q);
        var j :| 0 <= j < |rest| && rest[j] == q;
        assert rows[j + 2] == q;
      }
    }
  }

  /** Without one-shot deletions, the pass visits every row, fires what
      each calls for, and keeps the table as it is. */
  lemma {:induction false} PollRoundVisitsAll(rows: seq<Row>)
    requires forall r :: r in rows ==> !OnceDeletes(r)
    ensures PollRound(rows).trace == AllEntries(rows)
    ensures PollRound(rows).kept == rows
    ensures PollRound(rows).deleted == {}
    decreases |rows|
  {
    if rows != [] {
      PollRoundVisitsAll(rows[1..]);
    }
  }

  /** The socket of a table's first row is not deleted by the pass over
      the rows after offset. */
  lemma HeadNotDeletedLater(rows: seq<Row>, offset: nat)
    requires DistinctSocks(rows) && 1 <= offset <= |rows|
    ensures rows[0].sock !in PollRound(rows[offset..]).deleted
  {
    var tail := rows[offset..];
    PollRoundFromTable(tail);
    forall s | s in PollRound(tail).deleted
      ensures s != rows[0].sock
    {
      var q :| q in tail && q.sock == s && OnceDeletes(q);
      var j :| 0 <= j < |tail| && tail[j] == q;
      assert rows[j + offset] == q;
    }
  }

  /** The table shrinks by exactly the number of sockets deleted. */
  lemma {:induction false} PollRoundCount(rows: seq<Row>)
    requires DistinctSocks(rows)
    ensures |PollRound(rows).kept| + |PollRound(rows).deleted| == |rows|
    decreases |rows|
  {
    if rows != [] {
      var r := rows[0];
      if OnceDeletes(r) {
        if |rows| >= 2 {
          var tail := rows[2..];
          PollRoundCount(tail);
          HeadNotDeletedLater(rows, 2);
        }
      } else {
        PollRoundCount(rows[1..]);
      }
    }
  }

  /** A socket whose row is deleted leaves the table; a socket that was
      already removed is never deleted again. */
  lemma {:induction false} PollRoundDeletedLeave(rows: seq<Row>)
    requires DistinctSocks(rows)
    ensures forall r :: r in PollRound(rows).kept ==> r.sock !in PollRound(rows).deleted
    ensures forall r :: r in rows && r.removed ==> r.sock !in PollRound(rows).deleted
    decreases |rows|
  {
    if rows != [] {
      var r := rows[0];
      var offset := if OnceDeletes(r) && |rows| >= 2 then 2 else 1;
      var tail := rows[offset..];
      var out := PollRound(rows);
      if |rows| >= 2 || !OnceDeletes(r) {
        PollRoundDeletedLeave(tail);
      }
      PollRoundFromTable(tail);
      forall q | q in out.kept
        ensures q.sock !in out.deleted
      {
        if OnceDeletes(r) {
          var j :| 1 <= j < |rows| && rows[j] == q;
          if q != rows[1] {
            assert q in PollRound(tail).kept;
          }
        }
      }
      forall q | q in rows && q.removed
        ensures q.sock !in out.deleted
      {
        if q != r {
          var j :| 1 <= j < |rows| && rows[j] == q;
        }
      }
    }
  }

  /** The index, in the table as the pass began, that the pass visits
      after index j: the next one, or the one after it when the visit
      deletes row j, moving the next row into the current slot where the
      loop's increment steps over it. */
  function NextVisit(rows: seq<Row>, j: nat): nat
    requires j < |rows|
  {
    if OnceDeletes(rows[j]) then j + 2 else j + 1
  }

  /** Reference definition of the indices the pass visits from index j
      on: j itself, then the indices from NextVisit on. */
  function VisitedFrom(rows: seq<Row>, j: nat): (v: set<nat>)
    ensures forall i :: i in v ==> j <= i < |rows|
    ensures j < |rows| ==> j in v
    decreases |rows| + 1 - j
  {
    if j >= |rows| then {} else {j} + VisitedFrom(rows, NextVisit(rows, j))
  }

  /** The indices a pass over the whole table visits. */
  function Visited(rows: seq<Row>): set<nat>
  {
    VisitedFrom(rows, 0)
  }

  /** From a visited index the pass goes on to NextVisit, and the row after
      a row deleted as one-shot is never visited. */
  lemma {:induction false} VisitedSteps(rows: seq<Row>, o: nat, j: nat)
    requires o <= j < |rows| && j in VisitedFrom(rows, o)
    ensures NextVisit(rows, j) < |rows| ==> NextVisit(rows, j) in VisitedFrom(rows, o)
    ensures OnceDeletes(rows[j]) && j + 1 < |rows| ==> j + 1 !in VisitedFrom(rows, o)
    decreases |rows| - o
  {
    var n := NextVisit(rows, o);
    assert VisitedFrom(rows, o) == {o} + VisitedFrom(rows, n);
    if j != o {
      VisitedSteps(rows, n, j);
    }
  }

  /** The pass from a visited index o: the row at o, then the pass from
      NextVisit. */
  lemma PollRoundFrom(rows: seq<Row>, o: nat)
    requires o < |rows|
    ensures var r, n := rows[o], NextVisit(rows, o);
      var rest := if n <= |rows| then PollRound(rows[n..]) else RoundOut([], [], {}, {});
      && PollRound(rows[o..]).trace == EntryTrace(r) + rest.trace
      && PollRound(rows[o..]).deleted == (if OnceDeletes(r) then {r.sock} else {}) + rest.deleted
      && PollRound(rows[o..]).hup == (if HupMarked(r) then {r.sock} else {}) + rest.hup
  {
    var n := NextVisit(rows, o);
    assert rows[o..][0] == rows[o];
    if n <= |rows| {
      assert rows[o..][n - o..] == rows[n..];
    }
  }

  /** The pass from index o deletes exactly the sockets of the visited
      rows that OnceDeletes. */
  lemma {:induction false} VisitedDeleted(rows: seq<Row>, o: nat)
    requires o <= |rows|
    ensures PollRound(rows[o..]).deleted == set j | j in VisitedFrom(rows, o) && OnceDeletes(rows[j]) :: rows[j].sock
    decreases |rows| - o
  {
    if o < |rows| {
      var n := NextVisit(rows, o);
      PollRoundFrom(rows, o);
      if n <= |rows| {
        VisitedDeleted(rows, n);
      }
      var v := VisitedFrom(rows, n);
      assert VisitedFrom(rows, o) == {o} + v;
      var later := set j | j in v && OnceDeletes(rows[j]) :: rows[j].sock;
      forall s | s in later
        ensures exists j :: j in VisitedFrom(rows, o) && OnceDeletes(rows[j]) && rows[j].sock == s
      {
        var j :| j in v && OnceDeletes(rows[j]) && rows[j].sock == s;
        assert j in VisitedFrom(rows, o);
      }
    }
  }

  /** The pass from index o marks exactly the sockets of the visited rows
      that are HupMarked. */
  lemma {:induction false} VisitedHup(rows: seq<Row>, o: nat)
    requires o <= |rows|
    ensures PollRound(rows[o..]).hup == set j | j in VisitedFrom(rows, o) && HupMarked(rows[j]) :: rows[j].sock
    decreases |rows| - o
  {
    if o < |rows| {
      var n := NextVisit(rows, o);
      PollRoundFrom(rows, o);
      if n <= |rows| {
        VisitedHup(rows, n);
      }
      var v := VisitedFrom(rows, n);
      assert VisitedFrom(rows, o) == {o} + v;
      var later := set j | j in v && HupMarked(rows[j]) :: rows[j].sock;
      forall s | s in later
        ensures exists j :: j in VisitedFrom(rows, o) && HupMarked(rows[j]) && rows[j].sock == s
      {
        var j :| j in v && HupMarked(rows[j]) && rows[j].sock == s;
        assert j in VisitedFrom(rows, o);
      }
    }
  }

  /** The pass from index o fires exactly the handlers of the visited
      rows. */
  lemma {:induction false} VisitedTrace(rows: seq<Row>, o: nat)
    requires o <= |rows|
    ensures forall d :: d in PollRound(rows[o..]).trace <==>
              exists j :: j in VisitedFrom(rows, o) && d in EntryTrace(rows[j])
    decreases |rows| - o
  {
    if o < |rows| {
      var n := NextVisit(rows, o);
      PollRoundFrom(rows, o);
      if n <= |rows| {
        VisitedTrace(rows, n);
      }
      var v := VisitedFrom(rows, n);
      assert VisitedFrom(rows, o) == {o} + v;
      var rest := if n <= |rows| then PollRound(rows[n..]) else RoundOut([], [], {}, {});
      forall d
        ensures d in PollRound(rows[o..]).trace <==> exists j :: j in VisitedFrom(rows, o) && d in EntryTrace(rows[j])
      {
        if d in rest.trace {
          var j :| j in v && d in EntryTrace(rows[j]);
          assert j in VisitedFrom(rows, o);
        }
      }
    }
  }

  /** The pass over the whole table, stated on the indices it visits. */
  lemma PollRoundVisited(rows: seq<Row>)
    ensures PollRound(rows).deleted == set j | j in Visited(rows) && OnceDeletes(rows[j]) :: rows[j].sock
    ensures PollRound(rows).hup == set j | j in Visited(rows) && HupMarked(rows[j]) :: rows[j].sock
    ensures forall k, fd :: Dispatch(k, fd) in PollRound(rows).trace <==>
              exists j :: j in Visited(rows) && rows[j].pfd.fd == fd && Fires(k, rows[j])
  {
    VisitedDeleted(rows, 0);
    VisitedHup(rows, 0);
    VisitedTrace(rows, 0);
    assert rows[0..] == rows;
  }

  /** Handler d comes before handler e in a pass over rows: d's row comes
      first in the table, or both are of one row and d's kind ranks lower. */
  predicate RowOrder(rows: seq<Row>, d: Dispatch, e: Dispatch)
  {
    forall a, b :: 0 <= a < |rows| && 0 <= b < |rows| && rows[a].pfd.fd == d.fd && rows[b].pfd.fd == e.fd ==>
      a < b || (a == b && Rank(d.kind) < Rank(e.kind))
  }

  /** A handler fired by the pass over the rows from offset on belongs to
      one of those rows, and to no row before offset. */
  lemma TailRow(rows: seq<Row>, offset: nat, d: Dispatch)
    requires DistinctFds(rows) && 1 <= offset <= |rows| && d in PollRound(rows[offset..]).trace
    ensures exists m :: offset <= m < |rows| && rows[m].pfd.fd == d.fd
    ensures forall a :: 0 <= a < |rows| && rows[a].pfd.fd == d.fd ==> offset <= a
  {
    var tail := rows[offset..];
    PollRoundSound(tail);
    var q :| q in tail && q.pfd.fd == d.fd && Fires(d.kind, q);
    var m :| 0 <= m < |tail| && tail[m] == q;
    assert rows[m + offset] == q;
  }

  /** The handlers of the first row followed by those of a pass over the
      rows from offset on are in table order and repeat nothing. */
  lemma JoinOrdered(rows: seq<Row>, offset: nat, head: seq<Dispatch>, rest: seq<Dispatch>)
    requires DistinctFds(rows) && 1 <= offset <= |rows|
    requires forall d :: d in head ==> d.fd == rows[0].pfd.fd
    requires forall i, j :: 0 <= i < j < |head| ==> Rank(head[i].kind) < Rank(head[j].kind)
    requires forall d :: d in rest ==> d in PollRound(rows[offset..]).trace
    requires forall i, j :: 0 <= i < j < |rest| ==> RowOrder(rows[offset..], rest[i], rest[j])
    ensures forall i, j :: 0 <= i < j < |head + rest| ==>
              RowOrder(rows, (head + rest)[i], (head + rest)[j]) && (head + rest)[i] != (head + rest)[j]
  {
    var t, tail := head + rest, rows[offset..];
    forall i, j | 0 <= i < j < |t|
      ensures RowOrder(rows, t[i], t[j]) && t[i] != t[j]
    {
      if j < |head| {
        assert t[i] == head[i] && t[j] == head[j];
        assert head[i] in head && head[j] in head;
      } else if i < |head| {
        assert t[i] == head[i] && head[i] in head;
        assert t[j] == rest[j - |head|] && rest[j - |head|] in rest;
        TailRow(rows, offset, t[j]);
      } else {
        var i', j' := i - |head|, j - |head|;
        assert t[i] == rest[i'] && t[j] == rest[j'];
        assert rest[i'] in rest && rest[j'] in rest;
        TailRow(rows, offset, t[i]);
        TailRow(rows, offset, t[j]);
        assert RowOrder(tail, rest[i'], rest[j']);
        forall a, b | 0 <= a < |rows| && 0 <= b < |rows| && rows[a].pfd.fd == t[i].fd && rows[b].pfd.fd == t[j].fd
          ensures a < b || (a == b && Rank(t[i].kind) < Rank(t[j].kind))
        {
          assert tail[a - offset] == rows[a] && tail[b - offset] == rows[b];
        }
      }
    }
  }

  /** Even with one-shot deletions, a pass fires the handlers of its rows
      in table order, those of one row in the order read, write, error,
      and no handler twice. */
  lemma {:induction false} PollRoundOrdered(rows: seq<Row>)
    requires DistinctFds(rows)
    ensures forall i, j :: 0 <= i < j < |PollRound(rows).trace| ==>
              RowOrder(rows, PollRound(rows).trace[i], PollRound(rows).trace[j])
    ensures forall i, j :: 0 <= i < j < |PollRound(rows).trace| ==>
              PollRound(rows).trace[i] != PollRound(rows).trace[j]
    decreases |rows|
  {
    if rows != [] {
      var r := rows[0];
      var offset := if OnceDeletes(r) && |rows| >= 2 then 2 else 1;
      var tail := rows[offset..];
      assert DistinctFds(tail) by {
        forall i, j | 0 <= i < j < |tail|
          ensures tail[i].pfd.fd != tail[j].pfd.fd
        {
          assert tail[i] == rows[i + offset] && tail[j] == rows[j + offset];
        }
      }
      PollRoundOrdered(tail);
      EntryTraceOrdered(r);
      assert PollRound(rows).trace == EntryTrace(r) + PollRound(tail).trace;
      JoinOrdered(rows, offset, EntryTrace(r), PollRound(tail).trace);
    }
  }
}
