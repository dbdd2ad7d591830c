/// The invariant of the poll back-end's dispatch pass, stated over two
/// snapshots of the reactor's state: the table of rows the pass sees and
/// the flags of the sockets of the table it started from. The class in
/// PollBackend establishes these snapshots from its arrays; the reasoning
/// about one step of the pass happens here, on values.
module PollPass {
  import opened Reactor
  import opened PollEvents

  /** What the pass may change on a socket: its removed flag and its
      event_hup flag; its interest is carried along to show it does not. */
  datatype Mark = Mark(removed: bool, eventHup: bool, events: Interest)

  /** The flags of the sockets of a table, row by row. */
  ghost function Marks(rows0: seq<Row>): (m: seq<Mark>)
    reads set r | r in rows0 :: r.sock
    ensures |m| == |rows0|
    ensures forall a :: 0 <= a < |rows0| ==>
              m[a] == Mark(rows0[a].sock.removed, rows0[a].sock.eventHup, rows0[a].sock.events)
  {
    seq(|rows0|, a requires 0 <= a < |rows0| reads set r | r in rows0 :: r.sock =>
      Mark(rows0[a].sock.removed, rows0[a].sock.eventHup, rows0[a].sock.events))
  }

  /** The flags after one visit: the visited socket s may become removed
      (del) and hung up (hup); every other socket keeps its flags. */
  function Remark(marks: seq<Mark>, rows0: seq<Row>, s: Socket, del: bool, hup: bool): (m: seq<Mark>)
    requires |marks| == |rows0|
    ensures |m| == |marks|
    ensures forall a :: 0 <= a < |m| && rows0[a].sock != s ==> m[a] == marks[a]
    ensures forall a :: 0 <= a < |m| && rows0[a].sock == s ==>
              m[a] == marks[a].(removed := marks[a].removed || del, eventHup := marks[a].eventHup || hup)
  {
    seq(|marks|, a requires 0 <= a < |marks| =>
      if rows0[a].sock == s then marks[a].(removed := marks[a].removed || del, eventHup := marks[a].eventHup || hup)
      else marks[a])
  }

  /** The flags of the sockets of rows0 after an outcome out, starting
      from flags m0: a deleted socket is removed, a marked one hung up. */
  function Settle(m0: seq<Mark>, rows0: seq<Row>, out: RoundOut): (m: seq<Mark>)
    requires |m0| == |rows0|
    ensures |m| == |rows0|
    ensures forall a :: 0 <= a < |rows0| ==>
              m[a] == Mark(m0[a].removed || rows0[a].sock in out.deleted,
                           m0[a].eventHup || rows0[a].sock in out.hup,
                           m0[a].events)
  {
    seq(|rows0|, a requires 0 <= a < |rows0| =>
      Mark(m0[a].removed || rows0[a].sock in out.deleted, m0[a].eventHup || rows0[a].sock in out.hup, m0[a].events))
  }

  /** Where the pass stands before visiting index i of table, having
      started from rows0 with flags m0: the rows already passed (acc.kept)
      fill the indices below i and the rows still ahead (rest) the indices
      from i on; those rows belong to rows0 and their sockets have been
      neither deleted nor marked; and every socket's flags are its flags at
      the start, joined with what the outcome so far did to it. */
  ghost predicate PassAt(i: nat, table: seq<Row>, marks: seq<Mark>, rest: seq<Row>, acc: RoundOut, rows0: seq<Row>, m0: seq<Mark>)
  {
    && i <= |table| + 1
    && (i <= |table| ==> |acc.kept| == i && table == acc.kept + rest)
    && (i > |table| ==> rest == [] && table == acc.kept)
    && (forall k :: 0 <= k < |rest| ==> rest[k] in rows0 && rest[k].sock !in acc.deleted && rest[k].sock !in acc.hup)
    && |m0| == |rows0|
    && marks == Settle(m0, rows0, acc)
  }

  /** Before the first visit nothing has been passed. */
  lemma PassAtStart(rows0: seq<Row>, m0: seq<Mark>)
    requires |m0| == |rows0|
    ensures PassAt(0, rows0, m0, rows0, RoundOut([], [], {}, {}), rows0, m0)
  {
    assert [] + rows0 == rows0;
    assert Settle(m0, rows0, RoundOut([], [], {}, {})) == m0;
  }

  /** A suffix of a table with distinct sockets has distinct sockets. */
  lemma SuffixDistinct(table: seq<Row>, i: nat)
    requires DistinctSocks(table) && i <= |table|
    ensures DistinctSocks(table[i..])
  {
    var rest := table[i..];
    forall a, b | 0 <= a < b < |rest|
      ensures rest[a].sock != rest[b].sock
    {
      assert rest[a] == table[i + a] && rest[b] == table[i + b];
    }
  }

  /** The table after a visit at index i, given as the table with row i
      dropped when the row's one-shot deletion fires and unchanged
      otherwise, is the passed rows, FirstStep's kept rows and the rows
      FirstStep goes on with. */
  lemma Cut(table: seq<Row>, i: nat, rest: seq<Row>, rows: seq<Row>)
    requires i < |table| && rest == table[i..]
    requires OnceDeletes(rest[0]) ==> rows == table[..i] + table[i + 1..]
    requires !OnceDeletes(rest[0]) ==> rows == table
    ensures rows == table[..i] + FirstStep(rest).0.kept + FirstStep(rest).1
  {
    FirstStepRows(rest);
    if OnceDeletes(rest[0]) {
      assert rest[1..] == table[i + 1..];
    } else {
      assert table[..i] + rest == table;
    }
    assert table[..i] + FirstStep(rest).0.kept + FirstStep(rest).1
        == table[..i] + (FirstStep(rest).0.kept + FirstStep(rest).1);
  }

  /** The rows part of a visit: the passed rows grow by FirstStep's kept
      rows, and the rows still ahead stay unvisited rows of rows0. */
  lemma StepRows(rest: seq<Row>, acc: RoundOut, rows0: seq<Row>)
    requires rest != [] && DistinctSocks(rest)
    requires forall k :: 0 <= k < |rest| ==> rest[k] in rows0 && rest[k].sock !in acc.deleted && rest[k].sock !in acc.hup
    ensures var next, acc' := FirstStep(rest).1, Join(acc, FirstStep(rest).0);
      && |next| < |rest|
      && |FirstStep(rest).0.kept| == (if next == [] && |rest| == 1 && OnceDeletes(rest[0]) then 0 else 1)
      && (forall k :: 0 <= k < |next| ==> next[k] in rows0 && next[k].sock !in acc'.deleted && next[k].sock !in acc'.hup)
  {
    FirstStepFresh(acc, rest);
    var next, acc' := FirstStep(rest).1, Join(acc, FirstStep(rest).0);
    forall k | 0 <= k < |next|
      ensures next[k] in rows0 && next[k].sock !in acc'.deleted && next[k].sock !in acc'.hup
    {
      assert next[k] == rest[k + (|rest| - |next|)];
    }
  }

  /** The flags part of a visit: only the visited socket's flags change,
      as the step's outcome says. */
  lemma StepMarks(marks: seq<Mark>, rest: seq<Row>, acc: RoundOut, rows0: seq<Row>, m0: seq<Mark>, marks': seq<Mark>)
    requires rest != [] && DistinctSocks(rest)
    requires rest[0].sock !in acc.deleted && rest[0].sock !in acc.hup
    requires |m0| == |rows0| && marks == Settle(m0, rows0, acc)
    requires marks' == Remark(marks, rows0, rest[0].sock,
                              rest[0].sock in FirstStep(rest).0.deleted, rest[0].sock in FirstStep(rest).0.hup)
    ensures marks' == Settle(m0, rows0, Join(acc, FirstStep(rest).0))
  {
    FirstStepFresh(acc, rest);
    var acc' := Join(acc, FirstStep(rest).0);
    assert forall a :: 0 <= a < |rows0| ==> marks'[a] == Settle(m0, rows0, acc')[a];
  }

  /** One visit moves the pass from index i to i + 1: the table becomes
      the passed rows, FirstStep's kept rows and the rows FirstStep goes on
      with; the visited socket takes the flags the step gives it. */
  lemma PassAtStep(i: nat, table: seq<Row>, marks: seq<Mark>, rest: seq<Row>, acc: RoundOut,
                   rows0: seq<Row>, m0: seq<Mark>, table': seq<Row>, marks': seq<Mark>)
    requires PassAt(i, table, marks, rest, acc, rows0, m0) && i < |table| && DistinctSocks(table)
    requires table' == table[..i] + FirstStep(rest).0.kept + FirstStep(rest).1
    requires marks' == Remark(marks, rows0, rest[0].sock,
                              rest[0].sock in FirstStep(rest).0.deleted, rest[0].sock in FirstStep(rest).0.hup)
    ensures |FirstStep(rest).1| < |rest|
    ensures PassAt(i + 1, table', marks', FirstStep(rest).1, Join(acc, FirstStep(rest).0), rows0, m0)
  {
    assert rest == table[i..] && acc.kept == table[..i];
    SuffixDistinct(table, i);
    StepRows(rest, acc, rows0);
    StepMarks(marks, rest, acc, rows0, m0, marks');
    var acc' := Join(acc, FirstStep(rest).0);
    assert table' == acc'.kept + FirstStep(rest).1;
  }

  /** Once the index reaches the end of the table, the rows passed are the
      table. */
  lemma PassAtEnd(i: nat, table: seq<Row>, marks: seq<Mark>, rest: seq<Row>, acc: RoundOut, rows0: seq<Row>, m0: seq<Mark>)
    requires PassAt(i, table, marks, rest, acc, rows0, m0) && i >= |table|
    ensures rest == [] && table == acc.kept && marks == Settle(m0, rows0, acc)
  {
    if i == |table| {
      assert table == acc.kept + rest;
    }
  }
}
