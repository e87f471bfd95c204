/** What reconciliation guarantees: one run, the same run twice, and any number of runs. */
module MailQueueRuns {
  import opened Wrappers
  import opened MailQueue

  // ----- what the spools promise -----

  predicate Distinct<T(==)>(s: seq<T>) { forall i, j :: 0 <= i < j < |s| ==> s[i] != s[j] }

  /** A snapshot of one host's spools: a message is queued once, for distinct recipients. */
  predicate WellFormed(host: string, tasks: seq<Task>) {
    && (forall i, j :: 0 <= i < j < |tasks| ==> tasks[i].item.messageid != tasks[j].item.messageid)
    && (forall i :: 0 <= i < |tasks| ==>
          && tasks[i].item.hostname == host
          && Distinct(tasks[i].item.recipients))
  }

  /** No other host has a row for a message of this host or of the snapshot. */
  predicate NotShared(rows: seq<Row>, host: string, tasks: seq<Task>) {
    forall i :: 0 <= i < |rows| && rows[i].hostname != host ==>
      rows[i].messageid !in HostIds(rows, host) && rows[i].messageid !in Ids(tasks)
  }

  /** Each recipient of a message that has rows has its row. */
  ghost predicate Covered(rows: seq<Row>, host: string, tasks: seq<Task>) {
    forall i, a :: 0 <= i < |tasks| && tasks[i].item.messageid in HostIds(rows, host) && a in tasks[i].item.recipients
      ==> Matching(rows, tasks[i].item.messageid, a) == 1
  }

  /** Message id and recipient identify a row. */
  ghost predicate Unique(rows: seq<Row>) { forall m, a :: Matching(rows, m, a) <= 1 }

  /** What a run needs of the table to go through: the messages it does not know are for addresses with a
      domain, and those it knows have their rows. */
  ghost predicate Ready(rows: seq<Row>, host: string, tasks: seq<Task>) {
    && WellFormed(host, tasks) && NewAddressable(tasks, HostIds(rows, host) * Ids(tasks))
    && Covered(rows, host, tasks) && Unique(rows)
  }

  ghost predicate Fits(rows: seq<Row>, host: string, tasks: seq<Task>) {
    Ready(rows, host, tasks) && NotShared(rows, host, tasks)
  }

  // ----- pieces of the result -----

  function KnownIds(db: Db, host: string, tasks: seq<Task>): set<string> { HostIds(db.rows, host) * Ids(tasks) }

  function Kept(db: Db, host: string, tasks: seq<Task>): seq<Row> {
    Without(db.rows, HostIds(db.rows, host) - Ids(tasks))
  }

  lemma {:induction false} MatchingWithout(rows: seq<Row>, gone: set<string>, m: string, a: string)
    ensures Matching(Without(rows, gone), m, a) == if m in gone then 0 else Matching(rows, m, a)
  {
    if rows != [] {
      MatchingWithout(rows[1..], gone, m, a);
      var head := if rows[0].messageid in gone then [] else [rows[0]];
      MatchingAppend(head, Without(rows[1..], gone), m, a);
    }
  }

  lemma {:induction false} RetouchedIdentity(r: Row, tasks: seq<Task>, ids: set<string>)
    ensures var r' := Retouched(r, tasks, ids);
            r' == r.(attempts := r'.attempts, lastattempt := r'.lastattempt, direction := r'.direction)
    decreases |tasks|
  {
    if tasks != [] {
      var r' := if Applies(tasks[0], r, ids) then Touch(r, tasks[0].item, tasks[0].direction) else r;
      RetouchedIdentity(r', tasks[1..], ids);
    }
  }

  /** With every message queued once, the last word on a row is the item that applies to it. */
  lemma {:induction false} RetouchedBy(r: Row, tasks: seq<Task>, ids: set<string>, i: nat)
    requires i < |tasks| && Applies(tasks[i], r, ids)
    requires forall i, j :: 0 <= i < j < |tasks| ==> tasks[i].item.messageid != tasks[j].item.messageid
    ensures Retouched(r, tasks, ids) == Touch(r, tasks[i].item, tasks[i].direction)
    decreases |tasks|
  {
    if i == 0 {
      RetouchedOthers(Touch(r, tasks[0].item, tasks[0].direction), tasks[1..], ids);
    } else {
      RetouchedBy(r, tasks[1..], ids, i - 1);
    }
  }

  lemma {:induction false} RetouchedOthers(r: Row, tasks: seq<Task>, ids: set<string>)
    requires forall i :: 0 <= i < |tasks| ==> !Applies(tasks[i], r, ids)
    ensures Retouched(r, tasks, ids) == r
    decreases |tasks|
  {
    if tasks != [] {
      RetouchedOthers(r, tasks[1..], ids);
    }
  }

  lemma {:induction false} MatchingRetouched(rows: seq<Row>, tasks: seq<Task>, ids: set<string>, m: string, a: string)
    ensures Matching(RetouchedRows(rows, tasks, ids), m, a) == Matching(rows, m, a)
  {
    if rows != [] {
      MatchingRetouched(rows[1..], tasks, ids, m, a);
      RetouchedIdentity(rows[0], tasks, ids);
      assert RetouchedRows(rows, tasks, ids)[1..] == RetouchedRows(rows[1..], tasks, ids);
    }
  }

  lemma {:induction false} MatchingFresh(next: int, item: Item, addrs: seq<string>, direction: int, m: string,
                                         a: string)
    requires Distinct(addrs) && Addressable(addrs)
    ensures Matching(FreshRows(next, item, addrs, direction), m, a) ==
              if m == item.messageid && a in addrs then 1 else 0
    decreases |addrs|
  {
    if addrs != [] {
      var rest := addrs[1..];
      assert forall x :: x in rest ==> x in addrs;
      MatchingFresh(next + 1, item, rest, direction, m, a);
      assert FreshRows(next, item, addrs, direction)[1..] == FreshRows(next + 1, item, rest, direction);
      assert addrs == [addrs[0]] + rest;
      assert addrs[0] !in rest;
    }
  }

  /** The recipients a new row is inserted for. */
  predicate Adds(tasks: seq<Task>, ids: set<string>, m: string, a: string) {
    exists i :: 0 <= i < |tasks| && !Known(tasks[i], ids)
                && tasks[i].item.messageid == m && a in tasks[i].item.recipients
  }

  lemma AddsFirst(tasks: seq<Task>, ids: set<string>, m: string, a: string)
    requires tasks != []
    ensures Adds(tasks, ids, m, a) <==>
              || (!Known(tasks[0], ids) && tasks[0].item.messageid == m && a in tasks[0].item.recipients)
              || Adds(tasks[1..], ids, m, a)
  {
    var rest := tasks[1..];
    assert forall i :: 0 <= i < |rest| ==> rest[i] == tasks[i + 1];
    if i :| 0 <= i < |tasks| && !Known(tasks[i], ids) && tasks[i].item.messageid == m && a in tasks[i].item.recipients {
      assert i > 0 ==> rest[i - 1] == tasks[i];
    }
  }

  lemma NoLaterAdds(host: string, tasks: seq<Task>, ids: set<string>, a: string)
    requires WellFormed(host, tasks) && tasks != []
    ensures !Adds(tasks[1..], ids, tasks[0].item.messageid, a)
  {
    assert forall i :: 0 <= i < |tasks[1..]| ==> tasks[1..][i] == tasks[i + 1];
  }

  lemma WellFormedTail(host: string, tasks: seq<Task>, ids: set<string>)
    requires WellFormed(host, tasks) && NewAddressable(tasks, ids) && tasks != []
    ensures WellFormed(host, tasks[1..]) && NewAddressable(tasks[1..], ids)
  {
    assert forall i :: 0 <= i < |tasks[1..]| ==> tasks[1..][i] == tasks[i + 1];
  }

  lemma MatchingOneMore(next: int, t: Task, rest: seq<Task>, ids: set<string>, m: string, a: string)
    requires Distinct(t.item.recipients) && Addressable(t.item.recipients) && NewAddressable(rest, ids)
    ensures Matching(FreshRows(next, t.item, t.item.recipients, t.direction)
                     + Inserted(next + |t.item.recipients|, rest, ids), m, a) ==
              (if m == t.item.messageid && a in t.item.recipients then 1 else 0)
              + Matching(Inserted(next + |t.item.recipients|, rest, ids), m, a)
  {
    MatchingFresh(next, t.item, t.item.recipients, t.direction, m, a);
    MatchingAppend(FreshRows(next, t.item, t.item.recipients, t.direction),
                   Inserted(next + |t.item.recipients|, rest, ids), m, a);
  }

  predicate AddsFrom(tasks: seq<Task>, ids: set<string>, m: string, a: string) {
    tasks != []
    && ((!Known(tasks[0], ids) && tasks[0].item.messageid == m && a in tasks[0].item.recipients)
        || AddsFrom(tasks[1..], ids, m, a))
  }

  lemma {:induction false} AddsFromMeans(tasks: seq<Task>, ids: set<string>, m: string, a: string)
    ensures AddsFrom(tasks, ids, m, a) <==> Adds(tasks, ids, m, a)
    decreases |tasks|
  {
    if tasks != [] {
      AddsFirst(tasks, ids, m, a);
      AddsFromMeans(tasks[1..], ids, m, a);
    }
  }

  lemma NoneAddsLater(host: string, tasks: seq<Task>, ids: set<string>, a: string)
    requires WellFormed(host, tasks) && tasks != []
    ensures !AddsFrom(tasks[1..], ids, tasks[0].item.messageid, a)
  {
    NoLaterAdds(host, tasks, ids, a);
    AddsFromMeans(tasks[1..], ids, tasks[0].item.messageid, a);
  }

  lemma {:induction false} MatchingInsertedFrom(host: string, next: int, tasks: seq<Task>, ids: set<string>,
                                                m: string, a: string)
    requires WellFormed(host, tasks) && NewAddressable(tasks, ids)
    ensures Matching(Inserted(next, tasks, ids), m, a) == if AddsFrom(tasks, ids, m, a) then 1 else 0
    decreases |tasks|
  {
    if tasks != [] {
      var t, rest := tasks[0], tasks[1..];
      WellFormedTail(host, tasks, ids);
      if Known(t, ids) {
        MatchingInsertedFrom(host, next, rest, ids, m, a);
      } else {
        MatchingInsertedFrom(host, next + |t.item.recipients|, rest, ids, m, a);
        MatchingOneMore(next, t, rest, ids, m, a);
        NoneAddsLater(host, tasks, ids, a);
      }
    }
  }

  lemma MatchingInserted(host: string, next: int, tasks: seq<Task>, ids: set<string>, m: string, a: string)
    requires WellFormed(host, tasks) && NewAddressable(tasks, ids)
    ensures Matching(Inserted(next, tasks, ids), m, a) == if Adds(tasks, ids, m, a) then 1 else 0
  {
    MatchingInsertedFrom(host, next, tasks, ids, m, a);
    AddsFromMeans(tasks, ids, m, a);
  }

  /** A new row carries what its item says. */
  lemma {:induction false} InsertedRow(next: int, tasks: seq<Task>, ids: set<string>, r: Row)
    returns (i: nat, id: int)
    requires NewAddressable(tasks, ids) && r in Inserted(next, tasks, ids)
    ensures i < |tasks| && !Known(tasks[i], ids) && r.recipient in tasks[i].item.recipients
    ensures AfterAt(r.recipient).Some? && r == Fresh(id, tasks[i].item, r.recipient, tasks[i].direction)
    decreases |tasks|
  {
    var t, rest := tasks[0], tasks[1..];
    if Known(t, ids) {
      i, id := InsertedRow(next, rest, ids, r);
      i := i + 1;
    } else {
      var newRows := FreshRows(next, t.item, t.item.recipients, t.direction);
      if r in newRows {
        var k :| 0 <= k < |newRows| && newRows[k] == r;
        i, id := 0, next + k;
        assert t.item.recipients[k] in t.item.recipients;
      } else {
        i, id := InsertedRow(next + |t.item.recipients|, rest, ids, r);
        i := i + 1;
      }
    }
  }

  // ----- one run -----

  function After(db: Db, host: string, tasks: seq<Task>): Db { RunEffect(db, host, tasks).0 }

  lemma RunClosedForm(db: Db, host: string, tasks: seq<Task>)
    requires Ready(db.rows, host, tasks)
    ensures RunEffect(db, host, tasks).1.Done?
    ensures NewAddressable(tasks, KnownIds(db, host, tasks))
    ensures After(db, host, tasks).next == db.next + |Inserted(db.next, tasks, KnownIds(db, host, tasks))|
    ensures After(db, host, tasks).rows ==
              RetouchedRows(Kept(db, host, tasks), tasks, KnownIds(db, host, tasks))
              + Inserted(db.next, tasks, KnownIds(db, host, tasks))
  {
    var kept, pre := Kept(db, host, tasks), KnownIds(db, host, tasks);
    forall i, a | 0 <= i < |tasks| && Known(tasks[i], pre) && a in tasks[i].item.recipients
      ensures Matching(kept, tasks[i].item.messageid, a) == 1
    {
      MatchingWithout(db.rows, HostIds(db.rows, host) - Ids(tasks), tasks[i].item.messageid, a);
    }
    ClosedForm(db.(rows := kept), tasks, pre);
  }

  /** Of any table and any snapshot: the run finishes exactly when new messages are for addresses with a
      domain, and each recipient of a known message that has not just one has exactly one row. */
  lemma RunDoneExactly(db: Db, host: string, tasks: seq<Task>)
    ensures RunEffect(db, host, tasks).1.Done? <==>
              && NewAddressable(tasks, KnownIds(db, host, tasks))
              && LookupsSucceed(db.rows, tasks, KnownIds(db, host, tasks))
  {
    var kept, pre := Kept(db, host, tasks), KnownIds(db, host, tasks);
    DoneExactly(db.(rows := kept), tasks, pre);
    forall m, a | m in pre
      ensures Matching(kept, m, a) == Matching(db.rows, m, a)
    {
      MatchingWithout(db.rows, HostIds(db.rows, host) - Ids(tasks), m, a);
    }
    SameLookups(db.rows, kept, tasks, pre);
  }

  lemma MatchingAfter(db: Db, host: string, tasks: seq<Task>, m: string, a: string)
    requires Ready(db.rows, host, tasks)
    ensures Matching(After(db, host, tasks).rows, m, a) ==
              (if m in HostIds(db.rows, host) - Ids(tasks) then 0 else Matching(db.rows, m, a))
              + (if Adds(tasks, KnownIds(db, host, tasks), m, a) then 1 else 0)
  {
    var kept, pre := Kept(db, host, tasks), KnownIds(db, host, tasks);
    RunClosedForm(db, host, tasks);
    MatchingAppend(RetouchedRows(kept, tasks, pre), Inserted(db.next, tasks, pre), m, a);
    MatchingRetouched(kept, tasks, pre, m, a);
    MatchingWithout(db.rows, HostIds(db.rows, host) - Ids(tasks), m, a);
    MatchingInserted(host, db.next, tasks, pre, m, a);
  }

  /** No new message has a row, for the same recipient, of another host. */
  ghost predicate NoClash(rows: seq<Row>, host: string, tasks: seq<Task>) {
    forall m, a :: Adds(tasks, HostIds(rows, host) * Ids(tasks), m, a) ==> Matching(rows, m, a) == 0
  }

  lemma NotSharedNoClash(rows: seq<Row>, host: string, tasks: seq<Task>)
    requires NotShared(rows, host, tasks)
    ensures NoClash(rows, host, tasks)
  {
    forall m, a | Adds(tasks, HostIds(rows, host) * Ids(tasks), m, a)
      ensures Matching(rows, m, a) == 0
    {
      assert forall i :: 0 <= i < |tasks| ==> tasks[i] in tasks;
      assert forall i :: 0 <= i < |rows| ==> rows[i] in rows;
      MatchingNone(rows, m, a);
    }
  }

  lemma UniqueExactly(db: Db, host: string, tasks: seq<Task>)
    requires Ready(db.rows, host, tasks)
    ensures Unique(After(db, host, tasks).rows) <==> NoClash(db.rows, host, tasks)
  {
    var pre := KnownIds(db, host, tasks);
    forall m, a { MatchingAfter(db, host, tasks, m, a); }
    forall m, a | Adds(tasks, pre, m, a)
      ensures m !in HostIds(db.rows, host) - Ids(tasks)
    {
      assert forall i :: 0 <= i < |tasks| ==> tasks[i] in tasks;
    }
  }

  lemma {:induction false} MatchingSome(rows: seq<Row>, m: string, a: string) returns (i: nat)
    requires Matching(rows, m, a) > 0
    ensures i < |rows| && rows[i].messageid == m && rows[i].recipient == a
  {
    if rows[0].messageid == m && rows[0].recipient == a {
      i := 0;
    } else {
      i := MatchingSome(rows[1..], m, a);
      i := i + 1;
    }
  }

  /** The messages a snapshot leaves rows for: those that had some, and those with a recipient. */
  function Queued(db: Db, host: string, tasks: seq<Task>): set<string> {
    KnownIds(db, host, tasks) + set t | t in tasks && t.item.recipients != [] :: t.item.messageid
  }

  lemma OwnIdsAfterAtMost(db: Db, host: string, tasks: seq<Task>)
    requires Ready(db.rows, host, tasks)
    ensures HostIds(After(db, host, tasks).rows, host) <= Queued(db, host, tasks)
  {
    var kept, pre := Kept(db, host, tasks), KnownIds(db, host, tasks);
    RunClosedForm(db, host, tasks);
    var rows := After(db, host, tasks).rows;
    forall i | 0 <= i < |rows| && rows[i].hostname == host
      ensures rows[i].messageid in Queued(db, host, tasks)
    {
      if i < |kept| {
        RetouchedIdentity(kept[i], tasks, pre);
        assert kept[i] in kept;
      } else {
        assert rows[i] in Inserted(db.next, tasks, pre);
        var k, _ := InsertedRow(db.next, tasks, pre, rows[i]);
        assert tasks[k] in tasks;
      }
    }
  }

  lemma OwnIdsAfterAtLeast(db: Db, host: string, tasks: seq<Task>)
    requires Ready(db.rows, host, tasks)
    ensures Queued(db, host, tasks) <= HostIds(After(db, host, tasks).rows, host)
  {
    var kept, pre := Kept(db, host, tasks), KnownIds(db, host, tasks);
    RunClosedForm(db, host, tasks);
    var rows := After(db, host, tasks).rows;
    forall m | m in pre
      ensures m in HostIds(rows, host)
    {
      var r :| r in db.rows && r.hostname == host && r.messageid == m;
      assert r in kept;
      var i :| 0 <= i < |kept| && kept[i] == r;
      RetouchedIdentity(r, tasks, pre);
      assert rows[i] == Retouched(r, tasks, pre) && rows[i] in rows;
    }
    forall t | t in tasks && t.item.recipients != []
      ensures t.item.messageid in HostIds(rows, host)
    {
      if !Known(t, pre) {
        NewMessageHasRow(db, host, tasks, t);
      }
    }
  }

  lemma NewMessageHasRow(db: Db, host: string, tasks: seq<Task>, t: Task)
    requires Ready(db.rows, host, tasks)
    requires t in tasks && t.item.recipients != [] && !Known(t, KnownIds(db, host, tasks))
    ensures t.item.messageid in HostIds(After(db, host, tasks).rows, host)
  {
    var pre := KnownIds(db, host, tasks);
    RunClosedForm(db, host, tasks);
    var added := Inserted(db.next, tasks, pre);
    var m, a := t.item.messageid, t.item.recipients[0];
    var j :| 0 <= j < |tasks| && tasks[j] == t;
    assert a in tasks[j].item.recipients;
    MatchingInserted(host, db.next, tasks, pre, m, a);
    var i := MatchingSome(added, m, a);
    var k, _ := InsertedRow(db.next, tasks, pre, added[i]);
    assert added[i] in After(db, host, tasks).rows;
  }

  /** A message that gains a recipient while it is queued stops the run. */
  lemma GainedRecipientFaults(row: Row, next: int, t: Task, added: string)
    requires t.item.messageid == row.messageid && t.item.recipients == [row.recipient, added] && added != row.recipient
    ensures RunEffect(Db([row], next), row.hostname, [t]).1.Raised?
  {
    var db, m := Db([row], next), row.messageid;
    assert db.rows[0] == row && row in db.rows;
    OwnIds(db.rows, row.hostname, m);
    IdsOfOne(t);
    var pre := KnownIds(db, row.hostname, [t]);
    assert [t][0] == t && Known(t, pre);
    assert t.item.recipients[1] == added;
    assert Matching([row], m, added) == 0;
    RunDoneExactly(db, row.hostname, [t]);
  }

  // ----- rows of other hosts -----

  function Foreign(rows: seq<Row>, host: string): seq<Row> {
    if rows == [] then [] else (if rows[0].hostname != host then [rows[0]] else []) + Foreign(rows[1..], host)
  }

  lemma {:induction false} ForeignAppend(a: seq<Row>, b: seq<Row>, host: string)
    ensures Foreign(a + b, host) == Foreign(a, host) + Foreign(b, host)
  {
    if a == [] {
      assert a + b == b;
    } else {
      assert (a + b)[1..] == a[1..] + b;
      ForeignAppend(a[1..], b, host);
    }
  }

  lemma {:induction false} ForeignNone(rows: seq<Row>, host: string)
    requires forall i :: 0 <= i < |rows| ==> rows[i].hostname == host
    ensures Foreign(rows, host) == []
  {
    if rows != [] {
      ForeignNone(rows[1..], host);
    }
  }

  /** A row that is not to go, in its later form. */
  function Later(r: Row, gone: set<string>, tasks: seq<Task>, ids: set<string>): seq<Row> {
    if r.messageid in gone then [] else [Retouched(r, tasks, ids)]
  }

  lemma LaterFirst(rows: seq<Row>, gone: set<string>, tasks: seq<Task>, ids: set<string>)
    requires rows != []
    ensures RetouchedRows(Without(rows, gone), tasks, ids) ==
              Later(rows[0], gone, tasks, ids) + RetouchedRows(Without(rows[1..], gone), tasks, ids)
  {
    var head := if rows[0].messageid in gone then [] else [rows[0]];
    RetouchedRowsAppend(head, Without(rows[1..], gone), tasks, ids);
    assert RetouchedRows(head, tasks, ids) == Later(rows[0], gone, tasks, ids);
  }

  lemma RetouchedRowsAppend(a: seq<Row>, b: seq<Row>, tasks: seq<Task>, ids: set<string>)
    ensures RetouchedRows(a + b, tasks, ids) == RetouchedRows(a, tasks, ids) + RetouchedRows(b, tasks, ids)
  {
  }

  /** Of the other hosts' rows all are there unchanged, or fewer are there, or a changed one is. */
  lemma {:induction false} ForeignLater(rows: seq<Row>, gone: set<string>, tasks: seq<Task>, ids: set<string>,
                                        host: string)
    ensures |Foreign(RetouchedRows(Without(rows, gone), tasks, ids), host)| <= |Foreign(rows, host)|
    ensures Foreign(RetouchedRows(Without(rows, gone), tasks, ids), host) == Foreign(rows, host) <==>
              ForeignKept(rows, gone, tasks, ids, host)
  {
    if rows != [] {
      var h, t := rows[0], rows[1..];
      ForeignLater(t, gone, tasks, ids, host);
      LaterFirst(rows, gone, tasks, ids);
      ForeignAppend(Later(h, gone, tasks, ids), RetouchedRows(Without(t, gone), tasks, ids), host);
      RetouchedIdentity(h, tasks, ids);
      assert Foreign(rows, host) == (if h.hostname != host then [h] else []) + Foreign(t, host);
      ForeignOfOne(h, gone, tasks, ids, host);
      AppendShorter(Foreign(Later(h, gone, tasks, ids), host),
                    Foreign(RetouchedRows(Without(t, gone), tasks, ids), host),
                    if h.hostname != host then [h] else [], Foreign(t, host));
      ForeignKeptFirst(rows, gone, tasks, ids, host);
    }
  }

  lemma AppendShorter(a: seq<Row>, b: seq<Row>, c: seq<Row>, d: seq<Row>)
    requires |a| <= |c| && |b| <= |d|
    ensures a + b == c + d <==> a == c && b == d
  {
    if a + b == c + d {
      assert |a| == |c| && |b| == |d|;
      assert a == (a + b)[..|a|] == c;
      assert b == (a + b)[|a|..] == d;
    }
  }

  predicate ForeignKept(rows: seq<Row>, gone: set<string>, tasks: seq<Task>, ids: set<string>, host: string) {
    forall i :: 0 <= i < |rows| && rows[i].hostname != host ==>
      rows[i].messageid !in gone && Retouched(rows[i], tasks, ids) == rows[i]
  }

  lemma ForeignKeptFirst(rows: seq<Row>, gone: set<string>, tasks: seq<Task>, ids: set<string>, host: string)
    requires rows != []
    ensures ForeignKept(rows, gone, tasks, ids, host) <==>
              && (rows[0].hostname != host ==> rows[0].messageid !in gone && Retouched(rows[0], tasks, ids) == rows[0])
              && ForeignKept(rows[1..], gone, tasks, ids, host)
  {
    assert forall i :: 0 < i < |rows| ==> rows[i] == rows[1..][i - 1];
  }

  lemma ForeignOfOne(h: Row, gone: set<string>, tasks: seq<Task>, ids: set<string>, host: string)
    ensures Foreign(Later(h, gone, tasks, ids), host) ==
              if h.hostname == host || h.messageid in gone then [] else [Retouched(h, tasks, ids)]
  {
    RetouchedIdentity(h, tasks, ids);
    assert [Retouched(h, tasks, ids)][1..] == [];
  }

  /** A run with these items committed takes a row away or sets other values in it: its message is one of
      this host's, and either is no longer queued, or the last item to apply to the row has other values. */
  predicate Disturbed(r: Row, rows: seq<Row>, host: string, tasks: seq<Task>, done: seq<Task>) {
    && r.messageid in HostIds(rows, host)
    && (|| r.messageid !in Ids(tasks)
        || TouchedBy(r, LastApplying(r, done, HostIds(rows, host) * Ids(tasks))) != r)
  }

  /** Exactly when other hosts' rows are left alone, of any table and any snapshot, also when the run faults
      after `n` items, the first that fit the table together: none of them is disturbed. */
  lemma ForeignExactly(db: Db, host: string, tasks: seq<Task>) returns (n: nat)
    requires forall i :: 0 <= i < |tasks| ==> tasks[i].item.hostname == host
    ensures UpToFault(db.rows, tasks, KnownIds(db, host, tasks), n)
    ensures n == |tasks| <==> RunEffect(db, host, tasks).1.Done?
    ensures Foreign(After(db, host, tasks).rows, host) == Foreign(db.rows, host) <==>
              forall i :: 0 <= i < |db.rows| && db.rows[i].hostname != host ==>
                !Disturbed(db.rows[i], db.rows, host, tasks, tasks[..n])
  {
    var kept, pre := Kept(db, host, tasks), KnownIds(db, host, tasks);
    n := CommittedForm(db.(rows := kept), tasks, pre);
    KeptFaults(db, host, tasks, n);
    var done := tasks[..n];
    var added := Inserted(db.next, done, pre);
    InsertedHost(host, db.next, done, pre);
    ForeignAppend(RetouchedRows(kept, done, pre), added, host);
    ForeignNone(added, host);
    ForeignLater(db.rows, HostIds(db.rows, host) - Ids(tasks), done, pre, host);
    forall i | 0 <= i < |db.rows| { DisturbedIs(db.rows[i], db.rows, host, tasks, done); }
  }

  lemma DisturbedIs(r: Row, rows: seq<Row>, host: string, tasks: seq<Task>, done: seq<Task>)
    ensures Disturbed(r, rows, host, tasks, done) <==>
              || r.messageid in HostIds(rows, host) - Ids(tasks)
              || Retouched(r, done, HostIds(rows, host) * Ids(tasks)) != r
  {
    var ids := HostIds(rows, host) * Ids(tasks);
    RetouchedByLast(r, done, ids);
    if r.messageid !in ids { NothingApplies(r, done, ids); }
  }

  /** The rows that go have no part in where the run faults. */
  lemma KeptFaults(db: Db, host: string, tasks: seq<Task>, n: nat)
    requires UpToFault(Kept(db, host, tasks), tasks, KnownIds(db, host, tasks), n)
    ensures UpToFault(db.rows, tasks, KnownIds(db, host, tasks), n)
  {
    var kept, pre := Kept(db, host, tasks), KnownIds(db, host, tasks);
    forall m, a | m in pre
      ensures Matching(kept, m, a) == Matching(db.rows, m, a)
    {
      MatchingWithout(db.rows, HostIds(db.rows, host) - Ids(tasks), m, a);
    }
    SameLookups(db.rows, kept, tasks[..n], pre);
    if n < |tasks| { SameLookups(db.rows, kept, tasks[..n + 1], pre); }
  }

  lemma {:induction false} InsertedHost(host: string, next: int, tasks: seq<Task>, ids: set<string>)
    requires NewAddressable(tasks, ids) && forall i :: 0 <= i < |tasks| ==> tasks[i].item.hostname == host
    ensures forall i :: 0 <= i < |Inserted(next, tasks, ids)| ==> Inserted(next, tasks, ids)[i].hostname == host
    decreases |tasks|
  {
    if tasks != [] {
      var rest := tasks[1..];
      assert forall i :: 0 <= i < |rest| ==> rest[i] == tasks[i + 1];
      InsertedHost(host, next, rest, ids);
      InsertedHost(host, next + |tasks[0].item.recipients|, rest, ids);
    }
  }

  lemma {:induction false} NothingApplies(r: Row, tasks: seq<Task>, ids: set<string>)
    requires r.messageid !in ids
    ensures LastApplying(r, tasks, ids).None?
    decreases |tasks|
  {
    if tasks != [] {
      NothingApplies(r, tasks[..|tasks| - 1], ids);
    }
  }

  /** So they are if hosts share no message ids. */
  lemma ForeignUntouched(db: Db, host: string, tasks: seq<Task>)
    requires Fits(db.rows, host, tasks)
    ensures Foreign(After(db, host, tasks).rows, host) == Foreign(db.rows, host)
  {
    var _ := ForeignExactly(db, host, tasks);
  }

  /** Exactly when a row of another host survives: of any table and any snapshot, whether or not the run
      faults. The deletion goes by message id alone. */
  lemma ForeignSurvives(db: Db, host: string, tasks: seq<Task>, r: Row)
    requires r in db.rows && r.hostname != host
    ensures (exists r' :: r' in After(db, host, tasks).rows && SameRow(r, r')) <==>
              r.messageid !in HostIds(db.rows, host) || r.messageid in Ids(tasks)
    ensures r.messageid in HostIds(db.rows, host) - Ids(tasks) ==>
              forall r' :: r' in After(db, host, tasks).rows ==> r'.messageid != r.messageid
  {
    var kept, pre := Kept(db, host, tasks), KnownIds(db, host, tasks);
    if r.messageid in HostIds(db.rows, host) - Ids(tasks) {
      NeverReturns(db.(rows := kept), tasks, pre, r.messageid);
    } else {
      var n := CommittedForm(db.(rows := kept), tasks, pre);
      var i :| 0 <= i < |kept| && kept[i] == r;
      RetouchedIdentity(r, tasks[..n], pre);
      var r' := After(db, host, tasks).rows[i];
      assert r' == Retouched(r, tasks[..n], pre) && r' in After(db, host, tasks).rows;
    }
  }

  /** Two hosts with a row each of the same message: a run that no longer has it queued takes both away. */
  lemma SharedIdDeletes(own: Row, other: Row, next: int)
    requires own.messageid == other.messageid && own.hostname != other.hostname
    ensures After(Db([own, other], next), own.hostname, []).rows == []
  {
    var rows, m := [own, other], own.messageid;
    assert rows[0] == own && own in rows;
    OwnIds(rows, own.hostname, m);
    IdsOfNone();
    assert HostIds(rows, own.hostname) - Ids([]) == {m};
    WithoutAll(rows, {m});
  }

  /** A run that has it queued for a single recipient overwrites both. */
  lemma SharedIdOverwrites(own: Row, other: Row, next: int, t: Task)
    requires own.messageid == other.messageid == t.item.messageid && own.hostname != other.hostname
    requires |t.item.recipients| == 1
    ensures After(Db([own, other], next), own.hostname, [t]).rows ==
              [Touch(own, t.item, t.direction), Touch(other, t.item, t.direction)]
  {
    var rows, m := [own, other], own.messageid;
    assert rows[0] == own && own in rows;
    OwnIds(rows, own.hostname, m);
    IdsOfOne(t);
    assert HostIds(rows, own.hostname) - Ids([t]) == {};
    WithoutNothing(rows);
    assert HostIds(rows, own.hostname) * Ids([t]) == {m};
    OneKnown(Db(rows, next), t, {m});
    assert Updated(rows, t.item, t.direction) == [Touch(own, t.item, t.direction), Touch(other, t.item, t.direction)];
  }

  lemma OneKnown(db: Db, t: Task, ids: set<string>)
    requires t.item.messageid in ids && |t.item.recipients| == 1
    ensures QueueEffect(db, [t], ids) == (db.(rows := Updated(db.rows, t.item, t.direction)), Done)
  {
    assert [t][1..] == [];
  }

  lemma OwnIds(rows: seq<Row>, host: string, m: string)
    requires forall r :: r in rows ==> r.messageid == m
    requires exists r :: r in rows && r.hostname == host
    ensures HostIds(rows, host) == {m}
  {
    var r :| r in rows && r.hostname == host;
    assert r.messageid in HostIds(rows, host);
  }

  lemma IdsOfNone()
    ensures forall ids: set<string> :: ids - Ids([]) == ids
  {
    assert Ids([]) == {};
  }

  lemma IdsOfOne(t: Task)
    ensures Ids([t]) == {t.item.messageid}
  {
    assert [t][0] == t;
  }

  lemma {:induction false} WithoutAll(rows: seq<Row>, gone: set<string>)
    requires forall i :: 0 <= i < |rows| ==> rows[i].messageid in gone
    ensures Without(rows, gone) == []
  {
    if rows != [] {
      WithoutAll(rows[1..], gone);
    }
  }

  lemma {:induction false} NeverReturns(db: Db, tasks: seq<Task>, ids: set<string>, m: string)
    requires m !in Ids(tasks) && forall r :: r in db.rows ==> r.messageid != m
    ensures forall r :: r in QueueEffect(db, tasks, ids).0.rows ==> r.messageid != m
    decreases |tasks|
  {
    if tasks != [] {
      var (db1, o) := ItemEffect(db, tasks[0].item, tasks[0].direction, ids);
      assert tasks[0] in tasks;
      forall i | 0 <= i < |db1.rows|
        ensures db1.rows[i].messageid != m
      {
        if i < |db.rows| { assert db.rows[i] in db.rows; }
      }
      assert forall t :: t in tasks[1..] ==> t in tasks;
      NeverReturns(db1, tasks[1..], ids, m);
    }
  }

  /** The later form of a row that stays. */
  predicate Follows(r: Row, r': Row, tasks: seq<Task>, ids: set<string>) {
    && (forall k :: 0 <= k < |tasks| && Applies(tasks[k], r, ids) ==> r' == Touch(r, tasks[k].item, tasks[k].direction))
    && ((forall k :: 0 <= k < |tasks| ==> !Applies(tasks[k], r, ids)) ==> r' == r)
  }

  lemma FollowsRetouched(r: Row, tasks: seq<Task>, ids: set<string>)
    requires forall i, j :: 0 <= i < j < |tasks| ==> tasks[i].item.messageid != tasks[j].item.messageid
    ensures Follows(r, Retouched(r, tasks, ids), tasks, ids)
  {
    forall k | 0 <= k < |tasks| && Applies(tasks[k], r, ids) { RetouchedBy(r, tasks, ids, k); }
    if forall k :: 0 <= k < |tasks| ==> !Applies(tasks[k], r, ids) {
      RetouchedOthers(r, tasks, ids);
    }
  }

  /** After a run on a table that is ready for the snapshot: no fault; this host's messages are exactly the
      queued ones that had rows or have a recipient; each row that stays takes its attempts, last
      attempt and direction from the item that applies to it, if any, and keeps all else; each recipient
      has as many rows as before, none if its message is gone, and one more if the message is new; and
      message id and recipient stay unique exactly if no new message has such a row of another host. */
  lemma Reconciled(db: Db, host: string, tasks: seq<Task>)
    requires Ready(db.rows, host, tasks)
    ensures var (after, o) := RunEffect(db, host, tasks);
            var kept := Kept(db, host, tasks);
            && o.Done?
            && HostIds(after.rows, host) == Queued(db, host, tasks)
            && |after.rows| >= |kept|
            && (forall i :: 0 <= i < |kept| ==> Follows(kept[i], after.rows[i], tasks, KnownIds(db, host, tasks)))
            && (forall m, a :: Matching(after.rows, m, a) ==
                  (if m in HostIds(db.rows, host) - Ids(tasks) then 0 else Matching(db.rows, m, a))
                  + (if Adds(tasks, KnownIds(db, host, tasks), m, a) then 1 else 0))
            && (Unique(after.rows) <==> NoClash(db.rows, host, tasks))
  {
    var kept, pre := Kept(db, host, tasks), KnownIds(db, host, tasks);
    RunClosedForm(db, host, tasks);
    OwnIdsAfterAtMost(db, host, tasks);
    OwnIdsAfterAtLeast(db, host, tasks);
    forall i | 0 <= i < |kept| { FollowsRetouched(kept[i], tasks, pre); }
    forall m, a { MatchingAfter(db, host, tasks, m, a); }
    UniqueExactly(db, host, tasks);
  }

  /** Where hosts share no message ids, a new message has one row for each recipient and no other. */
  lemma NewMessageRows(db: Db, host: string, tasks: seq<Task>, i: nat, a: string)
    requires Fits(db.rows, host, tasks)
    requires i < |tasks| && tasks[i].item.messageid !in HostIds(db.rows, host)
    ensures Matching(After(db, host, tasks).rows, tasks[i].item.messageid, a)
              == if a in tasks[i].item.recipients then 1 else 0
  {
    var m := tasks[i].item.messageid;
    MatchingAfter(db, host, tasks, m, a);
    assert tasks[i] in tasks;
    assert forall j :: 0 <= j < |db.rows| ==> db.rows[j] in db.rows;
    MatchingNone(db.rows, m, a);
  }

  // ----- run after run -----

  /** A message still queued has no recipient it did not have before. */
  predicate Shrinks(before: seq<Task>, later: seq<Task>) {
    forall i, j :: 0 <= i < |before| && 0 <= j < |later| && before[i].item.messageid == later[j].item.messageid ==>
      forall a :: a in later[j].item.recipients ==> a in before[i].item.recipients
  }

  predicate ForeignIdsApart(rows: seq<Row>, host: string, tasks: seq<Task>) {
    forall i :: 0 <= i < |rows| && rows[i].hostname != host ==> rows[i].messageid !in Ids(tasks)
  }

  lemma {:induction false} ForeignMember(rows: seq<Row>, host: string, r: Row)
    ensures r in Foreign(rows, host) <==> r in rows && r.hostname != host
  {
    if rows != [] {
      ForeignMember(rows[1..], host, r);
      assert rows == [rows[0]] + rows[1..];
    }
  }

  lemma ForeignIdsStay(db: Db, host: string, tasks: seq<Task>, later: seq<Task>)
    requires Fits(db.rows, host, tasks) && ForeignIdsApart(db.rows, host, later)
    ensures NotShared(After(db, host, tasks).rows, host, later)
    ensures ForeignIdsApart(After(db, host, tasks).rows, host, later)
  {
    var rows := After(db, host, tasks).rows;
    ForeignUntouched(db, host, tasks);
    OwnIdsAfterAtMost(db, host, tasks);
    forall i | 0 <= i < |rows| && rows[i].hostname != host
      ensures rows[i].messageid !in HostIds(rows, host) && rows[i].messageid !in Ids(later)
    {
      ForeignMember(rows, host, rows[i]);
      ForeignMember(db.rows, host, rows[i]);
      var j :| 0 <= j < |db.rows| && db.rows[j] == rows[i];
    }
  }

  lemma CoveredAfter(db: Db, host: string, tasks: seq<Task>, i: nat, a: string)
    requires Fits(db.rows, host, tasks) && i < |tasks| && a in tasks[i].item.recipients
    requires tasks[i].item.messageid in HostIds(After(db, host, tasks).rows, host)
    ensures Matching(After(db, host, tasks).rows, tasks[i].item.messageid, a) == 1
  {
    var m := tasks[i].item.messageid;
    if m in HostIds(db.rows, host) {
      assert tasks[i] in tasks;
      MatchingAfter(db, host, tasks, m, a);
    } else {
      NewMessageRows(db, host, tasks, i, a);
    }
  }

  /** A message that was not queued before is for addresses with a domain. */
  predicate ArrivalsAddressable(before: seq<Task>, later: seq<Task>) {
    forall j :: 0 <= j < |later| && later[j].item.messageid !in Ids(before) ==> Addressable(later[j].item.recipients)
  }

  /** A run leaves a table that fits the next snapshot, if the queue only moves on as queues do. */
  lemma FitsNext(db: Db, host: string, tasks: seq<Task>, later: seq<Task>)
    requires Fits(db.rows, host, tasks)
    requires WellFormed(host, later) && Shrinks(tasks, later) && ArrivalsAddressable(tasks, later)
    requires ForeignIdsApart(db.rows, host, later)
    ensures Fits(After(db, host, tasks).rows, host, later)
  {
    var rows := After(db, host, tasks).rows;
    Reconciled(db, host, tasks);
    NotSharedNoClash(db.rows, host, tasks);
    ForeignIdsStay(db, host, tasks, later);
    forall j | 0 <= j < |later| && later[j].item.messageid !in HostIds(rows, host)
      ensures Addressable(later[j].item.recipients)
    {
      NewlyAddressable(db, host, tasks, later, j);
    }
    forall j, a | 0 <= j < |later| && later[j].item.messageid in HostIds(rows, host) && a in later[j].item.recipients
      ensures Matching(rows, later[j].item.messageid, a) == 1
    {
      var t :| t in tasks && t.item.messageid == later[j].item.messageid;
      var i :| 0 <= i < |tasks| && tasks[i] == t;
      CoveredAfter(db, host, tasks, i, a);
    }
  }

  /** A message still without rows either was not queued before, or had no recipient. */
  lemma NewlyAddressable(db: Db, host: string, tasks: seq<Task>, later: seq<Task>, j: nat)
    requires Fits(db.rows, host, tasks) && Shrinks(tasks, later) && ArrivalsAddressable(tasks, later)
    requires j < |later| && later[j].item.messageid !in HostIds(After(db, host, tasks).rows, host)
    ensures Addressable(later[j].item.recipients)
  {
    OwnIdsAfterAtLeast(db, host, tasks);
    if later[j].item.messageid in Ids(tasks) {
      var t :| t in tasks && t.item.messageid == later[j].item.messageid;
      var i :| 0 <= i < |tasks| && tasks[i] == t;
      assert t.item.recipients == [];
    }
  }

  lemma {:induction false} InsertsNothing(next: int, tasks: seq<Task>, ids: set<string>)
    requires forall i :: 0 <= i < |tasks| && !Known(tasks[i], ids) ==> tasks[i].item.recipients == []
    ensures NewAddressable(tasks, ids) && Inserted(next, tasks, ids) == []
    decreases |tasks|
  {
    if tasks != [] {
      InsertsNothing(next, tasks[1..], ids);
    }
  }

  lemma {:induction false} RetouchedSettled(r: Row, tasks: seq<Task>, ids: set<string>)
    requires forall k :: 0 <= k < |tasks| && Applies(tasks[k], r, ids) ==>
              Touch(r, tasks[k].item, tasks[k].direction) == r
    ensures Retouched(r, tasks, ids) == r
    decreases |tasks|
  {
    if tasks != [] {
      RetouchedSettled(r, tasks[1..], ids);
    }
  }

  // ----- the same run twice -----

  /** A second run finds a row of a new message as it would leave it: with a single recipient it updates all
      rows of the message, else it looks up each recipient's. */
  predicate LeftAlone(r: Row, t: Task) {
    if |t.item.recipients| == 1 then Touch(r, t.item, t.direction) == r else r.recipient !in t.item.recipients
  }

  /** So are all rows that are there, of another host, when a message is new. */
  predicate Settles(rows: seq<Row>, host: string, tasks: seq<Task>) {
    forall k, i :: 0 <= k < |tasks| && 0 <= i < |rows|
      && tasks[k].item.messageid !in HostIds(rows, host) && rows[i].messageid == tasks[k].item.messageid
      ==> LeftAlone(rows[i], tasks[k])
  }

  lemma KeptStays(db: Db, host: string, tasks: seq<Task>, i: nat)
    requires Ready(db.rows, host, tasks) && i < |Kept(db, host, tasks)|
    ensures var kept, after := Kept(db, host, tasks), After(db, host, tasks).rows;
            && i < |after| && SameRow(kept[i], after[i])
            && after[i] == Retouched(kept[i], tasks, KnownIds(db, host, tasks))
            && exists j :: 0 <= j < |db.rows| && db.rows[j] == kept[i]
  {
    var kept := Kept(db, host, tasks);
    RunClosedForm(db, host, tasks);
    RetouchedIdentity(kept[i], tasks, KnownIds(db, host, tasks));
    assert kept[i] in kept;
  }

  lemma SettledKept(db: Db, host: string, tasks: seq<Task>, i: nat, k: nat)
    requires Ready(db.rows, host, tasks) && Settles(db.rows, host, tasks)
    requires i < |Kept(db, host, tasks)| && k < |tasks| && |After(db, host, tasks).rows| > i
    requires Hits(tasks[k].item, tasks[k].item.recipients, |tasks[k].item.recipients| == 1,
                  After(db, host, tasks).rows[i])
    ensures Touch(After(db, host, tasks).rows[i], tasks[k].item, tasks[k].direction) == After(db, host, tasks).rows[i]
  {
    var r, pre := Kept(db, host, tasks)[i], KnownIds(db, host, tasks);
    KeptStays(db, host, tasks, i);
    assert tasks[k] in tasks;
    if r.messageid in pre {
      RetouchedBy(r, tasks, pre, k);
    } else {
      RetouchedUnknown(r, tasks, pre);
      var j :| 0 <= j < |db.rows| && db.rows[j] == r;
      assert LeftAlone(db.rows[j], tasks[k]);
    }
  }

  lemma SettledNew(db: Db, host: string, tasks: seq<Task>, i: nat, k: nat)
    requires Ready(db.rows, host, tasks)
    requires |Kept(db, host, tasks)| <= i < |After(db, host, tasks).rows| && k < |tasks|
    requires Hits(tasks[k].item, tasks[k].item.recipients, |tasks[k].item.recipients| == 1,
                  After(db, host, tasks).rows[i])
    ensures Touch(After(db, host, tasks).rows[i], tasks[k].item, tasks[k].direction) == After(db, host, tasks).rows[i]
  {
    var pre := KnownIds(db, host, tasks);
    RunClosedForm(db, host, tasks);
    var r := After(db, host, tasks).rows[i];
    assert r in Inserted(db.next, tasks, pre);
    var k', id := InsertedRow(db.next, tasks, pre, r);
    assert k' == k;
  }

  lemma AllSettled(db: Db, host: string, tasks: seq<Task>, ids: set<string>)
    requires Ready(db.rows, host, tasks) && Settles(db.rows, host, tasks)
    ensures RetouchedRows(After(db, host, tasks).rows, tasks, ids) == After(db, host, tasks).rows
  {
    var rows := After(db, host, tasks).rows;
    forall i | 0 <= i < |rows|
      ensures Retouched(rows[i], tasks, ids) == rows[i]
    {
      forall k | 0 <= k < |tasks| && Applies(tasks[k], rows[i], ids)
        ensures Touch(rows[i], tasks[k].item, tasks[k].direction) == rows[i]
      {
        if i < |Kept(db, host, tasks)| {
          SettledKept(db, host, tasks, i, k);
        } else {
          SettledNew(db, host, tasks, i, k);
        }
      }
      RetouchedSettled(rows[i], tasks, ids);
    }
  }

  lemma NothingNew(db: Db, host: string, tasks: seq<Task>)
    requires Ready(db.rows, host, tasks)
    ensures var db1 := After(db, host, tasks);
            && HostIds(db1.rows, host) - Ids(tasks) == {}
            && forall i :: 0 <= i < |tasks| && !Known(tasks[i], KnownIds(db1, host, tasks)) ==>
              tasks[i].item.recipients == []
  {
    OwnIdsAfterAtMost(db, host, tasks);
    OwnIdsAfterAtLeast(db, host, tasks);
    QueuedInSnapshot(db, host, tasks);
    assert forall i :: 0 <= i < |tasks| ==> tasks[i] in tasks;
  }

  /** A second run deletes and inserts nothing: its lookups fail, or it updates rows. */
  lemma SecondRun(db: Db, host: string, tasks: seq<Task>)
    requires Ready(db.rows, host, tasks)
    ensures var db1 := After(db, host, tasks);
            var pre := KnownIds(db1, host, tasks);
            && (RunEffect(db1, host, tasks).1.Done? <==> LookupsSucceed(db1.rows, tasks, pre))
            && (RunEffect(db1, host, tasks).1.Done? ==>
                  RunEffect(db1, host, tasks).0 == db1.(rows := RetouchedRows(db1.rows, tasks, pre)))
  {
    var db1 := After(db, host, tasks);
    var pre := KnownIds(db1, host, tasks);
    NothingNew(db, host, tasks);
    InsertsNothing(db1.next, tasks, pre);
    RunDoneExactly(db1, host, tasks);
    WithoutNothing(db1.rows);
    if LookupsSucceed(db1.rows, tasks, pre) { ClosedForm(db1, tasks, pre); }
  }

  lemma {:induction false} MatchingMember(rows: seq<Row>, i: nat)
    requires i < |rows|
    ensures Matching(rows, rows[i].messageid, rows[i].recipient) >= 1
  {
    if i > 0 { MatchingMember(rows[1..], i - 1); }
  }

  lemma LookupAgain(db: Db, host: string, tasks: seq<Task>, k: nat, a: string)
    requires Ready(db.rows, host, tasks) && k < |tasks| && a in tasks[k].item.recipients
    ensures var m := tasks[k].item.messageid;
            Matching(After(db, host, tasks).rows, m, a) ==
              if m in HostIds(db.rows, host) then 1 else Matching(db.rows, m, a) + 1
  {
    assert tasks[k] in tasks;
    MatchingAfter(db, host, tasks, tasks[k].item.messageid, a);
  }

  lemma LookupsAgain(db: Db, host: string, tasks: seq<Task>)
    requires Ready(db.rows, host, tasks) && Settles(db.rows, host, tasks)
    ensures LookupsSucceed(After(db, host, tasks).rows, tasks, KnownIds(After(db, host, tasks), host, tasks))
  {
    forall k, a | 0 <= k < |tasks| && |tasks[k].item.recipients| != 1 && a in tasks[k].item.recipients
      ensures Matching(After(db, host, tasks).rows, tasks[k].item.messageid, a) == 1
    {
      LookupAgain(db, host, tasks, k, a);
      if tasks[k].item.messageid !in HostIds(db.rows, host) {
        assert forall i :: 0 <= i < |db.rows| && db.rows[i].messageid == tasks[k].item.messageid ==>
            LeftAlone(db.rows[i], tasks[k]);
        MatchingNone(db.rows, tasks[k].item.messageid, a);
      }
    }
  }

  lemma NewIsKnownNow(db: Db, host: string, tasks: seq<Task>, k: nat)
    requires Ready(db.rows, host, tasks) && k < |tasks| && tasks[k].item.recipients != []
    ensures Known(tasks[k], KnownIds(After(db, host, tasks), host, tasks))
  {
    NothingNew(db, host, tasks);
  }

  /** A row that a second run does not leave alone makes a difference. */
  lemma NotLeftAlone(db: Db, host: string, tasks: seq<Task>, k: nat, j: nat)
    requires Ready(db.rows, host, tasks) && k < |tasks| && j < |db.rows|
    requires tasks[k].item.messageid !in HostIds(db.rows, host) && db.rows[j].messageid == tasks[k].item.messageid
    requires !LeftAlone(db.rows[j], tasks[k])
    ensures RunEffect(After(db, host, tasks), host, tasks) != (After(db, host, tasks), Done)
  {
    var r, db1 := db.rows[j], After(db, host, tasks);
    var pre2 := KnownIds(db1, host, tasks);
    assert tasks[k] in tasks && r in Kept(db, host, tasks);
    var i :| 0 <= i < |Kept(db, host, tasks)| && Kept(db, host, tasks)[i] == r;
    KeptStays(db, host, tasks, i);
    RetouchedUnknown(r, tasks, KnownIds(db, host, tasks));
    SecondRun(db, host, tasks);
    assert tasks[k].item.recipients != [];
    NewIsKnownNow(db, host, tasks, k);
    if |tasks[k].item.recipients| == 1 {
      RetouchedBy(r, tasks, pre2, k);
      assert db1.rows[i] == r && RetouchedRows(db1.rows, tasks, pre2)[i] != r;
    } else {
      LookupAgain(db, host, tasks, k, r.recipient);
      MatchingMember(db.rows, j);
    }
  }

  /** Exactly when running again on the same snapshot changes nothing at all. */
  lemma IdempotentExactly(db: Db, host: string, tasks: seq<Task>)
    requires Ready(db.rows, host, tasks)
    ensures RunEffect(After(db, host, tasks), host, tasks) == (After(db, host, tasks), Done) <==>
              Settles(db.rows, host, tasks)
  {
    if Settles(db.rows, host, tasks) {
      SecondRun(db, host, tasks);
      LookupsAgain(db, host, tasks);
      AllSettled(db, host, tasks, KnownIds(After(db, host, tasks), host, tasks));
    } else {
      var k, i :| 0 <= k < |tasks| && 0 <= i < |db.rows|
        && tasks[k].item.messageid !in HostIds(db.rows, host) && db.rows[i].messageid == tasks[k].item.messageid
        && !LeftAlone(db.rows[i], tasks[k]);
      NotLeftAlone(db, host, tasks, k, i);
    }
  }

  /** So where hosts share no message ids. */
  lemma Idempotent(db: Db, host: string, tasks: seq<Task>)
    requires Fits(db.rows, host, tasks)
    ensures RunEffect(After(db, host, tasks), host, tasks) == (After(db, host, tasks), Done)
  {
    assert forall i :: 0 <= i < |tasks| ==> tasks[i] in tasks;
    IdempotentExactly(db, host, tasks);
  }

  /** A new message that another host has a row of: the second run overwrites what the first left alone. */
  lemma SecondRunOverwrites(other: Row, host: string, next: int, t: Task)
    requires other.hostname != host && t.item.hostname == host && other.messageid == t.item.messageid
    requires |t.item.recipients| == 1 && AfterAt(t.item.recipients[0]).Some?
    requires Touch(other, t.item, t.direction) != other
    ensures var db1 := After(Db([other], next), host, [t]);
            RunEffect(db1, host, [t]) != (db1, Done)
  {
    var db := Db([other], next);
    assert HostIds(db.rows, host) == {};
    assert Ready(db.rows, host, [t]) by { assert forall m, a :: Matching([other], m, a) <= 1; }
    assert !LeftAlone(db.rows[0], [t][0]);
    IdempotentExactly(db, host, [t]);
  }

  /** Any number of runs, one for each snapshot. */
  function Runs(db: Db, host: string, snapshots: seq<seq<Task>>): (Db, Outcome)
    decreases |snapshots|
  {
    if snapshots == [] then (db, Done)
    else
      var (db1, o) := RunEffect(db, host, snapshots[0]);
      if o.Raised? then (db1, o) else Runs(db1, host, snapshots[1..])
  }

  predicate QueueHistory(rows: seq<Row>, host: string, snapshots: seq<seq<Task>>) {
    && (forall k :: 0 <= k < |snapshots| ==>
          WellFormed(host, snapshots[k]) && ForeignIdsApart(rows, host, snapshots[k]))
    && (forall k :: 0 <= k < |snapshots| - 1 ==>
          Shrinks(snapshots[k], snapshots[k + 1]) && ArrivalsAddressable(snapshots[k], snapshots[k + 1]))
  }

  lemma HistoryAfterFirst(db: Db, host: string, snapshots: seq<seq<Task>>)
    requires snapshots != [] && QueueHistory(db.rows, host, snapshots) && Fits(db.rows, host, snapshots[0])
    ensures QueueHistory(After(db, host, snapshots[0]).rows, host, snapshots[1..])
    ensures |snapshots| > 1 ==> Fits(After(db, host, snapshots[0]).rows, host, snapshots[1])
  {
    var rest := snapshots[1..];
    assert forall k :: 0 <= k < |rest| ==> rest[k] == snapshots[k + 1];
    forall k | 0 <= k < |rest|
      ensures ForeignIdsApart(After(db, host, snapshots[0]).rows, host, rest[k])
    {
      ForeignIdsStay(db, host, snapshots[0], rest[k]);
    }
    if |snapshots| > 1 {
      FitsNext(db, host, snapshots[0], snapshots[1]);
    }
  }

  /** Over a whole history no lookup and no address ever faults, and the key stays unique. */
  lemma {:induction false} HistoryNeverFaults(db: Db, host: string, snapshots: seq<seq<Task>>)
    requires QueueHistory(db.rows, host, snapshots) && Unique(db.rows)
    requires snapshots != [] ==> Fits(db.rows, host, snapshots[0])
    ensures var (after, o) := Runs(db, host, snapshots);
            && o.Done? && Unique(after.rows)
            && Foreign(after.rows, host) == Foreign(db.rows, host)
            && (snapshots != [] ==> HostIds(after.rows, host) <= Ids(snapshots[|snapshots| - 1]))
    decreases |snapshots|
  {
    if snapshots != [] {
      Reconciled(db, host, snapshots[0]);
      NotSharedNoClash(db.rows, host, snapshots[0]);
      ForeignUntouched(db, host, snapshots[0]);
      QueuedInSnapshot(db, host, snapshots[0]);
      HistoryAfterFirst(db, host, snapshots);
      HistoryNeverFaults(After(db, host, snapshots[0]), host, snapshots[1..]);
    }
  }

  lemma QueuedInSnapshot(db: Db, host: string, tasks: seq<Task>)
    ensures Queued(db, host, tasks) <= Ids(tasks)
  {
  }

  /** In particular from a table without rows of this host. */
  lemma FirstRunFits(rows: seq<Row>, host: string, tasks: seq<Task>)
    requires WellFormed(host, tasks) && ForeignIdsApart(rows, host, tasks) && Unique(rows)
    requires forall i :: 0 <= i < |tasks| ==> Addressable(tasks[i].item.recipients)
    requires forall r :: r in rows ==> r.hostname != host
    ensures Fits(rows, host, tasks)
  {
    assert HostIds(rows, host) == {};
  }

  // ----- several hosts, on one table -----

  /** One host's run on its spools. */
  datatype Run = Run(host: string, tasks: seq<Task>)

  function RunsOf(db: Db, runs: seq<Run>): (Db, Outcome)
    decreases |runs|
  {
    if runs == [] then (db, Done)
    else
      var (db1, o) := RunEffect(db, runs[0].host, runs[0].tasks);
      if o.Raised? then (db1, o) else RunsOf(db1, runs[1..])
  }

  /** The table as a host's last run has left it: rows for all recipients of its messages, and none of other
      messages. */
  ghost predicate Current(rows: seq<Row>, host: string, tasks: seq<Task>) {
    && Covered(rows, host, tasks) && HostIds(rows, host) <= Ids(tasks)
    && forall i :: 0 <= i < |tasks| && tasks[i].item.messageid !in HostIds(rows, host) ==>
      tasks[i].item.recipients == []
  }

  /** Every message id belongs to one host; `last` holds each host's last snapshot, if it has run. */
  ghost predicate Shared(rows: seq<Row>, owner: string -> string, last: map<string, seq<Task>>) {
    && Unique(rows)
    && (forall i :: 0 <= i < |rows| ==> rows[i].hostname == owner(rows[i].messageid))
    && forall h: string :: if h in last then Current(rows, h, last[h]) else HostIds(rows, h) == {}
  }

  /** The host's next snapshot, as its queue moves on. */
  predicate MovesOn(owner: string -> string, last: map<string, seq<Task>>, run: Run) {
    && WellFormed(run.host, run.tasks)
    && (forall i :: 0 <= i < |run.tasks| ==> owner(run.tasks[i].item.messageid) == run.host)
    && var before := if run.host in last then last[run.host] else [];
       Shrinks(before, run.tasks) && ArrivalsAddressable(before, run.tasks)
  }

  predicate Histories(owner: string -> string, last: map<string, seq<Task>>, runs: seq<Run>)
    decreases |runs|
  {
    runs == []
    || (MovesOn(owner, last, runs[0]) && Histories(owner, last[runs[0].host := runs[0].tasks], runs[1..]))
  }

  function LastOf(last: map<string, seq<Task>>, runs: seq<Run>): map<string, seq<Task>>
    decreases |runs|
  {
    if runs == [] then last else LastOf(last[runs[0].host := runs[0].tasks], runs[1..])
  }

  lemma HostFits(rows: seq<Row>, owner: string -> string, last: map<string, seq<Task>>, run: Run)
    requires Shared(rows, owner, last) && MovesOn(owner, last, run)
    ensures Fits(rows, run.host, run.tasks)
  {
    var h, tasks := run.host, run.tasks;
    assert if h in last then Current(rows, h, last[h]) else HostIds(rows, h) == {};
    OwnersApart(rows, owner, last, run);
    forall j | 0 <= j < |tasks|
      ensures tasks[j].item.messageid !in HostIds(rows, h) ==> Addressable(tasks[j].item.recipients)
      ensures forall a :: tasks[j].item.messageid in HostIds(rows, h) && a in tasks[j].item.recipients ==>
                Matching(rows, tasks[j].item.messageid, a) == 1
    {
      if h in last && tasks[j].item.messageid in Ids(last[h]) {
        var t :| t in last[h] && t.item.messageid == tasks[j].item.messageid;
        var i :| 0 <= i < |last[h]| && last[h][i] == t;
      }
    }
  }

  lemma OwnersApart(rows: seq<Row>, owner: string -> string, last: map<string, seq<Task>>, run: Run)
    requires Shared(rows, owner, last) && MovesOn(owner, last, run)
    ensures NotShared(rows, run.host, run.tasks)
  {
    forall r | r in rows
      ensures r.hostname == owner(r.messageid)
    {
      var i :| 0 <= i < |rows| && rows[i] == r;
    }
    forall t | t in run.tasks
      ensures owner(t.item.messageid) == run.host
    {
      var i :| 0 <= i < |run.tasks| && run.tasks[i] == t;
    }
  }

  /** Another host's messages keep their rows. */
  lemma OtherHostKept(db: Db, owner: string -> string, last: map<string, seq<Task>>, run: Run, h: string)
    requires Shared(db.rows, owner, last) && MovesOn(owner, last, run) && h != run.host
    ensures HostIds(After(db, run.host, run.tasks).rows, h) == HostIds(db.rows, h)
    ensures forall m, a :: owner(m) == h ==>
              Matching(After(db, run.host, run.tasks).rows, m, a) == Matching(db.rows, m, a)
  {
    var rows := After(db, run.host, run.tasks).rows;
    HostFits(db.rows, owner, last, run);
    ForeignUntouched(db, run.host, run.tasks);
    forall r
      ensures r in rows && r.hostname == h <==> r in db.rows && r.hostname == h
    {
      ForeignMember(rows, run.host, r);
      ForeignMember(db.rows, run.host, r);
    }
    forall m, a | owner(m) == h
      ensures Matching(rows, m, a) == Matching(db.rows, m, a)
    {
      MatchingAfter(db, run.host, run.tasks, m, a);
      OwnersOfIds(db.rows, owner, run.host);
    }
  }

  lemma OwnersOfIds(rows: seq<Row>, owner: string -> string, host: string)
    requires forall i :: 0 <= i < |rows| ==> rows[i].hostname == owner(rows[i].messageid)
    ensures forall m :: m in HostIds(rows, host) ==> owner(m) == host
  {
    forall r | r in rows
      ensures r.hostname == owner(r.messageid)
    {
      var i :| 0 <= i < |rows| && rows[i] == r;
    }
  }

  lemma OwnCurrent(db: Db, host: string, tasks: seq<Task>)
    requires Fits(db.rows, host, tasks)
    ensures Current(After(db, host, tasks).rows, host, tasks)
  {
    var rows := After(db, host, tasks).rows;
    OwnIdsAfterAtMost(db, host, tasks);
    OwnIdsAfterAtLeast(db, host, tasks);
    QueuedInSnapshot(db, host, tasks);
    forall i, a | 0 <= i < |tasks| && tasks[i].item.messageid in HostIds(rows, host) && a in tasks[i].item.recipients {
      CoveredAfter(db, host, tasks, i, a);
    }
    forall i | 0 <= i < |tasks| && tasks[i].item.messageid !in HostIds(rows, host)
      ensures tasks[i].item.recipients == []
    {
      assert tasks[i] in tasks;
    }
  }

  lemma OwnersKept(db: Db, owner: string -> string, last: map<string, seq<Task>>, run: Run)
    requires Shared(db.rows, owner, last) && MovesOn(owner, last, run)
    ensures var rows := After(db, run.host, run.tasks).rows;
            forall i :: 0 <= i < |rows| ==> rows[i].hostname == owner(rows[i].messageid)
  {
    var host, tasks := run.host, run.tasks;
    HostFits(db.rows, owner, last, run);
    var kept, pre := Kept(db, host, tasks), KnownIds(db, host, tasks);
    RunClosedForm(db, host, tasks);
    var rows := After(db, host, tasks).rows;
    forall i | 0 <= i < |rows|
      ensures rows[i].hostname == owner(rows[i].messageid)
    {
      if i < |kept| {
        RetouchedIdentity(kept[i], tasks, pre);
        assert kept[i] in kept;
        var j :| 0 <= j < |db.rows| && db.rows[j] == kept[i];
      } else {
        assert rows[i] in Inserted(db.next, tasks, pre);
        var k, _ := InsertedRow(db.next, tasks, pre, rows[i]);
      }
    }
  }

  lemma SharedKept(db: Db, owner: string -> string, last: map<string, seq<Task>>, run: Run)
    requires Shared(db.rows, owner, last) && MovesOn(owner, last, run)
    ensures Shared(After(db, run.host, run.tasks).rows, owner, last[run.host := run.tasks])
  {
    var rows, last' := After(db, run.host, run.tasks).rows, last[run.host := run.tasks];
    HostFits(db.rows, owner, last, run);
    NotSharedNoClash(db.rows, run.host, run.tasks);
    UniqueExactly(db, run.host, run.tasks);
    OwnersKept(db, owner, last, run);
    OwnCurrent(db, run.host, run.tasks);
    forall h: string
      ensures if h in last' then Current(rows, h, last'[h]) else HostIds(rows, h) == {}
    {
      if h != run.host {
        assert if h in last then Current(db.rows, h, last[h]) else HostIds(db.rows, h) == {};
        OtherHostKept(db, owner, last, run, h);
        if h in last { StillCurrent(db.rows, rows, owner, h, last[h]); }
      }
    }
  }

  lemma StillCurrent(rows: seq<Row>, rows': seq<Row>, owner: string -> string, h: string, tasks: seq<Task>)
    requires Current(rows, h, tasks) && HostIds(rows', h) == HostIds(rows, h)
    requires forall i :: 0 <= i < |rows| ==> rows[i].hostname == owner(rows[i].messageid)
    requires forall m, a :: owner(m) == h ==> Matching(rows', m, a) == Matching(rows, m, a)
    ensures Current(rows', h, tasks)
  {
    OwnersOfIds(rows, owner, h);
  }

  /** Over any interleaving of several hosts' runs on one table, each host's queue moving on as queues do: no
      lookup and no address ever faults, message id and recipient stay unique, and every host's rows stay as
      its own last run has left them. */
  lemma {:induction false} HostsNeverFault(db: Db, owner: string -> string, last: map<string, seq<Task>>,
                                           runs: seq<Run>)
    requires Shared(db.rows, owner, last) && Histories(owner, last, runs)
    ensures RunsOf(db, runs).1.Done?
    ensures Shared(RunsOf(db, runs).0.rows, owner, LastOf(last, runs))
    decreases |runs|
  {
    if runs != [] {
      var run := runs[0];
      HostFits(db.rows, owner, last, run);
      Reconciled(db, run.host, run.tasks);
      SharedKept(db, owner, last, run);
      HostsNeverFault(After(db, run.host, run.tasks), owner, last[run.host := run.tasks], runs[1..]);
    }
  }

  /** An empty table is a start for any hosts. */
  lemma EmptyIsShared(owner: string -> string)
    ensures Shared([], owner, map[])
  {
    assert forall h :: HostIds([], h) == {};
  }
}
