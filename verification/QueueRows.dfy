/** Reconciliation row by row and column by column: what a run leaves in the table of what was there, and what
    it enters. */
module QueueRows {
  import opened Wrappers
  import opened MailQueue
  import opened MailQueueRuns

  // ----- domains -----

  /** The text after the first `@`, up to the next if there is one. */
  ghost predicate AtPart(s: string, part: string) {
    exists p, q :: IsSplit(s, p, part, q)
  }

  predicate IsSplit(s: string, p: string, part: string, q: string) {
    s == p + "@" + part + q && '@' !in p && '@' !in part && (q == "" || q[0] == '@')
  }

  lemma {:induction false} UpToAtSplits(s: string) returns (q: string)
    ensures s == UpToAt(s) + q && '@' !in UpToAt(s) && (q == "" || q[0] == '@')
  {
    if s == "" || s[0] == '@' {
      q := s;
    } else {
      q := UpToAtSplits(s[1..]);
      assert s == [s[0]] + s[1..];
    }
  }

  lemma {:induction false} AfterAtSplits(s: string) returns (p: string, q: string)
    ensures '@' !in s ==> AfterAt(s) == None
    ensures '@' in s ==> AfterAt(s).Some? && IsSplit(s, p, AfterAt(s).value, q)
  {
    p, q := "", "";
    if s != "" {
      if s[0] == '@' {
        q := UpToAtSplits(s[1..]);
        assert s == "" + "@" + AfterAt(s).value + q;
      } else {
        p, q := AfterAtSplits(s[1..]);
        if '@' in s[1..] {
          var part := AfterAt(s[1..]).value;
          assert s == [s[0]] + s[1..] == ([s[0]] + p) + "@" + part + q;
        }
        p := [s[0]] + p;
      }
    }
  }

  lemma AfterAtMeans(s: string)
    ensures AfterAt(s) == None <==> '@' !in s
    ensures AfterAt(s).Some? ==> AtPart(s, AfterAt(s).value)
  {
    var p, q := AfterAtSplits(s);
  }

  // ----- rows entered -----

  predicate Queued(item: Item, direction: int, inq: seq<Item>, outq: seq<Item>) {
    (direction == 1 && item in inq) || (direction == 2 && item in outq)
  }

  /** The row of a new message for one of its recipients. */
  ghost predicate Enters(r: Row, item: Item, a: string, direction: int) {
    && r.messageid == item.messageid && r.hostname == item.hostname
    && r.sender == item.sender && r.recipient == a
    && r.attempts == item.attempts && r.lastattempt == item.lastattempt && r.rest == item.rest
    && r.direction == direction && r.flag == 0
    && AtPart(a, r.toDomain)
    && match r.fromDomain
       case None => '@' !in item.sender
       case Some(domain) => AtPart(item.sender, domain)
  }

  lemma TaskIsQueued(inq: seq<Item>, outq: seq<Item>, i: nat)
    requires i < |AllTasks(inq, outq)|
    ensures Queued(AllTasks(inq, outq)[i].item, AllTasks(inq, outq)[i].direction, inq, outq)
  {
    var t := AllTasks(inq, outq)[i];
    if i < |inq| {
      assert t == Task(inq[i], 1);
    } else {
      assert t == Task(outq[i - |inq|], 2);
    }
  }

  lemma QueuedIsTask(inq: seq<Item>, outq: seq<Item>, item: Item, direction: int) returns (i: nat)
    requires Queued(item, direction, inq, outq)
    ensures i < |AllTasks(inq, outq)| && AllTasks(inq, outq)[i] == Task(item, direction)
  {
    if direction == 1 {
      var k :| 0 <= k < |inq| && inq[k] == item;
      i := k;
    } else {
      var k :| 0 <= k < |outq| && outq[k] == item;
      i := |inq| + k;
    }
  }

  ghost predicate WasThere(r: Row, rows: seq<Row>) {
    exists r0 :: r0 in rows
      && r == r0.(attempts := r.attempts, lastattempt := r.lastattempt, direction := r.direction)
  }

  ghost predicate IsEntered(r: Row, inq: seq<Item>, outq: seq<Item>) {
    exists item, a, direction ::
      Queued(item, direction, inq, outq) && a in item.recipients && Enters(r, item, a, direction)
  }

  /** Of any table and queues, also when the run faults: a row of the table afterwards was there before, but
      for attempts, last attempt and direction, or is entered for a recipient of a queued message, with all
      its columns as the item has them. */
  lemma EveryRow(db: Db, host: string, inq: seq<Item>, outq: seq<Item>)
    ensures forall r :: r in RunEffect(db, host, AllTasks(inq, outq)).0.rows ==>
              WasThere(r, db.rows) || IsEntered(r, inq, outq)
  {
    var tasks := AllTasks(inq, outq);
    var kept, pre := Kept(db, host, tasks), KnownIds(db, host, tasks);
    var n := CommittedForm(db.(rows := kept), tasks, pre);
    var rows := RunEffect(db, host, tasks).0.rows;
    forall i | 0 <= i < |rows|
      ensures WasThere(rows[i], db.rows) || IsEntered(rows[i], inq, outq)
    {
      if i < |kept| {
        RetouchedIdentity(kept[i], tasks[..n], pre);
        assert kept[i] in kept;
      } else {
        EnteredRow(db.next, inq, outq, n, pre, rows[i]);
      }
    }
  }

  lemma EnteredRow(next: int, inq: seq<Item>, outq: seq<Item>, n: nat, ids: set<string>, r: Row)
    requires n <= |AllTasks(inq, outq)| && NewAddressable(AllTasks(inq, outq)[..n], ids)
    requires r in Inserted(next, AllTasks(inq, outq)[..n], ids)
    ensures IsEntered(r, inq, outq)
  {
    var tasks := AllTasks(inq, outq);
    var k, id := InsertedRow(next, tasks[..n], ids, r);
    TaskIsQueued(inq, outq, k);
    AfterAtMeans(r.recipient);
    AfterAtMeans(tasks[k].item.sender);
    assert tasks[..n][k] == tasks[k];
    assert Enters(r, tasks[k].item, r.recipient, tasks[k].direction);
  }

  // ----- rows that were there -----

  /** The message has a row of the host. */
  predicate HasOwnRow(rows: seq<Row>, host: string, messageid: string) {
    exists x :: x in rows && x.hostname == host && x.messageid == messageid
  }

  /** A queued item that updates the row: it is of a message of this host, and has a single recipient, or
      the row's among others. */
  predicate Updates(item: Item, r: Row, rows: seq<Row>, host: string) {
    && item.messageid == r.messageid && HasOwnRow(rows, host, r.messageid)
    && (|item.recipients| == 1 || r.recipient in item.recipients)
  }

  predicate IsQueued(messageid: string, inq: seq<Item>, outq: seq<Item>) {
    || (exists item :: item in inq && item.messageid == messageid)
    || (exists item :: item in outq && item.messageid == messageid)
  }

  lemma QueuedIds(inq: seq<Item>, outq: seq<Item>, m: string)
    ensures m in Ids(AllTasks(inq, outq)) <==> IsQueued(m, inq, outq)
  {
    var tasks := AllTasks(inq, outq);
    if t :| t in tasks && t.item.messageid == m {
      var i :| 0 <= i < |tasks| && tasks[i] == t;
      TaskIsQueued(inq, outq, i);
    }
    if item :| item in inq && item.messageid == m {
      var i := QueuedIsTask(inq, outq, item, 1);
      assert tasks[i] in tasks;
    }
    if item :| item in outq && item.messageid == m {
      var i := QueuedIsTask(inq, outq, item, 2);
      assert tasks[i] in tasks;
    }
  }

  lemma UpdatesApplies(inq: seq<Item>, outq: seq<Item>, i: nat, r: Row, rows: seq<Row>, host: string)
    requires i < |AllTasks(inq, outq)|
    ensures var tasks := AllTasks(inq, outq);
            Applies(tasks[i], r, HostIds(rows, host) * Ids(tasks)) <==> Updates(tasks[i].item, r, rows, host)
  {
    assert AllTasks(inq, outq)[i] in AllTasks(inq, outq);
  }

  /** Of a table that is ready for the queues: a row whose message is one of this host's, and no longer queued,
      is gone with all others of that message. Any other stays: it takes attempts, last attempt and direction
      from the item that updates it, and stays as it is if there is none. */
  lemma OldRow(db: Db, host: string, inq: seq<Item>, outq: seq<Item>, r0: Row)
    requires Ready(db.rows, host, AllTasks(inq, outq)) && r0 in db.rows
    ensures var after := RunEffect(db, host, AllTasks(inq, outq)).0.rows;
            && (HasOwnRow(db.rows, host, r0.messageid) && !IsQueued(r0.messageid, inq, outq) ==>
                  forall r :: r in after ==> r.messageid != r0.messageid)
            && (!HasOwnRow(db.rows, host, r0.messageid) || IsQueued(r0.messageid, inq, outq) ==>
                  && (forall item, direction ::
                        Queued(item, direction, inq, outq) && Updates(item, r0, db.rows, host) ==>
                          r0.(attempts := item.attempts, lastattempt := item.lastattempt, direction := direction)
                            in after)
                  && ((forall item, direction ::
                         Queued(item, direction, inq, outq) ==> !Updates(item, r0, db.rows, host)) ==> r0 in after))
  {
    var tasks := AllTasks(inq, outq);
    var kept, pre := Kept(db, host, tasks), KnownIds(db, host, tasks);
    QueuedIds(inq, outq, r0.messageid);
    if r0.messageid in HostIds(db.rows, host) - Ids(tasks) {
      NeverReturns(db.(rows := kept), tasks, pre, r0.messageid);
    } else {
      var i :| 0 <= i < |kept| && kept[i] == r0;
      KeptStays(db, host, tasks, i);
      FollowsRetouched(r0, tasks, pre);
      assert After(db, host, tasks).rows[i] in After(db, host, tasks).rows;
      forall item, direction | Queued(item, direction, inq, outq) && Updates(item, r0, db.rows, host)
        ensures Touch(r0, item, direction) == After(db, host, tasks).rows[i]
      {
        var k := QueuedIsTask(inq, outq, item, direction);
        UpdatesApplies(inq, outq, k, r0, db.rows, host);
      }
      if forall item, direction :: Queued(item, direction, inq, outq) ==> !Updates(item, r0, db.rows, host) {
        forall k | 0 <= k < |tasks|
          ensures !Applies(tasks[k], r0, pre)
        {
          TaskIsQueued(inq, outq, k);
          UpdatesApplies(inq, outq, k, r0, db.rows, host);
        }
      }
    }
  }

  // ----- faults -----

  predicate IsRow(r: Row, messageid: string, a: string) { r.messageid == messageid && r.recipient == a }

  lemma {:induction false} CountsRows(rows: seq<Row>, m: string, a: string)
    ensures Matching(rows, m, a) > 0 <==> exists i :: 0 <= i < |rows| && IsRow(rows[i], m, a)
    ensures Matching(rows, m, a) > 1 <==>
              exists i, j :: 0 <= i < j < |rows| && IsRow(rows[i], m, a) && IsRow(rows[j], m, a)
  {
    if rows != [] {
      var rest := rows[1..];
      CountsRows(rest, m, a);
      assert forall i :: 0 <= i < |rest| ==> rest[i] == rows[i + 1];
      if i, j :| 0 <= i < j < |rows| && IsRow(rows[i], m, a) && IsRow(rows[j], m, a) {
        assert IsRow(rest[j - 1], m, a);
        assert i > 0 ==> IsRow(rest[i - 1], m, a);
      }
      if i :| 0 <= i < |rows| && IsRow(rows[i], m, a) { assert i > 0 ==> IsRow(rest[i - 1], m, a); }
      if i :| 0 <= i < |rest| && IsRow(rest[i], m, a) { assert IsRow(rows[i + 1], m, a); }
      if i, j :| 0 <= i < j < |rest| && IsRow(rest[i], m, a) && IsRow(rest[j], m, a) {
        assert IsRow(rows[i + 1], m, a) && IsRow(rows[j + 1], m, a);
      }
    }
  }

  /** The recipient has a row of the message, and only one. */
  ghost predicate HasOneRow(rows: seq<Row>, m: string, a: string) {
    && (exists i :: 0 <= i < |rows| && IsRow(rows[i], m, a))
    && forall i, j :: 0 <= i < j < |rows| ==> !(IsRow(rows[i], m, a) && IsRow(rows[j], m, a))
  }

  lemma OneRow(rows: seq<Row>, m: string, a: string)
    ensures Matching(rows, m, a) == 1 <==> HasOneRow(rows, m, a)
  {
    CountsRows(rows, m, a);
  }

  /** An item that does not stop the run: of a message that has rows of this host, each recipient has one row, or
      there is one recipient only; of any other message, each recipient has an `@`. */
  ghost predicate GoesThrough(item: Item, rows: seq<Row>, host: string) {
    if HasOwnRow(rows, host, item.messageid)
    then |item.recipients| == 1 || forall a :: a in item.recipients ==> HasOneRow(rows, item.messageid, a)
    else forall a :: a in item.recipients ==> '@' in a
  }

  lemma TaskGoesThrough(db: Db, host: string, inq: seq<Item>, outq: seq<Item>, i: nat)
    requires i < |AllTasks(inq, outq)|
    ensures var tasks := AllTasks(inq, outq);
            var ids, item := KnownIds(db, host, tasks), tasks[i].item;
            GoesThrough(item, db.rows, host) <==>
              if Known(tasks[i], ids)
              then |item.recipients| == 1
                   || forall a :: a in item.recipients ==> Matching(db.rows, item.messageid, a) == 1
              else Addressable(item.recipients)
  {
    var tasks := AllTasks(inq, outq);
    var item := tasks[i].item;
    assert tasks[i] in tasks;
    forall a { OneRow(db.rows, item.messageid, a); }
    forall a { AfterAtMeans(a); }
  }

  /** A run finishes if and only if no item of the queues, taken with the table at the start, stops it. */
  lemma RunFinishes(db: Db, host: string, inq: seq<Item>, outq: seq<Item>)
    ensures RunEffect(db, host, AllTasks(inq, outq)).1.Done? <==>
              forall item, direction :: Queued(item, direction, inq, outq) ==> GoesThrough(item, db.rows, host)
  {
    var tasks := AllTasks(inq, outq);
    RunDoneExactly(db, host, tasks);
    forall i | 0 <= i < |tasks|
      ensures Queued(tasks[i].item, tasks[i].direction, inq, outq)
    {
      TaskIsQueued(inq, outq, i);
      TaskGoesThrough(db, host, inq, outq, i);
    }
    forall i | 0 <= i < |tasks| { TaskGoesThrough(db, host, inq, outq, i); }
    forall item, direction | Queued(item, direction, inq, outq)
      ensures exists i :: 0 <= i < |tasks| && tasks[i].item == item
    {
      var i := QueuedIsTask(inq, outq, item, direction);
    }
  }

  /** Which fault a known item raises: that of its first recipient without exactly one row. */
  lemma {:induction false} LookupRaises(rows: seq<Row>, messageid: string, addrs: seq<string>, j: nat)
    requires j < |addrs| && !HasOneRow(rows, messageid, addrs[j])
    requires forall k :: 0 <= k < j ==> HasOneRow(rows, messageid, addrs[k])
    ensures LookupFault(rows, messageid, addrs) ==
              Some(if exists i :: 0 <= i < |rows| && IsRow(rows[i], messageid, addrs[j])
                   then MultipleResultsFound else NoResultFound)
  {
    CountsRows(rows, messageid, addrs[0]);
    OneRow(rows, messageid, addrs[0]);
    if j > 0 {
      assert forall k :: 0 <= k < j - 1 ==> addrs[1..][k] == addrs[k + 1];
      LookupRaises(rows, messageid, addrs[1..], j - 1);
    }
  }
}
