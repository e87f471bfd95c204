/** Reconciling the mail queue table with what is on disk in the two spool directories. */
module MailQueue {
  import opened Wrappers

  datatype Fault = IndexError | NoResultFound | MultipleResultsFound

  datatype Outcome = Done | Raised(fault: Fault)

  /** A queued message as parsed from the spool; `rest` stands for the columns that are only copied. */
  datatype Item = Item(messageid: string, hostname: string, sender: string, recipients: seq<string>,
                       attempts: int, lastattempt: string, rest: string)

  datatype Row = Row(id: int, messageid: string, hostname: string, sender: string, recipient: string,
                     fromDomain: Option<string>, toDomain: string,
                     attempts: int, lastattempt: string, direction: int, flag: int, rest: string)

  /** The table, with the next value of its id sequence. */
  datatype Db = Db(rows: seq<Row>, next: int)

  // ----- one row -----

  /** `s.split('@')[1]`, which fails without an `@`. */
  function AfterAt(s: string): Option<string> {
    if s == "" then None else if s[0] == '@' then Some(UpToAt(s[1..])) else AfterAt(s[1..])
  }

  function UpToAt(s: string): string {
    if s == "" || s[0] == '@' then "" else [s[0]] + UpToAt(s[1..])
  }

  function Touch(r: Row, item: Item, direction: int): Row {
    r.(attempts := item.attempts, lastattempt := item.lastattempt, direction := direction)
  }

  function Fresh(id: int, item: Item, addr: string, direction: int): Row
    requires AfterAt(addr).Some?
  {
    Row(id, item.messageid, item.hostname, item.sender, addr, AfterAt(item.sender), AfterAt(addr).value,
        item.attempts, item.lastattempt, direction, 0, item.rest)
  }

  /** A row of the item's message, for one of the addresses or for any. */
  predicate Hits(item: Item, addrs: seq<string>, all: bool, r: Row) {
    r.messageid == item.messageid && (all || r.recipient in addrs)
  }

  // ----- one item -----

  function TouchRows(rows: seq<Row>, item: Item, addrs: seq<string>, all: bool, direction: int): seq<Row> {
    seq(|rows|, i requires 0 <= i < |rows| =>
      if Hits(item, addrs, all, rows[i]) then Touch(rows[i], item, direction) else rows[i])
  }

  /** A known item updates all rows of its message when it has a single recipient, and otherwise the
      rows of its recipients. */
  function Updated(rows: seq<Row>, item: Item, direction: int): seq<Row> {
    TouchRows(rows, item, item.recipients, |item.recipients| == 1, direction)
  }

  function Matching(rows: seq<Row>, messageid: string, addr: string): nat {
    if rows == [] then 0
    else (if rows[0].messageid == messageid && rows[0].recipient == addr then 1 else 0)
         + Matching(rows[1..], messageid, addr)
  }

  /** The lookups of a known item with several recipients each have to find exactly one row. */
  function LookupFault(rows: seq<Row>, messageid: string, addrs: seq<string>): Option<Fault> {
    if addrs == [] then None
    else if Matching(rows, messageid, addrs[0]) == 0 then Some(NoResultFound)
    else if Matching(rows, messageid, addrs[0]) > 1 then Some(MultipleResultsFound)
    else LookupFault(rows, messageid, addrs[1..])
  }

  predicate Addressable(addrs: seq<string>) { forall a :: a in addrs ==> AfterAt(a).Some? }

  function FreshRows(next: int, item: Item, addrs: seq<string>, direction: int): seq<Row>
    requires Addressable(addrs)
  {
    seq(|addrs|, i requires 0 <= i < |addrs| => assert addrs[i] in addrs; Fresh(next + i, item, addrs[i], direction))
  }

  /** What committing one item does to the table, or the fault that keeps it from being committed. */
  function ItemEffect(db: Db, item: Item, direction: int, ids: set<string>): (Db, Outcome) {
    if item.messageid in ids then
      var fault := if |item.recipients| == 1 then None else LookupFault(db.rows, item.messageid, item.recipients);
      if fault.Some? then (db, Raised(fault.value))
      else (db.(rows := Updated(db.rows, item, direction)), Done)
    else if Addressable(item.recipients) then
      (Db(db.rows + FreshRows(db.next, item, item.recipients, direction), db.next + |item.recipients|), Done)
    else (db, Raised(IndexError))
  }

  /** An item with the queue it is in: 1 for incoming, 2 for outgoing. */
  datatype Task = Task(item: Item, direction: int)

  function Tasks(queue: seq<Item>, direction: int): seq<Task> {
    seq(|queue|, i requires 0 <= i < |queue| => Task(queue[i], direction))
  }

  /** Items are committed one by one; the first fault ends the run and keeps what is committed. */
  function QueueEffect(db: Db, tasks: seq<Task>, ids: set<string>): (Db, Outcome)
    decreases |tasks|
  {
    if tasks == [] then (db, Done)
    else
      var (db1, o) := ItemEffect(db, tasks[0].item, tasks[0].direction, ids);
      if o.Raised? then (db1, o) else QueueEffect(db1, tasks[1..], ids)
  }

  // ----- a whole run -----

  function Ids(tasks: seq<Task>): set<string> { set t | t in tasks :: t.item.messageid }

  function HostIds(rows: seq<Row>, host: string): set<string> {
    set r | r in rows && r.hostname == host :: r.messageid
  }

  function Without(rows: seq<Row>, ids: set<string>): (out: seq<Row>)
    ensures forall r :: r in out <==> r in rows && r.messageid !in ids
  {
    if rows == [] then []
    else (if rows[0].messageid in ids then [] else [rows[0]]) + Without(rows[1..], ids)
  }

  /** What a column can equal in an SQL list: never its NULLs. */
  function Named(list: seq<Option<string>>): set<string> { set t | t in list && t.Some? :: t.value }

  function AllTasks(inq: seq<Item>, outq: seq<Item>): seq<Task> { Tasks(inq, 1) + Tasks(outq, 2) }

  /** Messages no longer queued lose their rows, whatever host these are from; then each queued item
      is entered. `ids` fixes beforehand which messages count as known. */
  function RunEffect(db: Db, host: string, tasks: seq<Task>): (Db, Outcome) {
    var dbids := HostIds(db.rows, host);
    QueueEffect(db.(rows := Without(db.rows, dbids - Ids(tasks))), tasks, dbids * Ids(tasks))
  }

  // ----- the program -----

  class QueueStats {
    var db: Db

    constructor (db: Db)
      ensures this.db == db
    {
      this.db := db;
    }

    /** Flagged messages are removed from the spool, but each removal reports `None`; SQL's
        `IN (NULL, ...)` then matches no row, so the table is left as it is. */
    method DeleteFlagged(direction: int) returns (asked: seq<string>)
      modifies this
      ensures db == old(db)
      ensures forall m :: m in asked <==>
                exists r :: r in db.rows && r.flag == 1 && r.direction == direction && r.messageid == m
    {
      asked := [];
      var torm: seq<Option<string>> := [];
      for i := 0 to |db.rows|
        invariant db == old(db)
        invariant forall t :: t in torm ==> t.None?
        invariant forall m :: m in asked <==>
                    exists r :: r in db.rows[..i] && r.flag == 1 && r.direction == direction && r.messageid == m
      {
        var r := db.rows[i];
        assert db.rows[..i + 1] == db.rows[..i] + [r];
        if r.flag == 1 && r.direction == direction {
          asked := asked + [r.messageid];
          torm := torm + [None];
        }
      }
      assert db.rows[..|db.rows|] == db.rows;
      if torm != [] {
        assert Named(torm) == {};
        WithoutNothing(db.rows);
        db := db.(rows := Without(db.rows, Named(torm)));
      }
    }

    /** On a fault the session's uncommitted work is lost. */
    method RunItem(item: Item, direction: int, ids: set<string>) returns (o: Outcome)
      modifies this
      ensures (db, o) == ItemEffect(old(db), item, direction, ids)
    {
      var work: Db;
      if |item.recipients| == 1 && item.messageid in ids {
        work := UpdateAll(item, direction);
        o := Done;
      } else if item.messageid in ids {
        o, work := UpdateEach(item, direction);
      } else {
        o, work := InsertEach(item, direction);
      }
      if o.Done? {
        db := work;
      }
    }

    method UpdateAll(item: Item, direction: int) returns (work: Db)
      ensures work == db.(rows := TouchRows(db.rows, item, item.recipients, true, direction))
    {
      work := db;
      for i := 0 to |db.rows|
        invariant work.next == db.next && |work.rows| == |db.rows|
        invariant forall k :: 0 <= k < |db.rows| ==>
                    work.rows[k] == if k < i && Hits(item, [], true, db.rows[k])
                                    then Touch(db.rows[k], item, direction) else db.rows[k]
      {
        if work.rows[i].messageid == item.messageid {
          work := work.(rows := work.rows[i := Touch(work.rows[i], item, direction)]);
        }
      }
      assert work.rows == TouchRows(db.rows, item, item.recipients, true, direction);
    }

    /** One lookup for each recipient, updating the row it finds. */
    method UpdateEach(item: Item, direction: int) returns (o: Outcome, work: Db)
      ensures var fault := LookupFault(db.rows, item.messageid, item.recipients);
              if fault.Some? then o == Raised(fault.value)
              else o.Done? && work == db.(rows := TouchRows(db.rows, item, item.recipients, false, direction))
    {
      work := db;
      var addrs := item.recipients;
      assert addrs[0..] == addrs;
      assert work.rows == TouchRows(db.rows, item, addrs[..0], false, direction);
      for j := 0 to |addrs|
        invariant work == db.(rows := TouchRows(db.rows, item, addrs[..j], false, direction))
        invariant LookupFault(db.rows, item.messageid, addrs) == LookupFault(db.rows, item.messageid, addrs[j..])
      {
        MatchingAfterTouch(db.rows, item, addrs[..j], false, direction, item.messageid, addrs[j]);
        assert addrs[j..][0] == addrs[j] && addrs[j..][1..] == addrs[j + 1..];
        var found := Matching(work.rows, item.messageid, addrs[j]);
        if found == 0 { return Raised(NoResultFound), work; }
        if found > 1 { return Raised(MultipleResultsFound), work; }
        work := work.(rows := TouchRows(work.rows, item, [addrs[j]], false, direction));
        assert addrs[..j + 1] == addrs[..j] + [addrs[j]];
        assert work.rows == TouchRows(db.rows, item, addrs[..j + 1], false, direction);
      }
      assert addrs[..|addrs|] == addrs;
      return Done, work;
    }

    method InsertEach(item: Item, direction: int) returns (o: Outcome, work: Db)
      ensures if Addressable(item.recipients) then
                && o.Done?
                && work == Db(db.rows + FreshRows(db.next, item, item.recipients, direction),
                              db.next + |item.recipients|)
              else o == Raised(IndexError)
    {
      work := db;
      var addrs := item.recipients;
      for j := 0 to |addrs|
        invariant forall i :: 0 <= i < j ==> AfterAt(addrs[i]).Some?
        invariant work.next == db.next + j && |work.rows| == |db.rows| + j && db.rows <= work.rows
        invariant forall i :: 0 <= i < j ==> work.rows[|db.rows| + i] == Fresh(db.next + i, item, addrs[i], direction)
      {
        if AfterAt(addrs[j]).None? {
          assert addrs[j] in addrs;
          return Raised(IndexError), work;
        }
        work := Db(work.rows + [Fresh(work.next, item, addrs[j], direction)], work.next + 1);
      }
      assert work.rows == db.rows + FreshRows(db.next, item, addrs, direction);
      return Done, work;
    }

    method RunQuery(queue: seq<Item>, direction: int, ids: set<string>) returns (o: Outcome)
      modifies this
      ensures (db, o) == QueueEffect(old(db), Tasks(queue, direction), ids)
    {
      o := Done;
      ghost var tasks := Tasks(queue, direction);
      assert tasks[0..] == tasks;
      for i := 0 to |queue|
        invariant o.Done? && QueueEffect(old(db), tasks, ids) == QueueEffect(db, tasks[i..], ids)
      {
        assert tasks[i..][1..] == tasks[i + 1..];
        o := RunItem(queue[i], direction, ids);
        if o.Raised? { return; }
      }
    }

    /** `inq` and `outq` are what the two spools hold once flagged messages are gone. */
    method UpdateQueueStats(host: string, inq: seq<Item>, outq: seq<Item>) returns (o: Outcome)
      modifies this
      ensures (db, o) == RunEffect(old(db), host, AllTasks(inq, outq))
    {
      var _ := DeleteFlagged(1);
      var _ := DeleteFlagged(2);
      var allids := Ids(Tasks(inq, 1)) + Ids(Tasks(outq, 2));
      assert allids == Ids(AllTasks(inq, outq));
      var dbids := HostIds(db.rows, host);
      var remids := dbids - allids;
      var preids := dbids - remids;
      assert preids == dbids * allids;
      if remids != {} {
        db := db.(rows := Without(db.rows, remids));
      } else {
        WithoutNothing(db.rows);
      }
      EffectAppend(db, Tasks(inq, 1), Tasks(outq, 2), preids);
      o := Done;
      if inq != [] {
        o := RunQuery(inq, 1, preids);
        if o.Raised? { return; }
      }
      if outq != [] {
        o := RunQuery(outq, 2, preids);
      }
    }
  }

  lemma {:induction false} EffectAppend(db: Db, a: seq<Task>, b: seq<Task>, ids: set<string>)
    ensures QueueEffect(db, a + b, ids) ==
              var (db1, o) := QueueEffect(db, a, ids);
              if o.Raised? then (db1, o) else QueueEffect(db1, b, ids)
    decreases |a|
  {
    if a == [] {
      assert a + b == b;
    } else {
      assert (a + b)[1..] == a[1..] + b;
      EffectAppend(ItemEffect(db, a[0].item, a[0].direction, ids).0, a[1..], b, ids);
    }
  }

  lemma {:induction false} WithoutNothing(rows: seq<Row>)
    ensures Without(rows, {}) == rows
  {
    if rows != [] {
      WithoutNothing(rows[1..]);
    }
  }

  lemma {:induction false} MatchingAfterTouch(rows: seq<Row>, item: Item, addrs: seq<string>, all: bool, direction: int,
                                              messageid: string, addr: string)
    ensures Matching(TouchRows(rows, item, addrs, all, direction), messageid, addr) == Matching(rows, messageid, addr)
  {
    if rows != [] {
      MatchingAfterTouch(rows[1..], item, addrs, all, direction, messageid, addr);
      assert TouchRows(rows, item, addrs, all, direction)[1..] == TouchRows(rows[1..], item, addrs, all, direction);
    }
  }

  // ----- what a run without faults leaves behind -----

  predicate Known(t: Task, ids: set<string>) { t.item.messageid in ids }

  predicate Applies(t: Task, r: Row, ids: set<string>) {
    Known(t, ids) && Hits(t.item, t.item.recipients, |t.item.recipients| == 1, r)
  }

  function Retouched(r: Row, tasks: seq<Task>, ids: set<string>): Row
    decreases |tasks|
  {
    if tasks == [] then r
    else
      var r' := if Applies(tasks[0], r, ids) then Touch(r, tasks[0].item, tasks[0].direction) else r;
      Retouched(r', tasks[1..], ids)
  }

  function RetouchedRows(rows: seq<Row>, tasks: seq<Task>, ids: set<string>): seq<Row> {
    seq(|rows|, i requires 0 <= i < |rows| => Retouched(rows[i], tasks, ids))
  }

  predicate NewAddressable(tasks: seq<Task>, ids: set<string>) {
    forall i :: 0 <= i < |tasks| && !Known(tasks[i], ids) ==> Addressable(tasks[i].item.recipients)
  }

  function Inserted(next: int, tasks: seq<Task>, ids: set<string>): seq<Row>
    requires NewAddressable(tasks, ids)
    decreases |tasks|
  {
    if tasks == [] then []
    else if Known(tasks[0], ids) then Inserted(next, tasks[1..], ids)
    else
      FreshRows(next, tasks[0].item, tasks[0].item.recipients, tasks[0].direction)
      + Inserted(next + |tasks[0].item.recipients|, tasks[1..], ids)
  }

  predicate LookupsSucceed(rows: seq<Row>, tasks: seq<Task>, ids: set<string>) {
    forall i :: 0 <= i < |tasks| && Known(tasks[i], ids) && |tasks[i].item.recipients| != 1 ==>
      forall a :: a in tasks[i].item.recipients ==> Matching(rows, tasks[i].item.messageid, a) == 1
  }

  lemma {:induction false} NoLookupFault(rows: seq<Row>, messageid: string, addrs: seq<string>)
    ensures LookupFault(rows, messageid, addrs).None? <==> forall a :: a in addrs ==> Matching(rows, messageid, a) == 1
  {
    if addrs != [] {
      assert addrs[0] in addrs;
      assert forall a :: a in addrs <==> a == addrs[0] || a in addrs[1..];
      NoLookupFault(rows, messageid, addrs[1..]);
    }
  }

  lemma {:induction false} MatchingAppend(a: seq<Row>, b: seq<Row>, messageid: string, addr: string)
    ensures Matching(a + b, messageid, addr) == Matching(a, messageid, addr) + Matching(b, messageid, addr)
  {
    if a == [] {
      assert a + b == b;
    } else {
      assert (a + b)[1..] == a[1..] + b;
      MatchingAppend(a[1..], b, messageid, addr);
    }
  }

  lemma {:induction false} MatchingNone(rows: seq<Row>, messageid: string, addr: string)
    requires forall i :: 0 <= i < |rows| ==> rows[i].messageid != messageid || rows[i].recipient != addr
    ensures Matching(rows, messageid, addr) == 0
  {
    if rows != [] {
      MatchingNone(rows[1..], messageid, addr);
    }
  }

  lemma {:induction false} RetouchedUnknown(r: Row, tasks: seq<Task>, ids: set<string>)
    requires r.messageid !in ids
    ensures Retouched(r, tasks, ids) == r
    decreases |tasks|
  {
    if tasks != [] {
      RetouchedUnknown(r, tasks[1..], ids);
    }
  }

  /** The effect in closed form: known rows retouched in place, new rows behind them. */
  lemma {:induction false} ClosedForm(db: Db, tasks: seq<Task>, ids: set<string>)
    requires NewAddressable(tasks, ids) && LookupsSucceed(db.rows, tasks, ids)
    ensures var (after, o) := QueueEffect(db, tasks, ids);
            && o.Done?
            && after.rows == RetouchedRows(db.rows, tasks, ids) + Inserted(db.next, tasks, ids)
            && after.next == db.next + |Inserted(db.next, tasks, ids)|
    decreases |tasks|
  {
    if tasks == [] {
      assert RetouchedRows(db.rows, tasks, ids) == db.rows;
    } else {
      var item, rest := tasks[0].item, tasks[1..];
      if Known(tasks[0], ids) {
        KnownStep(db, tasks, ids);
        var db1 := db.(rows := Updated(db.rows, item, tasks[0].direction));
        ClosedForm(db1, rest, ids);
        assert RetouchedRows(db1.rows, rest, ids) == RetouchedRows(db.rows, tasks, ids);
      } else {
        var newRows := FreshRows(db.next, item, item.recipients, tasks[0].direction);
        var db1 := Db(db.rows + newRows, db.next + |item.recipients|);
        UnknownStep(db, tasks, ids);
        ClosedForm(db1, rest, ids);
        forall i | 0 <= i < |newRows| { RetouchedUnknown(newRows[i], rest, ids); }
        assert RetouchedRows(db1.rows, rest, ids) == RetouchedRows(db.rows, tasks, ids) + newRows;
      }
    }
  }

  lemma KnownStep(db: Db, tasks: seq<Task>, ids: set<string>)
    requires tasks != [] && Known(tasks[0], ids) && LookupsSucceed(db.rows, tasks, ids)
    ensures ItemEffect(db, tasks[0].item, tasks[0].direction, ids)
              == (db.(rows := Updated(db.rows, tasks[0].item, tasks[0].direction)), Done)
    ensures LookupsSucceed(Updated(db.rows, tasks[0].item, tasks[0].direction), tasks[1..], ids)
  {
    var item := tasks[0].item;
    if |item.recipients| != 1 {
      NoLookupFault(db.rows, item.messageid, item.recipients);
    }
    forall m, a {
      MatchingAfterTouch(db.rows, item, item.recipients, |item.recipients| == 1, tasks[0].direction, m, a);
    }
  }

  lemma UnknownStep(db: Db, tasks: seq<Task>, ids: set<string>)
    requires tasks != [] && !Known(tasks[0], ids) && LookupsSucceed(db.rows, tasks, ids)
    requires Addressable(tasks[0].item.recipients)
    ensures LookupsSucceed(
              db.rows + FreshRows(db.next, tasks[0].item, tasks[0].item.recipients, tasks[0].direction),
              tasks[1..], ids)
  {
    ItemKeepsMatching(db, tasks[0], ids);
  }

  lemma SameLookups(rows: seq<Row>, rows': seq<Row>, tasks: seq<Task>, ids: set<string>)
    requires forall m, a :: m in ids ==> Matching(rows', m, a) == Matching(rows, m, a)
    ensures LookupsSucceed(rows, tasks, ids) <==> LookupsSucceed(rows', tasks, ids)
  {
  }

  lemma {:induction false} DoneNeeds(db: Db, tasks: seq<Task>, ids: set<string>)
    requires QueueEffect(db, tasks, ids).1.Done?
    ensures NewAddressable(tasks, ids) && LookupsSucceed(db.rows, tasks, ids)
    decreases |tasks|
  {
    if tasks != [] {
      var t, rest := tasks[0], tasks[1..];
      var db1 := ItemEffect(db, t.item, t.direction, ids).0;
      DoneNeeds(db1, rest, ids);
      ItemKeepsMatching(db, t, ids);
      SameLookups(db.rows, db1.rows, rest, ids);
      NoLookupFault(db.rows, t.item.messageid, t.item.recipients);
      assert forall i :: 0 < i < |tasks| ==> tasks[i] == rest[i - 1];
    }
  }

  /** Entering an item moves no row from one recipient of a known message to another. */
  lemma ItemKeepsMatching(db: Db, t: Task, ids: set<string>)
    ensures forall m, a :: m in ids ==>
              Matching(ItemEffect(db, t.item, t.direction, ids).0.rows, m, a) == Matching(db.rows, m, a)
  {
    var item := t.item;
    forall m, a | m in ids
      ensures Matching(ItemEffect(db, item, t.direction, ids).0.rows, m, a) == Matching(db.rows, m, a)
    {
      MatchingAfterTouch(db.rows, item, item.recipients, |item.recipients| == 1, t.direction, m, a);
      if !Known(t, ids) && Addressable(item.recipients) {
        var newRows := FreshRows(db.next, item, item.recipients, t.direction);
        MatchingAppend(db.rows, newRows, m, a);
        MatchingNone(newRows, m, a);
      }
    }
  }

  /** Whatever is queued, entering it runs through without a fault exactly when every new message is for
      addresses with a domain, and every recipient of a known message that has not just one recipient has
      exactly one row beforehand. */
  lemma DoneExactly(db: Db, tasks: seq<Task>, ids: set<string>)
    ensures QueueEffect(db, tasks, ids).1.Done? <==> NewAddressable(tasks, ids) && LookupsSucceed(db.rows, tasks, ids)
  {
    if QueueEffect(db, tasks, ids).1.Done? {
      DoneNeeds(db, tasks, ids);
    } else if NewAddressable(tasks, ids) && LookupsSucceed(db.rows, tasks, ids) {
      ClosedForm(db, tasks, ids);
    }
  }

  // ----- rows that are there before -----

  /** The same row, but for the fields an update sets. */
  predicate SameRow(r: Row, r': Row) {
    r' == r.(attempts := r'.attempts, lastattempt := r'.lastattempt, direction := r'.direction)
  }

  /** How many items are committed before the first fault, and that nothing else is. */
  lemma {:induction false} Committed(db: Db, tasks: seq<Task>, ids: set<string>) returns (n: nat)
    ensures n <= |tasks| && QueueEffect(db, tasks[..n], ids) == (QueueEffect(db, tasks, ids).0, Done)
    ensures n == |tasks| <==> QueueEffect(db, tasks, ids).1.Done?
    ensures n < |tasks| ==> QueueEffect(db, tasks[..n + 1], ids).1.Raised?
    decreases |tasks|
  {
    n := 0;
    if tasks != [] {
      var (db1, o) := ItemEffect(db, tasks[0].item, tasks[0].direction, ids);
      if o.Done? {
        n := Committed(db1, tasks[1..], ids);
        PrefixStep(db, tasks, ids, n + 1);
        if n < |tasks| - 1 { PrefixStep(db, tasks, ids, n + 2); }
        n := n + 1;
      } else {
        ItemFaultKeeps(db, tasks[0], ids);
      }
    }
  }

  lemma PrefixStep(db: Db, tasks: seq<Task>, ids: set<string>, n: nat)
    requires 0 < n <= |tasks| && ItemEffect(db, tasks[0].item, tasks[0].direction, ids).1.Done?
    ensures QueueEffect(db, tasks[..n], ids) ==
              QueueEffect(ItemEffect(db, tasks[0].item, tasks[0].direction, ids).0, tasks[1..][..n - 1], ids)
  {
    assert tasks[..n][0] == tasks[0] && tasks[..n][1..] == tasks[1..][..n - 1];
  }

  lemma ItemFaultKeeps(db: Db, t: Task, ids: set<string>)
    requires ItemEffect(db, t.item, t.direction, ids).1.Raised?
    ensures ItemEffect(db, t.item, t.direction, ids).0 == db
  {
  }

  /** The items can all be entered, as the table stands at first. */
  predicate Enterable(rows: seq<Row>, tasks: seq<Task>, ids: set<string>) {
    NewAddressable(tasks, ids) && LookupsSucceed(rows, tasks, ids)
  }

  /** The items before the first fault: all that can be entered together, and no more. */
  predicate UpToFault(rows: seq<Row>, tasks: seq<Task>, ids: set<string>, n: nat) {
    && n <= |tasks| && Enterable(rows, tasks[..n], ids)
    && (n < |tasks| ==> !Enterable(rows, tasks[..n + 1], ids))
  }

  /** Whatever is committed: earlier rows updated in place, and new rows behind them. */
  lemma CommittedForm(db: Db, tasks: seq<Task>, ids: set<string>) returns (n: nat)
    ensures UpToFault(db.rows, tasks, ids, n) && (n == |tasks| <==> QueueEffect(db, tasks, ids).1.Done?)
    ensures QueueEffect(db, tasks, ids).0.rows ==
              RetouchedRows(db.rows, tasks[..n], ids) + Inserted(db.next, tasks[..n], ids)
  {
    n := Committed(db, tasks, ids);
    DoneExactly(db, tasks[..n], ids);
    if n < |tasks| { DoneExactly(db, tasks[..n + 1], ids); }
    ClosedForm(db, tasks[..n], ids);
  }

  /** There is just one such number of items. */
  lemma UpToFaultUnique(rows: seq<Row>, tasks: seq<Task>, ids: set<string>, m: nat, n: nat)
    requires UpToFault(rows, tasks, ids, m) && UpToFault(rows, tasks, ids, n)
    ensures m == n
  {
    if m < n { EnterablePrefix(rows, tasks, ids, m + 1, n); }
    if n < m { EnterablePrefix(rows, tasks, ids, n + 1, m); }
  }

  lemma EnterablePrefix(rows: seq<Row>, tasks: seq<Task>, ids: set<string>, m: nat, n: nat)
    requires m <= n <= |tasks| && Enterable(rows, tasks[..n], ids)
    ensures Enterable(rows, tasks[..m], ids)
  {
    assert forall i :: 0 <= i < m ==> tasks[..m][i] == tasks[..n][i];
  }

  /** The last of the items that apply to a row. */
  function LastApplying(r: Row, tasks: seq<Task>, ids: set<string>): Option<Task> {
    if tasks == [] then None
    else if Applies(tasks[|tasks| - 1], r, ids) then Some(tasks[|tasks| - 1])
    else LastApplying(r, tasks[..|tasks| - 1], ids)
  }

  function TouchedBy(r: Row, t: Option<Task>): Row {
    match t
    case None => r
    case Some(task) => Touch(r, task.item, task.direction)
  }

  lemma {:induction false} RetouchedAppend(r: Row, a: seq<Task>, t: Task, ids: set<string>)
    ensures var r' := Retouched(r, a, ids);
            Retouched(r, a + [t], ids) == if Applies(t, r, ids) then Touch(r', t.item, t.direction) else r'
    decreases |a|
  {
    if a == [] {
      assert a + [t] == [t] && [t][1..] == [];
    } else {
      assert (a + [t])[1..] == a[1..] + [t];
      RetouchedAppend(if Applies(a[0], r, ids) then Touch(r, a[0].item, a[0].direction) else r, a[1..], t, ids);
    }
  }

  /** The last item that applies has the last word on a row; there may be none. */
  lemma {:induction false} RetouchedByLast(r: Row, tasks: seq<Task>, ids: set<string>)
    ensures Retouched(r, tasks, ids) == TouchedBy(r, LastApplying(r, tasks, ids))
    decreases |tasks|
  {
    if tasks != [] {
      var a, t := tasks[..|tasks| - 1], tasks[|tasks| - 1];
      assert tasks == a + [t];
      RetouchedAppend(r, a, t, ids);
      RetouchedByLast(r, a, ids);
    }
  }
}
