/** Moving old messages to the archive, and trimming what is older still. */
module DbClean {
  import opened Wrappers
  import L = CacheLock

  datatype Mail = Mail(timestamp: int, body: string)

  /** Messages and archive by id; the other pruned tables by id, with their rows' timestamps. */
  datatype Tables = Tables(messages: map<int, Mail>, archive: map<int, Mail>,
                           releases: map<int, int>, status: map<int, int>, awl: map<int, int>)

  /** `Locked` is a run that finds the lock taken. */
  datatype Exit = Finished | Exit2 | Locked

  const DAY := 86400

  // ----- the statements -----

  function Older(m: map<int, Mail>, date: int): map<int, Mail> { map id | id in m && m[id].timestamp < date :: m[id] }

  function Newer(m: map<int, Mail>, date: int): map<int, Mail> { map id | id in m && m[id].timestamp >= date :: m[id] }

  function Pruned(m: map<int, int>, date: int): map<int, int> { map id | id in m && m[id] >= date :: m[id] }

  /** An id to be moved is in the archive already. */
  predicate Conflict(t: Tables, date: int) { exists id :: id in Older(t.messages, date) && id in t.archive }

  function Moved(t: Tables, date: int): Tables {
    t.(archive := t.archive + Older(t.messages, date), messages := Newer(t.messages, date),
       releases := Pruned(t.releases, date))
  }

  function Trimmed(t: Tables, msgsDate: int, archiveDate: int, releasesDate: int): Tables {
    t.(archive := Newer(t.archive, archiveDate), status := Pruned(t.status, archiveDate),
       releases := Pruned(t.releases, releasesDate), awl := Pruned(t.awl, msgsDate))
  }

  /** What a run commits. */
  function Cleaned(t: Tables, msgsDate: int, archiveDate: int, releasesDate: int): Tables {
    if Conflict(t, msgsDate) then t else Trimmed(Moved(t, msgsDate), msgsDate, archiveDate, releasesDate)
  }

  /** So many days before now; a positive command option overrides the configured number. */
  function Cutoff(now: int, option: int, configured: int): int {
    now - (if option > 0 then option else configured) * DAY
  }

  /** What a run does, row by row: messages of the cutoff or later stay, older ones are archived, and each table
      keeps the rows that are no older than its cutoff. */
  ghost predicate RowsKept(t: Tables, t': Tables, msgsDate: int, archiveDate: int, releasesDate: int) {
    && (forall id, m :: id in t'.messages && t'.messages[id] == m <==>
          id in t.messages && t.messages[id] == m && m.timestamp >= msgsDate)
    && (forall id, m :: id in t'.archive && t'.archive[id] == m <==>
          && m.timestamp >= archiveDate
          && ((id in t.archive && t.archive[id] == m)
              || (id in t.messages && t.messages[id] == m && m.timestamp < msgsDate)))
    && SinceKept(t.releases, t'.releases, if msgsDate > releasesDate then msgsDate else releasesDate)
    && SinceKept(t.status, t'.status, archiveDate) && SinceKept(t.awl, t'.awl, msgsDate)
  }

  /** The rows stamped since the date are kept, as they are. */
  ghost predicate SinceKept(m: map<int, int>, m': map<int, int>, date: int) {
    (forall id :: id in m' <==> id in m && m[id] >= date) && forall id :: id in m' ==> m'[id] == m[id]
  }

  /** Nothing to be moved is archived already. */
  predicate NoneTwice(t: Tables, msgsDate: int) {
    forall id :: id in t.messages && t.messages[id].timestamp < msgsDate ==> id !in t.archive
  }

  lemma MovedMeans(t: Tables, date: int)
    requires NoneTwice(t, date)
    ensures var t' := Moved(t, date);
            && (forall id, m :: id in t'.messages && t'.messages[id] == m <==>
                  id in t.messages && t.messages[id] == m && m.timestamp >= date)
            && (forall id, m :: id in t'.archive && t'.archive[id] == m <==>
                  (id in t.archive && t.archive[id] == m)
                  || (id in t.messages && t.messages[id] == m && m.timestamp < date))
            && SinceKept(t.releases, t'.releases, date)
            && t'.status == t.status && t'.awl == t.awl
  {
    assert forall id :: id in Older(t.messages, date) ==> id in t.messages && t.messages[id].timestamp < date;
  }

  /** So of every run, unless it takes the error exit; then it leaves all as it was. */
  lemma CleanedMeans(t: Tables, msgsDate: int, archiveDate: int, releasesDate: int)
    ensures var t' := Cleaned(t, msgsDate, archiveDate, releasesDate);
            if NoneTwice(t, msgsDate)
            then !Conflict(t, msgsDate) && RowsKept(t, t', msgsDate, archiveDate, releasesDate)
            else Conflict(t, msgsDate) && t' == t
  {
    if NoneTwice(t, msgsDate) {
      MovedMeans(t, msgsDate);
    } else {
      var id :| id in t.messages && t.messages[id].timestamp < msgsDate && id in t.archive;
      assert id in Older(t.messages, msgsDate);
    }
  }

  class Session {
    var committed: Tables
    var work: Tables

    constructor (t: Tables)
      ensures committed == t && work == t
    {
      committed := t;
      work := t;
    }

    method Commit()
      modifies this`committed
      ensures committed == work
    {
      committed := work;
    }

    method Rollback()
      modifies this`work
      ensures work == committed
    {
      work := committed;
    }

    /** `INSERT INTO archive SELECT * FROM messages`: all of the old rows, or an integrity error. */
    method InsertOld(date: int) returns (ok: bool)
      modifies this`work
      ensures ok <==> !Conflict(old(work), date)
      ensures work == if ok then old(work).(archive := old(work).archive + Older(old(work).messages, date))
                      else old(work)
    {
      ok := !exists id :: id in Older(work.messages, date) && id in work.archive;
      if ok {
        work := work.(archive := work.archive + Older(work.messages, date));
      }
    }

    method ProcessMessages(date: int) returns (exit: Exit)
      requires work == committed
      modifies this
      ensures exit == if Conflict(old(work), date) then Exit2 else Finished
      ensures exit == Finished ==> work == committed == Moved(old(work), date)
      ensures exit == Exit2 ==> committed == old(committed)
    {
      var ok := InsertOld(date);
      if !ok {
        Rollback();
        work := work.(archive := work.archive - Older(work.messages, date).Keys);
        ok := InsertOld(date);
        return Exit2;
      }
      work := work.(messages := Newer(work.messages, date));
      work := work.(releases := Pruned(work.releases, date));
      Commit();
      return Finished;
    }

    method PruneArchive(date: int)
      modifies this
      ensures work == committed == old(work).(archive := Newer(old(work).archive, date))
    {
      work := work.(archive := Newer(work.archive, date));
      Commit();
    }

    /** The remaining tables, each committed on its own. */
    method PruneTables(msgsDate: int, archiveDate: int, releasesDate: int)
      modifies this
      ensures work == committed
      ensures work == old(work).(status := Pruned(old(work).status, archiveDate),
                                 releases := Pruned(old(work).releases, releasesDate),
                                 awl := Pruned(old(work).awl, msgsDate))
    {
      work := work.(status := Pruned(work.status, archiveDate));
      Commit();
      work := work.(releases := Pruned(work.releases, releasesDate));
      Commit();
      work := work.(awl := Pruned(work.awl, msgsDate));
      Commit();
    }

    method Clean(msgsDate: int, archiveDate: int, releasesDate: int) returns (exit: Exit)
      requires work == committed
      modifies this
      ensures exit == if Conflict(old(committed), msgsDate) then Exit2 else Finished
      ensures work == committed == Cleaned(old(committed), msgsDate, archiveDate, releasesDate)
    {
      exit := ProcessMessages(msgsDate);
      if exit == Finished {
        PruneArchive(archiveDate);
        PruneTables(msgsDate, archiveDate, releasesDate);
      }
      Rollback();  // closing the session
    }

    /** The whole job, under its lock, which it gives up on either exit. */
    method Command(cache: L.Memcached, daysOption: int, adaysOption: int, keepDays: int, archiveDays: int)
      returns (exit: Exit)
      requires work == committed
      modifies this, cache
      ensures work == committed && cache.now == old(cache.now)
      ensures old(cache.Live()) ==> exit == Locked && committed == old(committed) && cache.expiry == old(cache.expiry)
      ensures !old(cache.Live()) ==>
                var now := old(cache.now);
                var msgsDate := Cutoff(now, daysOption, keepDays);
                && exit == (if Conflict(old(committed), msgsDate) then Exit2 else Finished)
                && committed ==
                     Cleaned(old(committed), msgsDate, Cutoff(now, adaysOption, archiveDays), Cutoff(now, 2, 2))
                && cache.expiry == None
      ensures !old(cache.Live()) ==>
                var msgsDate := old(cache.now) - (if daysOption > 0 then daysOption else keepDays) * 86400;
                var archiveDate := old(cache.now) - (if adaysOption > 0 then adaysOption else archiveDays) * 86400;
                if NoneTwice(old(committed), msgsDate)
                then exit == Finished
                     && RowsKept(old(committed), committed, msgsDate, archiveDate, old(cache.now) - 2 * 86400)
                else exit == Exit2 && committed == old(committed)
    {
      var acquired := cache.AcquireLock();
      if !acquired {
        return Locked;
      }
      var now := cache.now;
      var msgsDate := Cutoff(now, daysOption, keepDays);
      var archiveDate := Cutoff(now, adaysOption, archiveDays);
      CleanedMeans(committed, msgsDate, archiveDate, Cutoff(now, 2, 2));
      exit := Clean(msgsDate, archiveDate, Cutoff(now, 2, 2));
      cache.ReleaseLock();
    }
  }

  // ----- conservation -----

  predicate Apart(t: Tables) { t.messages.Keys !! t.archive.Keys }

  /** A mail is held in one of the two tables. */
  predicate Holds(t: Tables, id: int, m: Mail) {
    (id in t.messages && t.messages[id] == m) || (id in t.archive && t.archive[id] == m)
  }

  /** Moving loses nothing and adds nothing, as long as no id is in both tables. */
  lemma MovedConserves(t: Tables, date: int)
    requires Apart(t)
    ensures !Conflict(t, date) && Apart(Moved(t, date))
    ensures forall id, m :: Holds(Moved(t, date), id, m) <==> Holds(t, id, m)
    ensures forall id :: id in Moved(t, date).messages ==> Moved(t, date).messages[id].timestamp >= date
  {
    assert forall id :: id in Older(t.messages, date) ==> id in t.messages;
  }

  /** After a whole run a message has survived exactly if it is no older than the earlier cutoff, an
      archived one if it is no older than the archive's; what survives is unchanged and in one table. */
  lemma Survival(t: Tables, msgsDate: int, archiveDate: int, releasesDate: int)
    requires Apart(t)
    ensures var t' := Cleaned(t, msgsDate, archiveDate, releasesDate);
            && Apart(t')
            && (forall id, m :: id in t.messages && t.messages[id] == m ==>
                  (Holds(t', id, m) <==> m.timestamp >= msgsDate || m.timestamp >= archiveDate))
            && (forall id, m :: id in t.archive && t.archive[id] == m ==>
                  (Holds(t', id, m) <==> m.timestamp >= archiveDate))
            && (forall id, m :: Holds(t', id, m) ==> Holds(t, id, m))
  {
    MovedConserves(t, msgsDate);
  }

  // ----- any number of runs -----

  /** Mail comes in under a new id; a cleaning run has its three cutoffs. */
  datatype Event = Arrive(id: int, mail: Mail) | Clean(msgsDate: int, archiveDate: int, releasesDate: int)

  /** The tables, and all mail that ever arrived. */
  datatype History = History(tables: Tables, arrived: map<int, Mail>)

  const EMPTY := History(Tables(map[], map[], map[], map[], map[]), map[])

  function Next(h: History, e: Event): History {
    match e
    case Arrive(id, mail) =>
      if id in h.arrived then h
      else History(h.tables.(messages := h.tables.messages[id := mail]), h.arrived[id := mail])
    case Clean(m, a, r) => h.(tables := Cleaned(h.tables, m, a, r))
  }

  function Run(h: History, events: seq<Event>): History
    decreases |events|
  {
    if events == [] then h else Run(Next(h, events[0]), events[1..])
  }

  ghost predicate Faithful(h: History) {
    && Apart(h.tables)
    && (forall id, m :: Holds(h.tables, id, m) ==> id in h.arrived && h.arrived[id] == m)
  }

  lemma NextFaithful(h: History, e: Event)
    requires Faithful(h)
    ensures Faithful(Next(h, e))
    ensures e.Clean? ==> !Conflict(h.tables, e.msgsDate)
  {
    match e
    case Arrive(id, mail) =>
      if id !in h.arrived {
        assert forall i :: i in h.tables.messages ==> Holds(h.tables, i, h.tables.messages[i]);
        assert forall i :: i in h.tables.archive ==> Holds(h.tables, i, h.tables.archive[i]);
      }
    case Clean(m, a, r) =>
      Survival(h.tables, m, a, r);
      MovedConserves(h.tables, m);
  }

  /** Over any history: no id is ever in both tables, so no run takes the error exit; every row is mail
      that arrived, unchanged. */
  lemma {:induction false} HistoryFaithful(h: History, events: seq<Event>)
    requires Faithful(h)
    ensures Faithful(Run(h, events))
    ensures forall date :: !Conflict(Run(h, events).tables, date)
    decreases |events|
  {
    if events == [] {
      forall date { MovedConserves(h.tables, date); }
    } else {
      NextFaithful(h, events[0]);
      HistoryFaithful(Next(h, events[0]), events[1..]);
    }
  }

  /** So from empty tables on: whatever mail arrives and whenever the job runs, it never takes that exit. */
  lemma NeverConflicts(events: seq<Event>)
    ensures Faithful(Run(EMPTY, events)) && forall date :: !Conflict(Run(EMPTY, events).tables, date)
  {
    HistoryFaithful(EMPTY, events);
  }

  /** Mail no run's archive cutoff reaches is never lost, through whichever table it goes. */
  lemma {:induction false} NothingLost(h: History, events: seq<Event>, id: int, m: Mail)
    requires Faithful(h) && Holds(h.tables, id, m)
    requires forall i :: 0 <= i < |events| && events[i].Clean? ==> m.timestamp >= events[i].archiveDate
    ensures Holds(Run(h, events).tables, id, m)
    decreases |events|
  {
    if events != [] {
      var e := events[0];
      NextFaithful(h, e);
      if e.Clean? {
        Survival(h.tables, e.msgsDate, e.archiveDate, e.releasesDate);
      }
      NothingLost(Next(h, e), events[1..], id, m);
    }
  }

  /** Should an id ever get into both tables, archiving stops for good: the run that meets it commits
      nothing, and so do all later ones, the repair being rolled back with the rest. */
  lemma {:induction false} ConflictIsForever(h: History, events: seq<Event>, id: int)
    requires id in h.tables.messages && id in h.tables.archive && id in h.arrived
    requires forall i :: 0 <= i < |events| && events[i].Clean? ==> h.tables.messages[id].timestamp < events[i].msgsDate
    ensures Run(h, events).tables.archive == h.tables.archive
    ensures forall x :: x in h.tables.messages ==> x in Run(h, events).tables.messages
    decreases |events|
  {
    if events != [] {
      var e := events[0];
      if e.Clean? {
        assert id in Older(h.tables.messages, e.msgsDate);
        assert Conflict(h.tables, e.msgsDate);
      }
      ConflictIsForever(Next(h, e), events[1..], id);
    }
  }
}
