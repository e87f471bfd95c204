/** The report command itself: one worker going through its users, in database transactions. */
module ReportJob {
  import opened Wrappers
  import opened Reports
  import L = CacheLock

  /** An account due a report or not; `delivers` is whether the mailer will take its mail. */
  datatype User = User(visible: set<int>, ordinary: bool, due: bool, delivers: bool)

  /** The seconds a user takes: before the clock is read, from there to the query, and for the rest. */
  datatype Pace = Pace(beforeClock: nat, beforeQuery: nat, rest: nat) {
    function Total(): nat { beforeClock + beforeQuery + rest }
  }

  predicate Visited(u: User, force: bool) { u.due || force }

  // ----- when records are stamped -----

  /** The time the first `i` users take; those skipped take none. */
  function Elapsed(users: seq<User>, paces: seq<Pace>, force: bool, i: nat): nat
    requires i <= |users| == |paces|
  {
    if i == 0 then 0
    else Elapsed(users, paces, force, i - 1) + if Visited(users[i - 1], force) then paces[i - 1].Total() else 0
  }

  /** When the transaction began that user `i` is served in: with the command, or with the first statement
      after the last commit. `reports[k]` is what the report to user `k` held, if one was committed. */
  function TxStart(users: seq<User>, paces: seq<Pace>, force: bool, reports: seq<set<int>>, entry: int, i: nat): int
    requires i <= |users| == |paces| && i <= |reports|
  {
    if i == 0 then entry
    else if reports[i - 1] != {} then entry + Elapsed(users, paces, force, i)
    else TxStart(users, paces, force, reports, entry, i - 1)
  }

  /** The release records of the first `i` users. */
  function Stamped(users: seq<User>, paces: seq<Pace>, force: bool, reports: seq<set<int>>, entry: int,
                   i: nat): set<Release>
    requires i <= |users| == |paces| && i <= |reports|
  {
    if i == 0 then {}
    else
      Stamped(users, paces, force, reports, entry, i - 1)
      + Records(reports[i - 1], TxStart(users, paces, force, reports, entry, i - 1))
  }

  /** A visited user's report holds the newest candidates of the moment, if the user is ordinary and gets the
      mail; else no report is committed. */
  predicate ReportTo(c: Config, s: State, at: int, window: int, user: User, report: set<int>) {
    if user.ordinary && user.delivers then IsTop(c, s, at, window, user.visible, report) else report == {}
  }

  predicate ReportIs(c: Config, s: State, at: int, window: int, user: User, force: bool, report: set<int>) {
    if Visited(user, force) then ReportTo(c, s, at, window, user, report) else report == {}
  }

  lemma SameTop(c: Config, s: State, s': State, at: int, window: int, visible: set<int>, picked: set<int>)
    requires s'.messages == s.messages && s'.releases == s.releases
    ensures IsTop(c, s, at, window, visible, picked) <==> IsTop(c, s', at, window, visible, picked)
  {
    assert Candidates(s, at, window, visible) == Candidates(s', at, window, visible);
  }

  /** The state with the release records of the first `i` users. */
  function AfterReports(s0: State, users: seq<User>, paces: seq<Pace>, force: bool, reports: seq<set<int>>,
                        entry: int, i: nat): State
    requires i <= |users| == |paces| && i <= |reports|
  {
    s0.(releases := s0.releases + Stamped(users, paces, force, reports, entry, i))
  }

  /** Report `k` is what it has to be, after the release records of those before it. */
  predicate ReportAt(c: Config, s0: State, window: int, users: seq<User>, paces: seq<Pace>, force: bool,
                     reports: seq<set<int>>, entry: int, k: nat)
    requires k < |reports| <= |users| == |paces|
  {
    ReportIs(c, AfterReports(s0, users, paces, force, reports, entry, k),
             entry + Elapsed(users, paces, force, k) + paces[k].beforeClock, window, users[k], force, reports[k])
  }

  predicate AllReports(c: Config, s0: State, window: int, users: seq<User>, paces: seq<Pace>, force: bool,
                       reports: seq<set<int>>, entry: int)
    requires |reports| <= |users| == |paces|
  {
    forall k :: 0 <= k < |reports| ==> ReportAt(c, s0, window, users, paces, force, reports, entry, k)
  }

  function Records(ids: set<int>, stamp: int): set<Release> { set id | id in ids :: Release(id, stamp) }

  /** The transaction that user `i` is served in began as the last user before was done who got a report, user
      `j - 1`, or with the command. */
  lemma {:induction false} TxBegan(users: seq<User>, paces: seq<Pace>, force: bool, reports: seq<set<int>>, entry: int,
                                   i: nat, j: nat)
    requires j <= i <= |users| == |paces| && i <= |reports|
    requires (j == 0 || reports[j - 1] != {}) && forall k :: j <= k < i ==> reports[k] == {}
    ensures TxStart(users, paces, force, reports, entry, i) == entry + Elapsed(users, paces, force, j)
  {
    if j < i {
      TxBegan(users, paces, force, reports, entry, i - 1, j);
    }
  }

  /** The new records are one for each message in a report, with the start of its transaction. */
  lemma {:induction false} StampedExactly(users: seq<User>, paces: seq<Pace>, force: bool, reports: seq<set<int>>,
                                          entry: int, i: nat, r: Release)
    requires i <= |users| == |paces| && i <= |reports|
    ensures r in Stamped(users, paces, force, reports, entry, i) <==>
              exists k :: 0 <= k < i && r.message in reports[k]
                          && r.stamp == TxStart(users, paces, force, reports, entry, k)
  {
    if i > 0 {
      StampedExactly(users, paces, force, reports, entry, i - 1, r);
      var start := TxStart(users, paces, force, reports, entry, i - 1);
      assert r in Records(reports[i - 1], start) <==> r.message in reports[i - 1] && r.stamp == start;
    }
  }

  // ----- what the reports hold, message by message -----

  /** When the clock is read for user `k`. */
  function ReadAt(users: seq<User>, paces: seq<Pace>, force: bool, entry: int, k: nat): int
    requires k < |users| == |paces|
  {
    entry + Elapsed(users, paces, force, k) + paces[k].beforeClock
  }

  lemma {:induction false} StampedIds(users: seq<User>, paces: seq<Pace>, force: bool, reports: seq<set<int>>,
                                      entry: int, i: nat, id: int)
    requires i <= |users| == |paces| && i <= |reports|
    ensures (exists r :: r in Stamped(users, paces, force, reports, entry, i) && r.message == id) <==>
              exists j :: 0 <= j < i && id in reports[j]
  {
    if i > 0 {
      StampedIds(users, paces, force, reports, entry, i - 1, id);
      var start := TxStart(users, paces, force, reports, entry, i - 1);
      var earlier := Stamped(users, paces, force, reports, entry, i - 1);
      assert Stamped(users, paces, force, reports, entry, i) == earlier + Records(reports[i - 1], start);
      if id in reports[i - 1] {
        assert Release(id, start) in Records(reports[i - 1], start);
      }
    }
  }

  /** A message is in the report to user `k` only if it may be: the user is to get mail and may see it, it is
      quarantined, in the window, without a release record, and in no report before. */
  lemma OnlySuch(c: Config, s0: State, window: int, users: seq<User>, paces: seq<Pace>, force: bool,
                 reports: seq<set<int>>, entry: int, k: nat, id: int)
    requires k < |reports| == |users| == |paces| && AllReports(c, s0, window, users, paces, force, reports, entry)
    requires id in reports[k]
    ensures var u, at := users[k], ReadAt(users, paces, force, entry, k);
            && (u.due || force) && u.ordinary && u.delivers
            && id in s0.messages && id in u.visible && s0.messages[id].quarantined
            && at - window <= s0.messages[id].timestamp <= at
            && (forall r :: r in s0.releases ==> r.message != id) && (forall j :: 0 <= j < k ==> id !in reports[j])
    ensures |reports[k]| <= c.maxMsgs
  {
    assert ReportAt(c, s0, window, users, paces, force, reports, entry, k);
    StampedIds(users, paces, force, reports, entry, k, id);
    var s := AfterReports(s0, users, paces, force, reports, entry, k);
    assert id in Candidates(s, ReadAt(users, paces, force, entry, k), window, users[k].visible);
    assert forall r :: r in s0.releases ==> r in s.releases;
    assert forall r :: r in Stamped(users, paces, force, reports, entry, k) ==> r in s.releases;
  }

  /** And any such message that it leaves out finds it full of messages that are no older. */
  lemma NoOther(c: Config, s0: State, window: int, users: seq<User>, paces: seq<Pace>, force: bool,
                reports: seq<set<int>>, entry: int, k: nat, id: int)
    requires k < |reports| == |users| == |paces| && AllReports(c, s0, window, users, paces, force, reports, entry)
    requires (users[k].due || force) && users[k].ordinary && users[k].delivers && id !in reports[k]
    requires id in s0.messages && id in users[k].visible && s0.messages[id].quarantined
    requires var at := ReadAt(users, paces, force, entry, k); at - window <= s0.messages[id].timestamp <= at
    requires (forall r :: r in s0.releases ==> r.message != id) && (forall j :: 0 <= j < k ==> id !in reports[j])
    ensures |reports[k]| == c.maxMsgs
    ensures forall x :: x in reports[k] ==>
              x in s0.messages && s0.messages[x].timestamp >= s0.messages[id].timestamp
  {
    assert ReportAt(c, s0, window, users, paces, force, reports, entry, k);
    StampedIds(users, paces, force, reports, entry, k, id);
    var s := AfterReports(s0, users, paces, force, reports, entry, k);
    var all := Candidates(s, ReadAt(users, paces, force, entry, k), window, users[k].visible);
    assert id in all;
    FullOrAll(all, reports[k], id);
  }

  lemma FullOrAll(all: set<int>, some: set<int>, id: int)
    requires some <= all && id in all && id !in some
    ensures |some| < |all|
  {
    assert |all - some| + |some| == |all|;
    assert id in all - some;
  }

  /** The message may be in a report read at `at`: it is there, the user may see it, it is quarantined, in
      the window, without a release record, and in none of the reports before. */
  predicate MayReport(messages: map<int, Message>, releases: set<Release>, before: seq<set<int>>, visible: set<int>,
                      at: int, window: int, id: int) {
    && id in messages && id in visible && messages[id].quarantined
    && at - window <= messages[id].timestamp <= at
    && (forall r :: r in releases ==> r.message != id)
    && forall j :: 0 <= j < |before| ==> id !in before[j]
  }

  /** A report is for whoever gets mail. It holds such messages only, no more than the maximum; and where it
      leaves one out, it is full of others that are no older. */
  ghost predicate Holds(messages: map<int, Message>, releases: set<Release>, before: seq<set<int>>, user: User,
                        force: bool, at: int, window: int, maxMsgs: nat, report: set<int>) {
    && (report != {} ==> (user.due || force) && user.ordinary && user.delivers)
    && |report| <= maxMsgs
    && (forall id :: id in report ==> MayReport(messages, releases, before, user.visible, at, window, id))
    && forall id :: (user.due || force) && user.ordinary && user.delivers && id !in report
                    && MayReport(messages, releases, before, user.visible, at, window, id) ==>
         && |report| == maxMsgs
         && forall x :: x in report ==> messages[x].timestamp >= messages[id].timestamp
  }

  /** Every report does, read when its user's turn comes. */
  ghost predicate AllHold(messages: map<int, Message>, releases: set<Release>, window: int, maxMsgs: nat,
                          users: seq<User>, paces: seq<Pace>, force: bool, reports: seq<set<int>>, entry: int)
    requires |reports| == |users| == |paces|
  {
    forall k :: 0 <= k < |users| ==>
      Holds(messages, releases, reports[..k], users[k], force, ReadAt(users, paces, force, entry, k), window, maxMsgs,
            reports[k])
  }

  /** `OnlySuch` and `NoOther`, of every report and message. */
  lemma ReportsHold(c: Config, s0: State, window: int, users: seq<User>, paces: seq<Pace>, force: bool,
                    reports: seq<set<int>>, entry: int)
    requires |reports| == |users| == |paces| && AllReports(c, s0, window, users, paces, force, reports, entry)
    ensures AllHold(s0.messages, s0.releases, window, c.maxMsgs, users, paces, force, reports, entry)
  {
    forall k | 0 <= k < |users|
      ensures Holds(s0.messages, s0.releases, reports[..k], users[k], force,
                    ReadAt(users, paces, force, entry, k), window, c.maxMsgs, reports[k])
    {
      OneHolds(c, s0, window, users, paces, force, reports, entry, k);
    }
  }

  lemma OneHolds(c: Config, s0: State, window: int, users: seq<User>, paces: seq<Pace>, force: bool,
                 reports: seq<set<int>>, entry: int, k: nat)
    requires k < |reports| == |users| == |paces| && AllReports(c, s0, window, users, paces, force, reports, entry)
    ensures Holds(s0.messages, s0.releases, reports[..k], users[k], force,
                  ReadAt(users, paces, force, entry, k), window, c.maxMsgs, reports[k])
  {
    var u, at := users[k], ReadAt(users, paces, force, entry, k);
    forall id | id in reports[k]
      ensures MayReport(s0.messages, s0.releases, reports[..k], u.visible, at, window, id)
      ensures (u.due || force) && u.ordinary && u.delivers && |reports[k]| <= c.maxMsgs
    {
      OnlySuch(c, s0, window, users, paces, force, reports, entry, k, id);
    }
    assert (forall id :: id !in reports[k]) ==> reports[k] == {};
    forall id | (u.due || force) && u.ordinary && u.delivers && id !in reports[k]
                && MayReport(s0.messages, s0.releases, reports[..k], u.visible, at, window, id)
      ensures |reports[k]| == c.maxMsgs
      ensures forall x :: x in reports[k] ==> s0.messages[x].timestamp >= s0.messages[id].timestamp
    {
      assert forall j :: 0 <= j < k ==> reports[..k][j] == reports[j];
      NoOther(c, s0, window, users, paces, force, reports, entry, k, id);
    }
  }

  /** How long before the clock is read for user `i` its release records are stamped. */
  function Lag(users: seq<User>, paces: seq<Pace>, force: bool, reports: seq<set<int>>, entry: int, i: nat): int
    requires i < |users| == |paces| && i <= |reports|
  {
    entry + Elapsed(users, paces, force, i) + paces[i].beforeClock - TxStart(users, paces, force, reports, entry, i)
  }

  /** The time taken by the users since the last commit. */
  function SinceCommit(users: seq<User>, paces: seq<Pace>, force: bool, reports: seq<set<int>>, i: nat): nat
    requires i <= |users| == |paces| && i <= |reports|
  {
    if i == 0 || reports[i - 1] != {} then 0
    else
      SinceCommit(users, paces, force, reports, i - 1)
      + if Visited(users[i - 1], force) then paces[i - 1].Total() else 0
  }

  lemma {:induction false} TxStartIs(users: seq<User>, paces: seq<Pace>, force: bool, reports: seq<set<int>>,
                                     entry: int, i: nat)
    requires i <= |users| == |paces| && i <= |reports|
    ensures entry + Elapsed(users, paces, force, i) - TxStart(users, paces, force, reports, entry, i)
              == SinceCommit(users, paces, force, reports, i)
    ensures SinceCommit(users, paces, force, reports, i) <= Elapsed(users, paces, force, i)
  {
    if i > 0 {
      TxStartIs(users, paces, force, reports, entry, i - 1);
    }
  }

  /** A stamp lags by exactly the time since the last commit: that of the users in between, and the
      user's own until the clock is read. It lags unless all of that took no time. */
  lemma LagExactly(users: seq<User>, paces: seq<Pace>, force: bool, reports: seq<set<int>>, entry: int, i: nat)
    requires i < |users| == |paces| && i <= |reports|
    ensures Lag(users, paces, force, reports, entry, i) ==
              SinceCommit(users, paces, force, reports, i) + paces[i].beforeClock
    ensures Lag(users, paces, force, reports, entry, i) > 0 <==>
              SinceCommit(users, paces, force, reports, i) > 0 || paces[i].beforeClock > 0
  {
    TxStartIs(users, paces, force, reports, entry, i);
  }

  lemma {:induction false} ElapsedGrows(users: seq<User>, paces: seq<Pace>, force: bool, i: nat, j: nat)
    requires i <= j <= |users| == |paces|
    ensures Elapsed(users, paces, force, i) <= Elapsed(users, paces, force, j)
    decreases j - i
  {
    if i < j {
      ElapsedGrows(users, paces, force, i, j - 1);
    }
  }

  /** A stamp never lags by more than the whole command takes. */
  lemma LagWithin(users: seq<User>, paces: seq<Pace>, force: bool, reports: seq<set<int>>, entry: int, i: nat)
    requires i < |users| == |paces| && i <= |reports| && Visited(users[i], force)
    ensures 0 <= Lag(users, paces, force, reports, entry, i) <= Elapsed(users, paces, force, |users|)
  {
    LagExactly(users, paces, force, reports, entry, i);
    TxStartIs(users, paces, force, reports, entry, i);
    ElapsedGrows(users, paces, force, i + 1, |users|);
  }

  /** The time, the records and reports, and the start of the open transaction. */
  datatype Books = Books(now: int, releases: set<Release>, sent: seq<set<int>>, tx: Option<int>)

  /** After a visit: `report` was committed, in the transaction begun at `start`, if it is not empty. */
  function Entered(b: Books, report: set<int>, start: int, spent: nat): Books {
    Books(b.now + spent, b.releases + Records(report, start), b.sent + if report == {} then [] else [report],
          if report == {} then Some(start) else None)
  }

  lemma NothingEntered(b: Books, start: int)
    requires b.tx == Some(start)
    ensures Entered(b, {}, start, 0) == b
  {
    assert Records({}, start) == {};
  }

  /** What serving the first users has come to. */
  predicate Ledger(b: Books, users: seq<User>, paces: seq<Pace>, force: bool, reports: seq<set<int>>, entry: int,
                   s0: State)
    requires |reports| <= |users| == |paces|
  {
    var i := |reports|;
    && b.now == entry + Elapsed(users, paces, force, i)
    && b.releases == s0.releases + Stamped(users, paces, force, reports, entry, i)
    && b.sent == s0.sent + Committed(reports)
    && b.tx == if i > 0 && reports[i - 1] != {} then None else Some(TxStart(users, paces, force, reports, entry, i))
  }

  lemma LedgerStart(b: Books, users: seq<User>, paces: seq<Pace>, force: bool, reports: seq<set<int>>, entry: int,
                    s0: State,
                    until: int)
    requires |reports| < |users| == |paces| && Ledger(b, users, paces, force, reports, entry, s0)
    requires entry + Elapsed(users, paces, force, |users|) <= until
    ensures var i := |reports|;
            var start := TxStart(users, paces, force, reports, entry, i);
            && entry <= start <= b.now && (b.tx == Some(start) || (b.tx == None && start == b.now))
            && (Visited(users[i], force) ==> b.now + paces[i].Total() <= until)
  {
    TxStartIs(users, paces, force, reports, entry, |reports|);
    ElapsedGrows(users, paces, force, |reports| + 1, |users|);
  }

  lemma LedgerAppend(b: Books, users: seq<User>, paces: seq<Pace>, force: bool, reports: seq<set<int>>,
                     report: set<int>,
                     entry: int, s0: State)
    requires |reports| < |users| == |paces| && Ledger(b, users, paces, force, reports, entry, s0)
    ensures var i := |reports|;
            Ledger(Entered(b, report, TxStart(users, paces, force, reports, entry, i),
                           if Visited(users[i], force) then paces[i].Total() else 0),
                   users, paces, force, reports + [report], entry, s0)
  {
    ReportsAppend(users, paces, force, reports, report, entry);
  }

  class QuarantineReports {
    const c: Config
    const worker: int
    const window: int
    var lock: L.State
    var jobs: map<int, Job>
    var messages: map<int, Message>
    var releases: set<Release>
    var sent: seq<set<int>>
    var tx: Option<int>
    ghost var seen: set<int>
    ghost var cleaned: set<int>

    function Entries(): Books
      reads this
    {
      Books(lock.now, releases, sent, tx)
    }

    ghost function S(): State
      reads this`lock, this`jobs, this`messages, this`releases, this`sent, this`seen, this`cleaned
    {
      State(lock, jobs, messages, seen, releases, cleaned, sent)
    }

    constructor (c: Config, worker: int, window: int, s: State)
      ensures this.c == c && this.worker == worker && this.window == window && S() == s && tx == None
    {
      this.c := c;
      this.worker := worker;
      this.window := window;
      lock := s.lock;
      jobs := s.jobs;
      messages := s.messages;
      releases := s.releases;
      sent := s.sent;
      tx := None;
      seen := s.seen;
      cleaned := s.cleaned;
    }

    /** `messages[:max_msgs]` of the candidates, newest first. */
    method Newest(all: set<int>) returns (picked: set<int>)
      requires all <= messages.Keys
      ensures picked <= all
      ensures |picked| == if |all| <= c.maxMsgs then |all| else c.maxMsgs
      ensures forall a, b :: a in picked && b in all && b !in picked ==> messages[a].timestamp >= messages[b].timestamp
    {
      picked := {};
      var rest := all;
      while rest != {} && |picked| < c.maxMsgs
        invariant rest == all - picked && picked <= all
        invariant |picked| <= c.maxMsgs && |picked| + |rest| == |all|
        invariant forall a, b :: a in picked && b in rest ==> messages[a].timestamp >= messages[b].timestamp
        decreases rest
      {
        var m := Latest(rest);
        picked := picked + {m};
        rest := rest - {m};
      }
    }

    method Latest(ids: set<int>) returns (m: int)
      requires ids != {} && ids <= messages.Keys
      ensures m in ids && forall x :: x in ids ==> messages[x].timestamp <= messages[m].timestamp
    {
      assert (forall x :: x !in ids) ==> ids == {};
      m :| m in ids;
      var todo := ids - {m};
      while todo != {}
        invariant todo <= ids && m in ids - todo
        invariant forall x :: x in ids - todo ==> messages[x].timestamp <= messages[m].timestamp
        decreases todo
      {
        assert (forall x :: x !in todo) ==> todo == {};
        var x :| x in todo;
        todo := todo - {x};
        if messages[x].timestamp > messages[m].timestamp { m := x; }
      }
    }

    // ----- transactions and time -----

    /** A statement opens a transaction, unless one is open. */
    method Statement()
      modifies this`tx
      ensures tx == Some(if old(tx).Some? then old(tx).value else lock.now)
    {
      if tx.None? { tx := Some(lock.now); }
    }

    /** At work since `entry`; nobody at work has to be done before `until`. */
    ghost predicate Working(entry: int, until: int)
      reads this`lock, this`jobs
    {
      && worker in jobs && worker in lock.inside && lock.inside[worker] == entry
      && forall w :: w in lock.inside ==> until <= lock.inside[w] + c.hold
    }

    method Pass(seconds: nat, ghost entry: int, ghost until: int)
      requires Working(entry, until) && lock.now + seconds <= until
      modifies this`lock
      ensures Enabled(c, old(S()), Tick(seconds)) && S() == Next(c, old(S()), Tick(seconds))
      ensures Working(entry, until) && lock.now == old(lock.now) + seconds
    {
      lock := lock.(now := lock.now + seconds);
    }

    // ----- reports -----

    /** Mail to an ordinary user commits its release records, stamped with the transaction's start; a report
        that fails, or goes to an administrator, commits nothing. */
    method SendMsg(user: User, ids: set<int>) returns (committed: bool)
      requires HasJob(S(), worker) && jobs[worker].Picked? && jobs[worker].ids == ids && tx.Some?
      requires jobs[worker].at - c.stampLag <= tx.value <= lock.now
      modifies this`jobs, this`releases, this`sent, this`tx
      ensures committed <==> user.ordinary && user.delivers
      ensures S() == Next(c, old(S()), if committed then Send(worker, old(tx.value)) else Skip(worker))
      ensures tx == if committed then None else old(tx)
    {
      committed := false;
      if user.delivers {
        if user.ordinary {
          var torelease := Records(ids, tx.value);
          releases := releases + torelease;
          sent := sent + [ids];
          tx := None;
          committed := true;
        }
      }
      jobs := jobs[worker := Started];
    }

    /** Reads the clock and runs the query. */
    method Pick(user: User, pace: Pace, ghost entry: int, ghost until: int, ghost seen: State)
      returns (picked: set<int>, ghost steps: seq<Step>, at: int)
      requires Sensible(c) && window <= c.window && Working(entry, until) && jobs[worker].Started?
      requires pace.beforeQuery <= c.queryLag && lock.now + pace.beforeQuery <= until
      requires messages == seen.messages && releases == seen.releases
      modifies this`jobs, this`lock
      ensures Legal(c, old(S()), steps) && S() == Exec(c, old(S()), steps)
      ensures Working(entry, until) && lock.now == old(lock.now) + pace.beforeQuery
      ensures at == old(lock.now)
      ensures jobs[worker] == if picked == {} then Started else Picked(at, picked)
      ensures sent == old(sent) && releases == old(releases)
      ensures IsTop(c, seen, at, window, user.visible, picked)
    {
      ghost var s0 := S();
      at := lock.now;
      jobs := jobs[worker := Clocked(at, window)];
      steps := Extend(c, s0, [], ReadClock(worker, window));
      assert S() == Exec(c, s0, steps);
      Pass(pace.beforeQuery, entry, until);
      steps := Extend(c, s0, steps, Tick(pace.beforeQuery));
      assert S() == Exec(c, s0, steps);
      var all := set id | id in messages && id in user.visible && messages[id].quarantined
                          && at - window <= messages[id].timestamp <= at
                          && forall r :: r in releases ==> r.message != id;
      assert all == Candidates(S(), at, window, user.visible);
      picked := Newest(all);
      assert IsTop(c, S(), at, window, user.visible, picked);
      SameTop(c, S(), seen, at, window, user.visible, picked);
      jobs := jobs[worker := if picked == {} then Started else Picked(at, picked)];
      steps := Extend(c, s0, steps, Query(worker, user.visible, picked));
      assert S() == Exec(c, s0, steps);
    }

    /** Reads the clock, runs the query, and takes its time over the report. */
    method Look(user: User, pace: Pace, ghost entry: int, ghost until: int, ghost seen: State)
      returns (picked: set<int>, ghost steps: seq<Step>, ghost at: int)
      requires Sensible(c) && window <= c.window && Working(entry, until) && jobs[worker].Started?
      requires pace.beforeQuery <= c.queryLag && lock.now + pace.Total() <= until
      requires messages == seen.messages && releases == seen.releases
      modifies this`jobs, this`lock
      ensures Legal(c, old(S()), steps) && S() == Exec(c, old(S()), steps)
      ensures Working(entry, until) && lock.now == old(lock.now) + pace.Total()
      ensures at == old(lock.now) + pace.beforeClock
      ensures jobs[worker] == if picked == {} then Started else Picked(at, picked)
      ensures sent == old(sent) && releases == old(releases)
      ensures IsTop(c, seen, at, window, user.visible, picked)
    {
      ghost var s0 := S();
      Pass(pace.beforeClock, entry, until);
      steps := Extend(c, s0, [], Tick(pace.beforeClock));
      assert S() == Exec(c, s0, steps);
      ghost var more;
      picked, more, at := Pick(user, pace, entry, until, seen);
      Then(c, s0, steps, more);
      steps := steps + more;
      Pass(pace.rest, entry, until);
      steps := Extend(c, s0, steps, Tick(pace.rest));
    }

    /** One user's report; `report` is what it held, if it was committed. */
    method ProcessReport(user: User, pace: Pace, ghost entry: int, ghost until: int, ghost seen: State)
      returns (report: set<int>, ghost steps: seq<Step>, ghost at: int)
      requires Sensible(c) && c.stampLag == c.hold && window <= c.window
      requires Working(entry, until) && jobs[worker].Started?
      requires pace.beforeQuery <= c.queryLag && lock.now + pace.Total() <= until
      requires tx.Some? && entry <= tx.value <= lock.now && messages == seen.messages && releases == seen.releases
      modifies this`jobs, this`lock, this`releases, this`sent, this`tx
      ensures Legal(c, old(S()), steps) && S() == Exec(c, old(S()), steps)
      ensures Working(entry, until) && jobs[worker].Started?
      ensures Entries() == Entered(old(Entries()), report, old(tx.value), pace.Total())
      ensures at == old(lock.now) + pace.beforeClock && ReportTo(c, seen, at, window, user, report)
    {
      ghost var s0 := S();
      var picked;
      picked, steps, at := Look(user, pace, entry, until, seen);
      report := {};
      if picked != {} {
        var committed := SendMsg(user, picked);
        steps := Extend(c, s0, steps, if committed then Send(worker, old(tx.value)) else Skip(worker));
        if committed { report := picked; }
      }
    }

    method Enter(ghost until: int) returns (entered: bool, ghost steps: seq<Step>)
      requires worker !in lock.inside && until <= lock.now + c.hold
      requires forall w :: w in lock.inside ==> until <= lock.inside[w] + c.hold
      modifies this`lock, this`jobs
      ensures Legal(c, old(S()), steps) && S() == Exec(c, old(S()), steps)
      ensures entered <==> !L.LiveAt(old(lock.now), old(lock.expiry))
      ensures entered ==> Working(lock.now, until) && jobs[worker].Started? && lock.now == old(lock.now)
      ensures !entered ==> S() == old(S())
    {
      ghost var s0 := S();
      steps := Extend(c, s0, [], Acquire(worker));
      entered := !L.LiveAt(lock.now, lock.expiry);
      if entered {
        lock := L.Next(lock, L.Acquire(worker), L.LOCK_EXPIRE);
        jobs := jobs[worker := Started];
      }
    }

    method LeaveLock() returns (ghost steps: seq<Step>)
      requires HasJob(S(), worker) && jobs[worker].Started?
      modifies this`lock, this`jobs
      ensures Legal(c, old(S()), steps) && S() == Exec(c, old(S()), steps)
      ensures worker !in lock.inside && lock.now == old(lock.now)
    {
      steps := Extend(c, S(), [], Leave(worker));
      lock := L.Next(lock, L.ReleaseAfter(worker, 300), L.LOCK_EXPIRE);
      jobs := jobs - {worker};
    }

    /** A statement reads the account anew, then its report is due or not. */
    method Attend(user: User, pace: Pace, force: bool, ghost entry: int, ghost until: int, ghost start: int,
                  ghost seen: State)
      returns (report: set<int>, ghost steps: seq<Step>, ghost at: int)
      requires Sensible(c) && c.stampLag == c.hold && window <= c.window
      requires Working(entry, until) && jobs[worker].Started?
      requires pace.beforeQuery <= c.queryLag && (Visited(user, force) ==> lock.now + pace.Total() <= until)
      requires entry <= start <= lock.now && (tx == Some(start) || (tx == None && start == lock.now))
      requires messages == seen.messages && releases == seen.releases
      modifies this`jobs, this`lock, this`releases, this`sent, this`tx
      ensures Legal(c, old(S()), steps) && S() == Exec(c, old(S()), steps)
      ensures Working(entry, until) && jobs[worker].Started?
      ensures Entries() == Entered(old(Entries()), report, start, if Visited(user, force) then pace.Total() else 0)
      ensures at == old(lock.now) + pace.beforeClock && ReportIs(c, seen, at, window, user, force, report)
    {
      Statement();
      at := lock.now + pace.beforeClock;
      steps := [];
      report := {};
      if Visited(user, force) {
        report, steps, at := ProcessReport(user, pace, entry, until, seen);
      } else {
        NothingEntered(Entries(), start);
      }
    }

    method Serve(users: seq<User>, paces: seq<Pace>, force: bool, i: nat, ghost reports: seq<set<int>>,
                 ghost entry: int, ghost until: int,
                 ghost s0: State)
      returns (report: set<int>, ghost steps: seq<Step>)
      requires Sensible(c) && c.stampLag == c.hold && window <= c.window
      requires Working(entry, until) && jobs[worker].Started?
      requires i == |reports| < |users| == |paces| && entry + Elapsed(users, paces, force, |users|) <= until
      requires paces[i].beforeQuery <= c.queryLag && Ledger(Entries(), users, paces, force, reports, entry, s0)
      requires messages == s0.messages
      modifies this`jobs, this`lock, this`releases, this`sent, this`tx
      ensures Legal(c, old(S()), steps) && S() == Exec(c, old(S()), steps)
      ensures Working(entry, until) && jobs[worker].Started?
      ensures Ledger(Entries(), users, paces, force, reports + [report], entry, s0)
      ensures ReportAt(c, s0, window, users, paces, force, reports + [report], entry, i)
    {
      ghost var b := Entries();
      LedgerStart(b, users, paces, force, reports, entry, s0, until);
      ghost var at;
      ghost var start := TxStart(users, paces, force, reports, entry, i);
      report, steps, at := Attend(users[i], paces[i], force, entry, until, start,
                                  AfterReports(s0, users, paces, force, reports, entry, i));
      LedgerAppend(b, users, paces, force, reports, report, entry, s0);
      ReportAtEnd(c, s0, window, users, paces, force, reports, report, entry, at);
    }

    method ServeNext(users: seq<User>, paces: seq<Pace>, force: bool, i: nat, ghost reports: seq<set<int>>,
                     ghost entry: int, ghost until: int,
                     ghost s0: State, ghost before: seq<Step>)
      returns (report: set<int>, ghost steps: seq<Step>)
      requires Sensible(c) && c.stampLag == c.hold && window <= c.window
      requires Working(entry, until) && jobs[worker].Started?
      requires i == |reports| < |users| == |paces| && entry + Elapsed(users, paces, force, |users|) <= until
      requires paces[i].beforeQuery <= c.queryLag && Ledger(Entries(), users, paces, force, reports, entry, s0)
      requires Legal(c, s0, before) && S() == Exec(c, s0, before) && messages == s0.messages
      requires AllReports(c, s0, window, users, paces, force, reports, entry)
      modifies this`jobs, this`lock, this`releases, this`sent, this`tx
      ensures Legal(c, s0, steps) && S() == Exec(c, s0, steps)
      ensures Working(entry, until) && jobs[worker].Started?
      ensures Ledger(Entries(), users, paces, force, reports + [report], entry, s0)
      ensures AllReports(c, s0, window, users, paces, force, reports + [report], entry)
    {
      ghost var more;
      report, more := Serve(users, paces, force, i, reports, entry, until, s0);
      AllReportsAppend(c, s0, window, users, paces, force, reports, report, entry);
      Then(c, s0, before, more);
      steps := before + more;
    }

    method ServeAll(users: seq<User>, paces: seq<Pace>, force: bool, ghost entry: int, ghost until: int)
      returns (reports: seq<set<int>>, ghost steps: seq<Step>)
      requires Sensible(c) && c.stampLag == c.hold && window <= c.window
      requires Working(entry, until) && jobs[worker].Started? && lock.now == entry && tx == None
      requires |users| == |paces| && entry + Elapsed(users, paces, force, |users|) <= until
      requires forall i :: 0 <= i < |paces| ==> paces[i].beforeQuery <= c.queryLag
      modifies this`jobs, this`lock, this`releases, this`sent, this`tx
      ensures Legal(c, old(S()), steps) && S() == Exec(c, old(S()), steps)
      ensures Working(entry, until) && jobs[worker].Started?
      ensures |reports| == |users| && Ledger(Entries(), users, paces, force, reports, entry, old(S()))
      ensures AllReports(c, old(S()), window, users, paces, force, reports, entry)
    {
      steps := [];
      reports := [];
      Statement();  // the query for the users
      for i := 0 to |users|
        invariant Legal(c, old(S()), steps) && S() == Exec(c, old(S()), steps)
        invariant Working(entry, until) && jobs[worker].Started?
        invariant |reports| == i && Ledger(Entries(), users, paces, force, reports, entry, old(S()))
        invariant AllReports(c, old(S()), window, users, paces, force, reports, entry)
      {
        var report;
        report, steps := ServeNext(users, paces, force, i, reports, entry, until, old(S()), steps);
        reports := reports + [report];
      }
    }

    /** The whole command: take the lock, report to the users that are due, leave the lock to run out.
        Whatever it does is a run of the steps, so what holds of all runs holds of it; and its release
        records carry the start of the transaction that each was committed in. */
    method Command(users: seq<User>, paces: seq<Pace>, force: bool)
      returns (reports: seq<set<int>>, ghost steps: seq<Step>)
      requires Sensible(c) && c.stampLag == c.hold && window <= c.window
      requires worker !in lock.inside && tx == None
      requires |users| == |paces| && Elapsed(users, paces, force, |users|) <= c.hold
      requires forall w :: w in lock.inside ==>
                 lock.now + Elapsed(users, paces, force, |users|) <= lock.inside[w] + c.hold
      requires forall i :: 0 <= i < |paces| ==> paces[i].beforeQuery <= c.queryLag
      modifies this
      ensures Legal(c, old(S()), steps) && S() == Exec(c, old(S()), steps)
      ensures L.LiveAt(old(lock.now), old(lock.expiry)) ==> reports == [] && S() == old(S())
      ensures !L.LiveAt(old(lock.now), old(lock.expiry)) ==>
                && |reports| == |users|
                && lock.now == old(lock.now) + Elapsed(users, paces, force, |users|)
                && releases == old(releases) + Stamped(users, paces, force, reports, old(lock.now), |users|)
                && sent == old(sent) + Committed(reports)
                && AllReports(c, old(S()), window, users, paces, force, reports, old(lock.now))
      ensures !L.LiveAt(old(lock.now), old(lock.expiry)) ==>
                AllHold(old(messages), old(releases), window, c.maxMsgs, users, paces, force, reports, old(lock.now))
      ensures worker !in lock.inside && tx == None && messages == old(messages)
    {
      ghost var s0 := S();
      reports := [];
      var entered;
      ghost var until := lock.now + Elapsed(users, paces, force, |users|);
      entered, steps := Enter(until);
      if !entered {
        return;
      }
      ghost var more;
      ghost var entry, s1 := lock.now, S();
      reports, more := ServeAll(users, paces, force, entry, until);
      AllReportsFrom(c, s1, s0, window, users, paces, force, reports, entry);
      ReportsHold(c, s0, window, users, paces, force, reports, entry);
      Then(c, s0, steps, more);
      steps := steps + more;
      more := LeaveLock();
      Then(c, s0, steps, more);
      steps := steps + more;
      tx := None;  // closing the session
    }
  }

  /** The reports there were, in order. */
  function Committed(reports: seq<set<int>>): seq<set<int>> {
    if reports == [] then []
    else Committed(reports[..|reports| - 1]) + if reports[|reports| - 1] == {} then [] else [reports[|reports| - 1]]
  }

  lemma ReportsAppend(users: seq<User>, paces: seq<Pace>, force: bool, reports: seq<set<int>>, report: set<int>,
                      entry: int)
    requires |reports| < |users| == |paces|
    ensures var i, later := |reports|, reports + [report];
            && Committed(later) == Committed(reports) + (if report == {} then [] else [report])
            && Stamped(users, paces, force, later, entry, i + 1) ==
                 Stamped(users, paces, force, reports, entry, i)
                     + Records(report, TxStart(users, paces, force, reports, entry, i))
            && (report == {} ==>
                  TxStart(users, paces, force, later, entry, i + 1) == TxStart(users, paces, force, reports, entry, i))
  {
    assert (reports + [report])[..|reports|] == reports;
    PrefixUnchanged(users, paces, force, reports, report, entry, |reports|);
  }

  lemma AllReportsFrom(c: Config, s: State, s0: State, window: int, users: seq<User>, paces: seq<Pace>, force: bool,
                       reports: seq<set<int>>, entry: int)
    requires |reports| <= |users| == |paces| && s.messages == s0.messages && s.releases == s0.releases
    requires AllReports(c, s, window, users, paces, force, reports, entry)
    ensures AllReports(c, s0, window, users, paces, force, reports, entry)
  {
    forall k | 0 <= k < |reports|
      ensures ReportAt(c, s0, window, users, paces, force, reports, entry, k)
    {
      assert ReportAt(c, s, window, users, paces, force, reports, entry, k);
      SameTop(c, AfterReports(s, users, paces, force, reports, entry, k),
              AfterReports(s0, users, paces, force, reports, entry, k),
              entry + Elapsed(users, paces, force, k) + paces[k].beforeClock, window, users[k].visible, reports[k]);
    }
  }

  lemma ReportAtLater(c: Config, s0: State, window: int, users: seq<User>, paces: seq<Pace>, force: bool,
                      reports: seq<set<int>>, report: set<int>, entry: int, k: nat)
    requires k < |reports| < |users| == |paces|
    ensures ReportAt(c, s0, window, users, paces, force, reports + [report], entry, k) <==>
              ReportAt(c, s0, window, users, paces, force, reports, entry, k)
  {
    PrefixUnchanged(users, paces, force, reports, report, entry, k);
    assert AfterReports(s0, users, paces, force, reports + [report], entry, k) ==
           AfterReports(s0, users, paces, force, reports, entry, k);
    assert (reports + [report])[k] == reports[k];
  }

  lemma ReportAtEnd(c: Config, s0: State, window: int, users: seq<User>, paces: seq<Pace>, force: bool,
                    reports: seq<set<int>>, report: set<int>, entry: int, at: int)
    requires |reports| < |users| == |paces|
    requires at == entry + Elapsed(users, paces, force, |reports|) + paces[|reports|].beforeClock
    requires ReportIs(c, AfterReports(s0, users, paces, force, reports, entry, |reports|), at, window,
                      users[|reports|], force, report)
    ensures ReportAt(c, s0, window, users, paces, force, reports + [report], entry, |reports|)
  {
    PrefixUnchanged(users, paces, force, reports, report, entry, |reports|);
    assert AfterReports(s0, users, paces, force, reports + [report], entry, |reports|) ==
           AfterReports(s0, users, paces, force, reports, entry, |reports|);
    assert (reports + [report])[|reports|] == report;
  }

  lemma AllReportsAppend(c: Config, s0: State, window: int, users: seq<User>, paces: seq<Pace>, force: bool,
                         reports: seq<set<int>>, report: set<int>, entry: int)
    requires |reports| < |users| == |paces| && AllReports(c, s0, window, users, paces, force, reports, entry)
    requires ReportAt(c, s0, window, users, paces, force, reports + [report], entry, |reports|)
    ensures AllReports(c, s0, window, users, paces, force, reports + [report], entry)
  {
    forall k | 0 <= k < |reports|
      ensures ReportAt(c, s0, window, users, paces, force, reports + [report], entry, k)
    {
      ReportAtLater(c, s0, window, users, paces, force, reports, report, entry, k);
    }
  }

  lemma {:induction false} PrefixUnchanged(users: seq<User>, paces: seq<Pace>, force: bool, reports: seq<set<int>>,
                                           report: set<int>, entry: int, i: nat)
    requires i <= |users| == |paces| && i <= |reports|
    ensures TxStart(users, paces, force, reports + [report], entry, i) ==
              TxStart(users, paces, force, reports, entry, i)
    ensures Stamped(users, paces, force, reports + [report], entry, i) ==
              Stamped(users, paces, force, reports, entry, i)
  {
    if i > 0 {
      PrefixUnchanged(users, paces, force, reports, report, entry, i - 1);
      assert (reports + [report])[i - 1] == reports[i - 1];
    }
  }

  /** A quarantined message, the only one, and the lock free. */
  function OneMessage(timestamp: int): State {
    State(L.FREE, map[], map[0 := Message(timestamp, true)], {0}, {}, {}, [])
  }

  /** Lags do occur: where the first user is a second in coming to the clock, the command stamps the
      release record a second before the moment the report looks back from. */
  method LateStamp(c: Config) returns (job: QuarantineReports, reports: seq<set<int>>)
    requires Sensible(c) && c.stampLag == c.hold && 1 <= c.hold
    ensures reports == [{0}] && job.releases == {Release(0, 0)} && job.sent == [{0}]
    ensures Lag([User({0}, true, true, true)], [Pace(1, 0, 0)], false, reports, 0, 0) == 1
  {
    var user, pace := User({0}, true, true, true), Pace(1, 0, 0);
    job := new QuarantineReports(c, 1, c.window, OneMessage(1));
    ghost var s0 := job.S();
    assert Elapsed([user], [pace], false, 1) == 1;
    ghost var steps;
    reports, steps := job.Command([user], [pace], false);
    OneReport(c, s0, user, pace, reports);
    LagExactly([user], [pace], false, reports, 0, 0);
  }

  lemma OneReport(c: Config, s0: State, user: User, pace: Pace, reports: seq<set<int>>)
    requires Sensible(c) && s0 == OneMessage(1) && user == User({0}, true, true, true) && pace == Pace(1, 0, 0)
    requires |reports| == 1 && AllReports(c, s0, c.window, [user], [pace], false, reports, 0)
    ensures reports == [{0}]
    ensures Stamped([user], [pace], false, reports, 0, 1) == {Release(0, 0)} && Committed(reports) == [{0}]
  {
    var s := AfterReports(s0, [user], [pace], false, reports, 0, 0);
    assert ReportAt(c, s0, c.window, [user], [pace], false, reports, 0, 0);
    assert Candidates(s, 1, c.window, {0}) == {0};
    OnlyOne(reports[0], 0);
    assert Records({0}, 0) == {Release(0, 0)};
    assert reports[..0] == [];
  }

  lemma OnlyOne(ids: set<int>, id: int)
    requires ids <= {id} && |ids| == 1
    ensures ids == {id}
  {
    assert id !in ids ==> ids == {};
  }
}
