/** Runs that report a message twice, and so exactly when none does. */
module ReportedTwice {
  import opened Wrappers
  import opened Reports
  import L = CacheLock

  /** One message, one worker: where the pieces of the run below begin and end. */
  function Idle(now: int, expiry: int, at: int, releases: set<Release>, cleaned: set<int>, sent: seq<set<int>>): State {
    State(L.State(now, Some(expiry), map[]), map[], map[0 := Message(at, true)], {0}, releases, cleaned, sent)
  }

  function Busy(now: int, since: int, job: Job, at: int, releases: set<Release>, cleaned: set<int>,
                sent: seq<set<int>>): State {
    State(L.State(now, Some(since + 300), map[0 := since]), map[0 := job], map[0 := Message(at, true)], {0},
          releases, cleaned, sent)
  }

  /** A clocked worker finds the message, in the window and without a release record, and sends it. */
  lemma FindAndSend(c: Config, s: State, now: int, since: int, clock: int, at: int, releases: set<Release>,
                    cleaned: set<int>, sent: seq<set<int>>, stamp: int) returns (steps: seq<Step>)
    requires s == Busy(now, since, Clocked(clock, c.window), at, releases, cleaned, sent)
    requires now <= clock + c.queryLag && clock - c.window <= at <= clock && 1 <= c.maxMsgs
    requires clock - c.stampLag <= stamp <= now
    requires forall r :: r in releases ==> r.message != 0
    ensures Legal(c, s, steps)
    ensures Exec(c, s, steps) == Busy(now, since, Started, at, releases + {Release(0, stamp)}, cleaned, sent + [{0}])
  {
    assert Candidates(s, clock, c.window, {0}) == {0};
    assert IsTop(c, s, clock, c.window, {0}, {0});
    steps := Extend(c, s, [], Query(0, {0}, {0}));
    var s1 := Exec(c, s, steps);
    assert s1 == Busy(now, since, Picked(clock, {0}), at, releases, cleaned, sent);
    steps := Extend(c, s, steps, Send(0, stamp));
    assert (set id | id in {0} :: Release(id, stamp)) == {Release(0, stamp)};
  }

  lemma Clock(c: Config, t: int) returns (steps: seq<Step>)
    requires Sensible(c) && t == c.stampLag
    ensures Legal(c, INIT, steps) && Exec(c, INIT, steps) == Busy(t, 0, Clocked(t, c.window), t, {}, {}, [])
  {
    steps := Extend(c, INIT, [], Acquire(0));
    steps := Extend(c, INIT, steps, Tick(t));
    steps := Extend(c, INIT, steps, Arrive(0, Message(t, true)));
    assert Exec(c, INIT, steps) == Busy(t, 0, Started, t, {}, {}, []);
    steps := Extend(c, INIT, steps, ReadClock(0, c.window));
  }

  lemma LeaveLock(c: Config, s: State, t: int, releases: set<Release>, sent: seq<set<int>>) returns (steps: seq<Step>)
    requires s == Busy(t, 0, Started, t, releases, {}, sent) && t < L.LOCK_EXPIRE
    ensures Legal(c, s, steps) && Exec(c, s, steps) == Idle(t, t + 300, t, releases, {}, sent)
  {
    steps := Extend(c, s, [], Leave(0));
    assert map[0 := 0] - {0} == map[];
    assert map[0 := Started] - {0} == map[];
  }

  /** The first report: the message arrives as the clock is read, the release is stamped at time 0. */
  lemma FirstReport(c: Config) returns (steps: seq<Step>)
    requires Timely(c)
    ensures Legal(c, INIT, steps)
    ensures Exec(c, INIT, steps) == Idle(c.stampLag, c.stampLag + 300, c.stampLag, {Release(0, 0)}, {}, [{0}])
  {
    var t := c.stampLag;
    steps := Clock(c, t);
    var more := FindAndSend(c, Exec(c, INIT, steps), t, 0, t, t, {}, {}, [], 0);
    assert {} + {Release(0, 0)} == {Release(0, 0)};
    assert [] + [{0}] == [{0}];
    Then(c, INIT, steps, more);
    steps := steps + more;
    more := LeaveLock(c, Exec(c, INIT, steps), t, {Release(0, 0)}, [{0}]);
    Then(c, INIT, steps, more);
    steps := steps + more;
  }

  /** As late as the window lets it, the second worker reads the clock, a pruning run with the clock at `p`
      drops the release record but not the message, and the message goes out again. */
  lemma SecondReport(c: Config, p: int, keep: int) returns (steps: seq<Step>)
    requires Timely(c) && p <= c.window + c.stampLag + c.queryLag
    requires c.keep <= keep <= c.longest && p - keep <= c.stampLag
    requires 0 < p - keep || 0 < p - RETAIN
    ensures var s := Idle(c.stampLag, c.stampLag + 300, c.stampLag, {Release(0, 0)}, {}, [{0}]);
            Legal(c, s, steps) && Exec(c, s, steps).sent == [{0}, {0}]
  {
    var t := c.stampLag;
    var q := t + c.window;
    var now := q + c.queryLag;
    var s := Idle(t, t + 300, t, {Release(0, 0)}, {}, [{0}]);
    steps := Reclock(c, s, t, q, now);
    var more := Prune(c, Exec(c, s, steps), now, p, keep, q, t);
    Then(c, s, steps, more);
    steps := steps + more;
    more := FindAndSend(c, Exec(c, s, steps), now, q, q, t, {}, {p}, [{0}], now);
    Then(c, s, steps, more);
    steps := steps + more;
    assert [{0}] + [{0}] == [{0}, {0}];
  }

  lemma Reclock(c: Config, s: State, t: int, q: int, p: int) returns (steps: seq<Step>)
    requires s == Idle(t, t + 300, t, {Release(0, 0)}, {}, [{0}])
    requires t + 300 <= q && p == q + c.queryLag && 0 <= c.queryLag <= c.hold
    ensures Legal(c, s, steps)
    ensures Exec(c, s, steps) == Busy(p, q, Clocked(q, c.window), t, {Release(0, 0)}, {}, [{0}])
  {
    steps := Extend(c, s, [], Tick(q - t));
    steps := Extend(c, s, steps, Acquire(0));
    steps := Extend(c, s, steps, ReadClock(0, c.window));
    assert Exec(c, s, steps) == Busy(q, q, Clocked(q, c.window), t, {Release(0, 0)}, {}, [{0}]);
    steps := Extend(c, s, steps, Tick(c.queryLag));
  }

  lemma Prune(c: Config, s: State, now: int, p: int, keep: int, q: int, t: int) returns (steps: seq<Step>)
    requires s == Busy(now, q, Clocked(q, c.window), t, {Release(0, 0)}, {}, [{0}]) && p <= now
    requires c.keep <= keep <= c.longest && p - keep <= t && (0 < p - keep || 0 < p - RETAIN)
    ensures Legal(c, s, steps) && Exec(c, s, steps) == Busy(now, q, Clocked(q, c.window), t, {}, {p}, [{0}])
  {
    steps := Extend(c, s, [], MoveMessages(p, keep));
    var s1 := Exec(c, s, steps);
    assert s1.messages == s.messages;
    assert s1.cleaned == {p};
    steps := Extend(c, s, steps, DropReleases(p));
    assert Exec(c, s, steps).releases == {};
  }

  lemma UnsafeFails(c: Config) returns (steps: seq<Step>)
    requires Timely(c) && !Safe(c)
    ensures !SafeRun(c, steps)
  {
    var overKept := c.stampLag > 0 && c.keep < c.window + c.stampLag + c.queryLag;
    var keep := if overKept then c.keep else c.longest;
    var p := (if overKept then keep else RETAIN) + 1;
    var first := FirstReport(c);
    var second := SecondReport(c, p, keep);
    Then(c, INIT, first, second);
    steps := first + second;
    var sent := Exec(c, INIT, steps).sent;
    assert 0 in sent[0] && 0 in sent[1];
  }

  /** Two workers inside at once, the second since the lock of the first ran out. */
  function Both(first: Job, second: Job, releases: set<Release>, sent: seq<set<int>>): State {
    State(L.State(300, Some(600), map[0 := 0, 1 := 300]), map[0 := first, 1 := second], map[0 := Message(0, true)], {0},
          releases, {}, sent)
  }

  /** One worker has picked the message, and is not done when its lock is. */
  lemma PickAndWait(c: Config) returns (steps: seq<Step>)
    requires Sensible(c) && c.hold >= L.LOCK_EXPIRE
    ensures Legal(c, INIT, steps) && Exec(c, INIT, steps) == Busy(300, 0, Picked(0, {0}), 0, {}, {}, [])
  {
    steps := Extend(c, INIT, [], Acquire(0));
    steps := Extend(c, INIT, steps, Arrive(0, Message(0, true)));
    steps := Extend(c, INIT, steps, ReadClock(0, c.window));
    var s := Exec(c, INIT, steps);
    assert s == Busy(0, 0, Clocked(0, c.window), 0, {}, {}, []);
    assert Candidates(s, 0, c.window, {0}) == {0};
    assert IsTop(c, s, 0, c.window, {0}, {0});
    steps := Extend(c, INIT, steps, Query(0, {0}, {0}));
    assert Exec(c, INIT, steps) == Busy(0, 0, Picked(0, {0}), 0, {}, {}, []);
    steps := Extend(c, INIT, steps, Tick(300));
  }

  /** Another takes the lock, and finds the message without a release record. */
  lemma PickToo(c: Config, s: State) returns (steps: seq<Step>)
    requires Sensible(c) && s == Busy(300, 0, Picked(0, {0}), 0, {}, {}, [])
    ensures Legal(c, s, steps) && Exec(c, s, steps) == Both(Picked(0, {0}), Picked(300, {0}), {}, [])
  {
    steps := Extend(c, s, [], Acquire(1));
    steps := Extend(c, s, steps, ReadClock(1, c.window));
    var s1 := Exec(c, s, steps);
    assert s1 == Both(Picked(0, {0}), Clocked(300, c.window), {}, []);
    assert Candidates(s1, 300, c.window, {0}) == {0};
    assert IsTop(c, s1, 300, c.window, {0}, {0});
    steps := Extend(c, s, steps, Query(1, {0}, {0}));
  }

  lemma SendBoth(c: Config, s: State) returns (steps: seq<Step>)
    requires Sensible(c) && s == Both(Picked(0, {0}), Picked(300, {0}), {}, [])
    ensures Legal(c, s, steps) && Exec(c, s, steps).sent == [{0}, {0}]
  {
    steps := Extend(c, s, [], Send(0, 300));
    assert Exec(c, s, steps).jobs[1] == Picked(300, {0});
    assert [] + [{0}] == [{0}];
    steps := Extend(c, s, steps, Send(1, 300));
    assert [{0}] + [{0}] == [{0}, {0}];
  }

  /** A report run that outlasts its lock: another one sends what it is about to send. */
  lemma OverlongFails(c: Config) returns (steps: seq<Step>)
    requires Sensible(c) && c.hold >= L.LOCK_EXPIRE
    ensures !SafeRun(c, steps)
  {
    steps := PickAndWait(c);
    var more := PickToo(c, Exec(c, INIT, steps));
    Then(c, INIT, steps, more);
    steps := steps + more;
    more := SendBoth(c, Exec(c, INIT, steps));
    Then(c, INIT, steps, more);
    steps := steps + more;
    var sent := Exec(c, INIT, steps).sent;
    assert 0 in sent[0] && 0 in sent[1];
  }

  /** A message is in at most one report sent to an ordinary user, over all runs, exactly when every report
      run is over before its lock is, and either the longest window and both lags together fit the time that
      release records are kept and, unless stamps never lag, the shortest time that messages are; or stamps
      never lag and messages always go no later than release records. */
  lemma AtMostOnceExactly(c: Config)
    requires Sensible(c)
    ensures (forall steps :: SafeRun(c, steps)) <==> Safe(c) && c.hold < L.LOCK_EXPIRE
  {
    if c.hold >= L.LOCK_EXPIRE {
      var steps := OverlongFails(c);
      assert !SafeRun(c, steps);
    } else if Safe(c) {
      forall steps { SafeSuffices(c, steps); }
    } else {
      var steps := UnsafeFails(c);
      assert !SafeRun(c, steps);
    }
  }

  /** In whole days, with any lag at all: reports must be done within the lock's five minutes, look back less
      than two days, and less than messages are kept. The default of one day and thirty is safe for such;
      `--newer-than 2` is not. */
  lemma InWholeDays(c: Config, newerThan: int, keepDays: int)
    requires Sensible(c) && c.stampLag > 0
    requires c.window == newerThan * DAY && c.keep == keepDays * DAY
    ensures (forall steps :: SafeRun(c, steps)) <==>
              newerThan < 2 && newerThan < keepDays && c.hold < L.LOCK_EXPIRE
  {
    AtMostOnceExactly(c);
    if c.hold < L.LOCK_EXPIRE {
      assert 0 < c.stampLag + c.queryLag < DAY;
      if keepDays <= newerThan { assert keepDays * DAY <= newerThan * DAY; }
      if newerThan < keepDays { assert (newerThan + 1) * DAY <= keepDays * DAY; }
    }
  }

  /** Were records stamped when committed and clocks read as queries run, two days would do. */
  lemma TwoDaysWithoutLag(c: Config)
    requires Sensible(c) && c.stampLag == 0 && c.queryLag == 0 && c.window <= RETAIN
    ensures (forall steps :: SafeRun(c, steps)) <==> c.hold < L.LOCK_EXPIRE
  {
    AtMostOnceExactly(c);
  }
}
