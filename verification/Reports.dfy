/** Quarantine reports interleaved with pruning: any number of report workers, sharing the report
    lock, and any number of pruning runs, on one clock. */
module Reports {
  import opened Wrappers
  import L = CacheLock

  const DAY := 86400

  /** Release records are kept two days. */
  const RETAIN := 2 * DAY

  /** Each report run has its own window, how far back it looks, and each pruning run its own time that
      messages are kept: `window` is the longest window, `keep` the shortest such time, `longest` the longest.
      A release record is stamped at most `stampLag` before the report read the clock, as the stamp
      is the start of the transaction; the report's query runs at most `queryLag` after. A report run
      takes no longer than `hold`. */
  datatype Config = Config(window: int, keep: int, longest: int, stampLag: int, queryLag: int, hold: int, maxMsgs: nat)

  predicate Sensible(c: Config) {
    && DAY <= c.window && c.keep <= c.longest && 1 <= c.maxMsgs
    && 0 <= c.stampLag <= c.hold && 0 <= c.queryLag <= c.hold
  }

  datatype Message = Message(timestamp: int, quarantined: bool)

  datatype Release = Release(message: int, stamp: int)

  /** Where a report worker is: between users, with the clock read, or with messages picked. */
  datatype Job = Started | Clocked(at: int, window: int) | Picked(at: int, ids: set<int>)

  /** `seen` are all message ids handed out so far, `cleaned` the clock readings of the pruning runs
      that have moved messages, and `sent` what the ordinary users' reports held, in sending order. */
  datatype State = State(lock: L.State, jobs: map<int, Job>, messages: map<int, Message>, seen: set<int>,
                         releases: set<Release>, cleaned: set<int>, sent: seq<set<int>>)

  datatype Step =
    | Tick(seconds: nat)
    | Arrive(id: int, message: Message)
    | Flag(id: int, quarantined: bool)
    | Acquire(worker: int)
    | ReadClock(worker: int, window: int)
    | Query(worker: int, visible: set<int>, picked: set<int>)
    | Send(worker: int, stamp: int)
    | Skip(worker: int)
    | Leave(worker: int)
    | Crash(worker: int)
    | MoveMessages(clock: int, keep: int)
    | DropReleases(clock: int)

  const INIT := State(L.FREE, map[], map[], {}, {}, {}, [])

  // ----- what a report picks -----

  /** The quarantined messages a user may see, in the window, without a release record. */
  function Candidates(s: State, at: int, window: int, visible: set<int>): set<int> {
    set id | id in s.messages && id in visible && s.messages[id].quarantined
             && at - window <= s.messages[id].timestamp <= at
             && forall r :: r in s.releases ==> r.message != id
  }

  /** The newest of them, up to the maximum. */
  predicate IsTop(c: Config, s: State, at: int, window: int, visible: set<int>, picked: set<int>) {
    var all := Candidates(s, at, window, visible);
    && picked <= all
    && |picked| == (if |all| <= c.maxMsgs then |all| else c.maxMsgs)
    && forall a, b :: a in picked && b in all && b !in picked ==> s.messages[a].timestamp >= s.messages[b].timestamp
  }

  // ----- steps -----

  predicate HasJob(s: State, w: int) { w in s.jobs && w in s.lock.inside }

  predicate Enabled(c: Config, s: State, step: Step) {
    match step
    case Tick(d) => L.Enabled(s.lock, L.Tick(d), c.hold)
    case Arrive(id, _) => id !in s.seen
    case Flag(id, _) => id in s.messages
    case Acquire(w) => w !in s.lock.inside
    case ReadClock(w, window) => HasJob(s, w) && s.jobs[w].Started? && window <= c.window
    case Query(w, visible, picked) =>
      && HasJob(s, w) && s.jobs[w].Clocked?
      && s.lock.now <= s.jobs[w].at + c.queryLag
      && IsTop(c, s, s.jobs[w].at, s.jobs[w].window, visible, picked)
    case Send(w, stamp) => HasJob(s, w) && s.jobs[w].Picked? && s.jobs[w].at - c.stampLag <= stamp <= s.lock.now
    case Skip(w) => HasJob(s, w) && s.jobs[w].Picked?
    case Leave(w) => HasJob(s, w) && s.jobs[w].Started?
    case Crash(w) => HasJob(s, w)
    case MoveMessages(p, keep) => p <= s.lock.now && c.keep <= keep <= c.longest
    case DropReleases(p) => p in s.cleaned
  }

  /** `Send` is a report to an ordinary user that goes out; the release records are committed with it.
      `Skip` is one that fails, or goes to an administrator, who gets no release records. */
  function Next(c: Config, s: State, step: Step): State
    requires Enabled(c, s, step)
  {
    match step
    case Tick(d) => s.(lock := L.Next(s.lock, L.Tick(d), L.LOCK_EXPIRE))
    case Arrive(id, m) => s.(messages := s.messages[id := m], seen := s.seen + {id})
    case Flag(id, q) => s.(messages := s.messages[id := s.messages[id].(quarantined := q)])
    case Acquire(w) =>
      var lock := L.Next(s.lock, L.Acquire(w), L.LOCK_EXPIRE);
      s.(lock := lock, jobs := if w in lock.inside then s.jobs[w := Started] else s.jobs)
    case ReadClock(w, window) => s.(jobs := s.jobs[w := Clocked(s.lock.now, window)])
    case Query(w, _, picked) => s.(jobs := s.jobs[w := if picked == {} then Started else Picked(s.jobs[w].at, picked)])
    case Send(w, stamp) =>
      s.(jobs := s.jobs[w := Started],
         releases := s.releases + (set id | id in s.jobs[w].ids :: Release(id, stamp)),
         sent := s.sent + [s.jobs[w].ids])
    case Skip(w) => s.(jobs := s.jobs[w := Started])
    case Leave(w) =>
      s.(lock := L.Next(s.lock, L.ReleaseAfter(w, 300), L.LOCK_EXPIRE), jobs := s.jobs - {w})
    case Crash(w) =>
      s.(lock := L.Next(s.lock, L.Crash(w), L.LOCK_EXPIRE), jobs := s.jobs - {w})
    case MoveMessages(p, keep) =>
      s.(messages := (map id | id in s.messages && s.messages[id].timestamp >= p - keep :: s.messages[id]),
         releases := (set r | r in s.releases && r.stamp >= p - keep),
         cleaned := s.cleaned + {p})
    case DropReleases(p) =>
      s.(releases := (set r | r in s.releases && r.stamp >= p - RETAIN))
  }

  predicate Legal(c: Config, s: State, steps: seq<Step>)
    decreases |steps|
  {
    steps == [] || (Enabled(c, s, steps[0]) && Legal(c, Next(c, s, steps[0]), steps[1..]))
  }

  function Exec(c: Config, s: State, steps: seq<Step>): State
    requires Legal(c, s, steps)
    decreases |steps|
  {
    if steps == [] then s else Exec(c, Next(c, s, steps[0]), steps[1..])
  }

  // ----- the claim -----

  predicate AtMostOnce(sent: seq<set<int>>) { forall i, j :: 0 <= i < j < |sent| ==> sent[i] !! sent[j] }

  predicate SafeRun(c: Config, steps: seq<Step>) { Legal(c, INIT, steps) ==> AtMostOnce(Exec(c, INIT, steps).sent) }

  /** The lags eat into the time that release records are kept. Stamps that never lag leave one more
      safe case: messages that go no later than their release records do. */
  predicate Safe(c: Config) {
    || (c.stampLag == 0 && c.longest <= RETAIN)
    || (&& c.window + c.stampLag + c.queryLag <= RETAIN
        && (c.stampLag > 0 ==> c.window + c.stampLag + c.queryLag <= c.keep))
  }

  /** Every report run is over before its lock is. */
  predicate Timely(c: Config) { Sensible(c) && c.hold < L.LOCK_EXPIRE }

  // ----- the invariant -----

  predicate Sent(s: State, id: int) { exists i :: 0 <= i < |s.sent| && id in s.sent[i] }

  /** A message that was sent and is still in the table has a release record young enough, or is
      too old for any query still to come. */
  ghost predicate Covered(c: Config, s: State) {
    forall id :: id in s.messages && Sent(s, id) ==>
      || s.messages[id].timestamp + c.window < s.lock.now - c.queryLag
      || exists r :: r in s.releases && r.message == id && r.stamp >= s.messages[id].timestamp - c.stampLag
  }

  predicate JobsOk(s: State) {
    && s.jobs.Keys == s.lock.inside.Keys
    && (forall w :: w in s.jobs && s.jobs[w].Picked? ==>
          && s.jobs[w].ids <= s.seen
          && (forall i :: 0 <= i < |s.sent| ==> s.sent[i] !! s.jobs[w].ids)
          && (forall id :: id in s.jobs[w].ids && id in s.messages ==> s.messages[id].timestamp <= s.jobs[w].at))
  }

  predicate IdsOk(s: State) {
    && s.messages.Keys <= s.seen
    && (forall i :: 0 <= i < |s.sent| ==> s.sent[i] <= s.seen)
  }

  /** A worker read the clock after taking the lock, for a window that is not too long, and no release
      record is older than any pruning run would have left it. */
  predicate Recent(c: Config, s: State) {
    && (forall w :: w in s.jobs && s.jobs[w].Clocked? ==> s.jobs[w].window <= c.window)
    && (forall w :: w in s.jobs && w in s.lock.inside && !s.jobs[w].Started? ==> s.lock.inside[w] <= s.jobs[w].at)
    && (forall p, r :: p in s.cleaned && r in s.releases ==> p - Oldest(c) <= r.stamp)
  }

  function Oldest(c: Config): int { if c.longest > RETAIN then c.longest else RETAIN }

  ghost predicate Inv(c: Config, s: State) {
    && L.Held(s.lock, L.LOCK_EXPIRE, c.hold)
    && (forall p :: p in s.cleaned ==> p <= s.lock.now)
    && JobsOk(s) && IdsOk(s) && Recent(c, s) && Covered(c, s) && AtMostOnce(s.sent)
  }

  /** The step of the lock inside a step of the whole. */
  function LockStep(step: Step): L.Step {
    match step
    case Acquire(w) => L.Acquire(w)
    case Leave(w) => L.ReleaseAfter(w, 300)
    case Crash(w) => L.Crash(w)
    case Tick(d) => L.Tick(d)
    case _ => L.Tick(0)
  }

  lemma LockKept(c: Config, s: State, step: Step)
    requires Timely(c) && Inv(c, s) && Enabled(c, s, step)
    ensures L.Held(Next(c, s, step).lock, L.LOCK_EXPIRE, c.hold)
  {
    L.StepKeepsHeld(s.lock, LockStep(step), L.LOCK_EXPIRE, c.hold);
  }

  /** Whoever has been sent a message in the window, no report finds it again. */
  lemma CandidatesUnsent(c: Config, s: State, at: int, window: int, visible: set<int>)
    requires Covered(c, s) && s.lock.now <= at + c.queryLag && window <= c.window
    ensures forall id :: id in Candidates(s, at, window, visible) ==> id in s.messages && !Sent(s, id)
  {
  }

  lemma QueryKeeps(c: Config, s: State, w: int, visible: set<int>, picked: set<int>)
    requires Timely(c) && Inv(c, s) && Enabled(c, s, Query(w, visible, picked))
    ensures JobsOk(Next(c, s, Query(w, visible, picked)))
  {
    var at, window := s.jobs[w].at, s.jobs[w].window;
    var all := Candidates(s, at, window, visible);
    CandidatesUnsent(c, s, at, window, visible);
    forall i | 0 <= i < |s.sent|
      ensures s.sent[i] !! all
    {
      assert forall id :: id in all ==> id !in s.sent[i];
    }
  }

  lemma SendKeeps(c: Config, s: State, w: int, stamp: int)
    requires Timely(c) && Inv(c, s) && Enabled(c, s, Send(w, stamp))
    ensures var s' := Next(c, s, Send(w, stamp)); JobsOk(s') && IdsOk(s') && Covered(c, s') && AtMostOnce(s'.sent)
  {
    var s' := Next(c, s, Send(w, stamp));
    var ids := s.jobs[w].ids;
    assert forall id :: Sent(s', id) <==> Sent(s, id) || id in ids by {
      assert forall i :: 0 <= i < |s.sent| ==> s'.sent[i] == s.sent[i];
      assert s'.sent[|s.sent|] == ids;
    }
    assert forall v :: v in s'.jobs ==> v in s.lock.inside && v == w;
    forall id | id in s'.messages && Sent(s', id)
      ensures s'.messages[id].timestamp + c.window < s'.lock.now - c.queryLag ||
              exists r :: r in s'.releases && r.message == id && r.stamp >= s'.messages[id].timestamp - c.stampLag
    {
      if id in ids {
        assert Release(id, stamp) in s'.releases;
      }
    }
  }

  lemma MoveKeeps(c: Config, s: State, p: int, keep: int)
    requires Timely(c) && Safe(c) && Inv(c, s) && Enabled(c, s, MoveMessages(p, keep))
    ensures Covered(c, Next(c, s, MoveMessages(p, keep)))
  {
    var s' := Next(c, s, MoveMessages(p, keep));
    forall id | id in s'.messages && Sent(s', id)
      ensures s'.messages[id].timestamp + c.window < s'.lock.now - c.queryLag ||
              exists r :: r in s'.releases && r.message == id && r.stamp >= s'.messages[id].timestamp - c.stampLag
    {
      assert Sent(s, id);
      if r :| r in s.releases && r.message == id && r.stamp >= s.messages[id].timestamp - c.stampLag {
        if r.stamp >= p - keep {
          assert r in s'.releases;
        }
      }
    }
  }

  lemma DropKeeps(c: Config, s: State, p: int)
    requires Timely(c) && Safe(c) && Inv(c, s) && Enabled(c, s, DropReleases(p))
    ensures Covered(c, Next(c, s, DropReleases(p)))
  {
    var s' := Next(c, s, DropReleases(p));
    forall id | id in s'.messages && Sent(s', id)
      ensures s'.messages[id].timestamp + c.window < s'.lock.now - c.queryLag ||
              exists r :: r in s'.releases && r.message == id && r.stamp >= s'.messages[id].timestamp - c.stampLag
    {
      assert Sent(s, id);
      if r :| r in s.releases && r.message == id && r.stamp >= s.messages[id].timestamp - c.stampLag {
        if r.stamp >= p - RETAIN {
          assert r in s'.releases;
        }
      }
    }
  }

  lemma AcquireKeeps(c: Config, s: State, w: int)
    requires Timely(c) && Inv(c, s) && Enabled(c, s, Acquire(w))
    ensures JobsOk(Next(c, s, Acquire(w)))
  {
  }

  lemma LeaveKeeps(c: Config, s: State, step: Step)
    requires Timely(c) && Inv(c, s) && Enabled(c, s, step) && (step.Leave? || step.Crash?)
    ensures JobsOk(Next(c, s, step))
  {
    var s' := Next(c, s, step);
    assert s'.jobs.Keys == s.jobs.Keys - {step.worker} == s'.lock.inside.Keys;
  }

  /** Steps that touch neither messages, releases nor reports; time may pass. */
  lemma CoveredLater(c: Config, s: State, s': State)
    requires Covered(c, s) && s'.messages == s.messages && s'.releases == s.releases && s'.sent == s.sent
    requires s'.lock.now >= s.lock.now
    ensures Covered(c, s')
  {
    assert forall id :: Sent(s', id) ==> Sent(s, id);
  }

  lemma ArriveKeeps(c: Config, s: State, step: Step)
    requires Inv(c, s) && Enabled(c, s, step) && (step.Arrive? || step.Flag?)
    ensures var s' := Next(c, s, step); JobsOk(s') && IdsOk(s') && Covered(c, s')
  {
    var s' := Next(c, s, step);
    assert forall id :: Sent(s', id) <==> Sent(s, id);
    assert forall id :: Sent(s, id) ==> id in s.seen;
  }

  lemma RecentKept(c: Config, s: State, step: Step)
    requires Timely(c) && Inv(c, s) && Enabled(c, s, step)
    ensures Recent(c, Next(c, s, step))
  {
    var s' := Next(c, s, step);
    if step.Send? {
      var w := step.worker;
      forall p, r | p in s'.cleaned && r in s'.releases
        ensures p - Oldest(c) <= r.stamp
      {
        assert s.lock.now <= s.lock.inside[w] + c.hold <= s.jobs[w].at + c.hold;
      }
    }
  }

  lemma StepKeepsInv(c: Config, s: State, step: Step)
    requires Timely(c) && Safe(c) && Inv(c, s) && Enabled(c, s, step)
    ensures Inv(c, Next(c, s, step))
  {
    var s' := Next(c, s, step);
    LockKept(c, s, step);
    RecentKept(c, s, step);
    match step
    case Tick(_) => CoveredLater(c, s, s'); SameJobs(s, s');
    case Arrive(_, _) => ArriveKeeps(c, s, step);
    case Flag(_, _) => ArriveKeeps(c, s, step);
    case Acquire(w) => CoveredLater(c, s, s'); AcquireKeeps(c, s, w);
    case ReadClock(_, _) => CoveredLater(c, s, s');
    case Query(w, visible, picked) => CoveredLater(c, s, s'); QueryKeeps(c, s, w, visible, picked);
    case Send(w, stamp) => SendKeeps(c, s, w, stamp);
    case Skip(w) => CoveredLater(c, s, s');
    case Leave(w) => CoveredLater(c, s, s'); LeaveKeeps(c, s, step);
    case Crash(w) => CoveredLater(c, s, s'); LeaveKeeps(c, s, step);
    case MoveMessages(p, keep) => MoveKeeps(c, s, p, keep); SameJobs(s, s');
    case DropReleases(p) => DropKeeps(c, s, p); SameJobs(s, s');
  }

  lemma SameJobs(s: State, s': State)
    requires JobsOk(s) && s'.jobs == s.jobs && s'.lock.inside == s.lock.inside
    requires s'.seen == s.seen && s'.sent == s.sent
    requires forall id :: id in s'.messages ==> id in s.messages && s'.messages[id] == s.messages[id]
    ensures JobsOk(s')
  {
    assert forall id :: Sent(s', id) ==> Sent(s, id);
  }

  lemma {:induction false} RunKeepsInv(c: Config, s: State, steps: seq<Step>)
    requires Timely(c) && Safe(c) && Inv(c, s) && Legal(c, s, steps)
    ensures Inv(c, Exec(c, s, steps))
    decreases |steps|
  {
    if steps != [] {
      StepKeepsInv(c, s, steps[0]);
      RunKeepsInv(c, Next(c, s, steps[0]), steps[1..]);
    }
  }

  lemma SafeSuffices(c: Config, steps: seq<Step>)
    requires Timely(c) && Safe(c)
    ensures SafeRun(c, steps)
  {
    if Legal(c, INIT, steps) {
      RunKeepsInv(c, INIT, steps);
    }
  }

  // ----- putting runs together -----

  lemma One(c: Config, s: State, step: Step)
    requires Enabled(c, s, step)
    ensures Legal(c, s, [step]) && Exec(c, s, [step]) == Next(c, s, step)
  {
    assert [step][1..] == [];
  }

  lemma {:induction false} Then(c: Config, s: State, a: seq<Step>, b: seq<Step>)
    requires Legal(c, s, a) && Legal(c, Exec(c, s, a), b)
    ensures Legal(c, s, a + b) && Exec(c, s, a + b) == Exec(c, Exec(c, s, a), b)
    decreases |a|
  {
    if a == [] {
      assert a + b == b;
    } else {
      assert (a + b)[1..] == a[1..] + b;
      Then(c, Next(c, s, a[0]), a[1..], b);
    }
  }

  /** The run can go on with the step. */
  predicate CanGoOn(c: Config, s: State, steps: seq<Step>, step: Step) {
    Legal(c, s, steps) && Enabled(c, Exec(c, s, steps), step)
  }

  /** One more step at the end of a run. */
  lemma Extend(c: Config, s: State, steps: seq<Step>, step: Step) returns (longer: seq<Step>)
    requires CanGoOn(c, s, steps, step)
    ensures Legal(c, s, longer) && Exec(c, s, longer) == Next(c, Exec(c, s, steps), step)
  {
    longer := steps + [step];
    One(c, Exec(c, s, steps), step);
    Then(c, s, steps, [step]);
  }
}
