/** The lock that housekeeping jobs take in memcached, one key with an expiry time. */
module CacheLock {
  import opened Wrappers

  const LOCK_EXPIRE := 300

  // ----- the key -----

  class Memcached {
    var now: int
    var expiry: Option<int>

    constructor ()
      ensures now == 0 && expiry == None
    {
      now := 0;
      expiry := None;
    }

    predicate Live()
      reads this
    {
      expiry.Some? && now < expiry.value
    }

    method AcquireLock(timeout: int := LOCK_EXPIRE) returns (ok: bool)
      modifies this`expiry
      ensures ok <==> !old(expiry.Some? && now < expiry.value)
      ensures expiry == (if ok then Some(now + timeout) else old(expiry)) == Added(now, old(expiry), timeout)
    {
      ok := !Live();
      if ok { expiry := Some(now + timeout); }
    }

    method ReleaseLock()
      modifies this`expiry
      ensures expiry == None
    {
      expiry := None;
    }

    method ReleaseLockAfter(timeout: int)
      modifies this`expiry
      ensures old(expiry.Some? && now < expiry.value) ==> expiry == Some(now + timeout)
      ensures !old(expiry.Some? && now < expiry.value) ==> expiry == old(expiry)
      ensures expiry == Replaced(now, old(expiry), timeout)
    {
      if Live() { expiry := Some(now + timeout); }
    }
  }

  predicate LiveAt(now: int, expiry: Option<int>) { expiry.Some? && now < expiry.value }

  function Added(now: int, expiry: Option<int>, timeout: int): Option<int> {
    if LiveAt(now, expiry) then expiry else Some(now + timeout)
  }

  function Replaced(now: int, expiry: Option<int>, timeout: int): Option<int> {
    if LiveAt(now, expiry) then Some(now + timeout) else expiry
  }

  // ----- any number of workers -----

  /** `inside` maps the workers in their critical section to the time they entered. */
  datatype State = State(now: int, expiry: Option<int>, inside: map<int, int>)

  datatype Step =
    | Tick(seconds: nat)
    | Acquire(worker: int)
    | Release(worker: int)
    | ReleaseAfter(worker: int, timeout: int)
    | Crash(worker: int)

  const FREE := State(0, None, map[])

  /** No worker stays inside longer than `hold`. */
  predicate Enabled(s: State, step: Step, hold: int) {
    match step
    case Tick(d) => forall w :: w in s.inside ==> s.now + d <= s.inside[w] + hold
    case Acquire(w) => w !in s.inside
    case Release(w) => w in s.inside
    case ReleaseAfter(w, _) => w in s.inside
    case Crash(w) => w in s.inside
  }

  function Next(s: State, step: Step, timeout: int): State {
    match step
    case Tick(d) => s.(now := s.now + d)
    case Acquire(w) =>
      if LiveAt(s.now, s.expiry) then s
      else State(s.now, Added(s.now, s.expiry, timeout), s.inside[w := s.now])
    case Release(w) => State(s.now, None, s.inside - {w})
    case ReleaseAfter(w, t) => State(s.now, Replaced(s.now, s.expiry, t), s.inside - {w})
    case Crash(w) => s.(inside := s.inside - {w})
  }

  predicate Legal(s: State, steps: seq<Step>, timeout: int, hold: int)
    decreases |steps|
  {
    steps == [] || (Enabled(s, steps[0], hold) && Legal(Next(s, steps[0], timeout), steps[1..], timeout, hold))
  }

  function Exec(s: State, steps: seq<Step>, timeout: int): State
    decreases |steps|
  {
    if steps == [] then s else Exec(Next(s, steps[0], timeout), steps[1..], timeout)
  }

  predicate Exclusive(s: State) { forall v, w :: v in s.inside && w in s.inside ==> v == w }

  /** Whoever is inside is alone, within its time, and the key in place is its own. */
  predicate Held(s: State, timeout: int, hold: int) {
    && Exclusive(s)
    && forall w :: w in s.inside ==>
         s.inside[w] <= s.now <= s.inside[w] + hold && s.expiry == Some(s.inside[w] + timeout)
  }

  lemma StepKeepsHeld(s: State, step: Step, timeout: int, hold: int)
    requires hold < timeout && Held(s, timeout, hold) && Enabled(s, step, hold) && hold >= 0
    ensures Held(Next(s, step, timeout), timeout, hold)
  {
    assert forall w :: w in s.inside ==> LiveAt(s.now, s.expiry);
  }

  lemma {:induction false} RunKeepsHeld(s: State, steps: seq<Step>, timeout: int, hold: int)
    requires 0 <= hold < timeout && Held(s, timeout, hold) && Legal(s, steps, timeout, hold)
    ensures Held(Exec(s, steps, timeout), timeout, hold)
    decreases |steps|
  {
    if steps != [] {
      StepKeepsHeld(s, steps[0], timeout, hold);
      RunKeepsHeld(Next(s, steps[0], timeout), steps[1..], timeout, hold);
    }
  }

  predicate SafeRun(steps: seq<Step>, timeout: int, hold: int) {
    Legal(FREE, steps, timeout, hold) ==> Exclusive(Exec(FREE, steps, timeout))
  }

  /** The lock excludes over all runs exactly when every critical section ends before the expiry. */
  lemma ExclusionExactly(timeout: int, hold: int)
    requires 0 < timeout && 0 <= hold
    ensures (forall steps :: SafeRun(steps, timeout, hold)) <==> hold < timeout
  {
    if hold < timeout {
      forall steps | Legal(FREE, steps, timeout, hold) { RunKeepsHeld(FREE, steps, timeout, hold); }
    } else {
      var steps := [Acquire(1), Tick(timeout), Acquire(2)];
      var s1 := Next(FREE, steps[0], timeout);
      var s2 := Next(s1, steps[1], timeout);
      var s3 := Next(s2, steps[2], timeout);
      assert steps[1..] == [Tick(timeout), Acquire(2)] && steps[1..][1..] == [Acquire(2)] && steps[1..][1..][1..] == [];
      assert Legal(s2, [Acquire(2)], timeout, hold) && Exec(s2, [Acquire(2)], timeout) == s3;
      assert Legal(s1, steps[1..], timeout, hold) && Exec(s1, steps[1..], timeout) == s3;
      assert Legal(FREE, steps, timeout, hold) && Exec(FREE, steps, timeout) == s3;
      assert 1 in s3.inside && 2 in s3.inside;
      assert !SafeRun(steps, timeout, hold);
    }
  }

  /** While a worker is inside its key is live, so nobody else gets in. */
  lemma HeldKeyIsLive(steps: seq<Step>, timeout: int, hold: int, w: int)
    requires 0 <= hold < timeout && Legal(FREE, steps, timeout, hold)
    requires w in Exec(FREE, steps, timeout).inside
    ensures var s := Exec(FREE, steps, timeout);
            LiveAt(s.now, s.expiry) && forall v :: Next(s, Acquire(v), timeout) == s
  {
    RunKeepsHeld(FREE, steps, timeout, hold);
  }

  // ----- after a section has ended -----

  /** Nobody inside, and the key stays for a while. */
  predicate Closed(s: State, until: int) { s.inside == map[] && s.expiry.Some? && until <= s.expiry.value }

  lemma {:induction false} ClosedUntil(s: State, steps: seq<Step>, timeout: int, hold: int, until: int)
    requires Closed(s, until) && Legal(s, steps, timeout, hold)
    requires Exec(s, steps, timeout).now < until
    ensures Exec(s, steps, timeout).inside == map[] && Exec(s, steps, timeout).expiry == s.expiry
    ensures s.now <= Exec(s, steps, timeout).now
    decreases |steps|
  {
    if steps != [] {
      TimePasses(Next(s, steps[0], timeout), steps[1..], timeout);
      assert s.now <= Next(s, steps[0], timeout).now;
      ClosedUntil(Next(s, steps[0], timeout), steps[1..], timeout, hold, until);
    }
  }

  lemma {:induction false} TimePasses(s: State, steps: seq<Step>, timeout: int)
    ensures s.now <= Exec(s, steps, timeout).now
    decreases |steps|
  {
    if steps != [] {
      TimePasses(Next(s, steps[0], timeout), steps[1..], timeout);
    }
  }

  lemma AloneLeaves(s: State, w: int)
    requires Exclusive(s) && w in s.inside
    ensures s.inside - {w} == map[]
  {
    assert forall v :: v in s.inside ==> v == w;
    assert (s.inside - {w}).Keys == {};
  }

  /** A job that leaves with `release_lock_after` keeps everyone out for the whole delay. */
  lemma ReleaseAfterBlocks(before: seq<Step>, w: int, delay: int, after: seq<Step>, timeout: int, hold: int)
    requires 0 <= hold < timeout && Legal(FREE, before, timeout, hold)
    requires w in Exec(FREE, before, timeout).inside
    requires Legal(Next(Exec(FREE, before, timeout), ReleaseAfter(w, delay), timeout), after, timeout, hold)
    ensures var s := Exec(FREE, before, timeout);
            var s' := Exec(Next(s, ReleaseAfter(w, delay), timeout), after, timeout);
            s'.now < s.now + delay ==> s'.inside == map[] && forall v :: Next(s', Acquire(v), timeout) == s'
  {
    var s := Exec(FREE, before, timeout);
    RunKeepsHeld(FREE, before, timeout, hold);
    AloneLeaves(s, w);
    var s1 := Next(s, ReleaseAfter(w, delay), timeout);
    if Exec(s1, after, timeout).now < s.now + delay {
      ClosedUntil(s1, after, timeout, hold, s.now + delay);
    }
  }

  /** A holder that crashes blocks the others until its timeout has run from the moment it entered,
      and no longer: from then on the next attempt gets the lock. */
  lemma CrashBlocksUntilTimeout(before: seq<Step>, w: int, after: seq<Step>, v: int, timeout: int, hold: int)
    requires 0 <= hold < timeout && Legal(FREE, before, timeout, hold)
    requires w in Exec(FREE, before, timeout).inside
    requires Legal(Next(Exec(FREE, before, timeout), Crash(w), timeout), after, timeout, hold)
    ensures var s := Exec(FREE, before, timeout);
            var s' := Exec(Next(s, Crash(w), timeout), after, timeout);
            var free := s.inside[w] + timeout;
            && (s'.now < free ==> s'.inside == map[] && Next(s', Acquire(v), timeout) == s')
            && (s'.now < free ==>
                  v in Next(Next(s', Tick(free - s'.now), timeout), Acquire(v), timeout).inside)
  {
    var s := Exec(FREE, before, timeout);
    RunKeepsHeld(FREE, before, timeout, hold);
    AloneLeaves(s, w);
    var s1 := Next(s, Crash(w), timeout);
    var until := s.inside[w] + timeout;
    if Exec(s1, after, timeout).now < until {
      ClosedUntil(s1, after, timeout, hold, until);
    }
  }
}
