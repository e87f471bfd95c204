/** A pruning run of the database job is two steps of the machine that reports and pruning share. */
module PruneSteps {
  import R = Reports
  import C = DbClean

  /** The tables as the machine sees them; `about` is the message each release record is for. */
  ghost predicate Seen(t: C.Tables, about: map<int, int>, s: R.State) {
    && t.messages.Keys == s.messages.Keys
    && (forall id :: id in t.messages ==> t.messages[id].timestamp == s.messages[id].timestamp)
    && t.releases.Keys <= about.Keys
    && (forall r :: r in s.releases <==> exists k :: k in t.releases && r == R.Release(about[k], t.releases[k]))
  }

  lemma MoveIsStep(c: R.Config, t: C.Tables, about: map<int, int>, s: R.State, p: int, keep: int)
    requires Seen(t, about, s) && p <= s.lock.now && c.keep <= keep <= c.longest
    ensures Seen(C.Moved(t, p - keep), about, R.Next(c, s, R.MoveMessages(p, keep)))
  {
    var t', s' := C.Moved(t, p - keep), R.Next(c, s, R.MoveMessages(p, keep));
    assert forall id :: id in t'.messages <==> id in s'.messages;
    PruneReleases(t.releases, s.releases, about, p - keep);
  }

  lemma PruneReleases(releases: map<int, int>, seen: set<R.Release>, about: map<int, int>, date: int)
    requires releases.Keys <= about.Keys
    requires forall r :: r in seen <==> exists k :: k in releases && r == R.Release(about[k], releases[k])
    ensures forall r :: r in seen && r.stamp >= date <==>
              exists k :: k in C.Pruned(releases, date) && r == R.Release(about[k], C.Pruned(releases, date)[k])
  {
    forall r | r in seen && r.stamp >= date
      ensures exists k :: k in C.Pruned(releases, date) && r == R.Release(about[k], C.Pruned(releases, date)[k])
    {
      var k :| k in releases && r == R.Release(about[k], releases[k]);
      assert k in C.Pruned(releases, date);
    }
  }

  lemma DropIsStep(c: R.Config, t: C.Tables, about: map<int, int>, s: R.State, p: int, msgsDate: int, archiveDate: int)
    requires Seen(t, about, s) && p in s.cleaned
    ensures Seen(C.Trimmed(t, msgsDate, archiveDate, p - R.RETAIN), about, R.Next(c, s, R.DropReleases(p)))
  {
    PruneReleases(t.releases, s.releases, about, p - R.RETAIN);
  }

  lemma CleanIsSteps(c: R.Config, t: C.Tables, about: map<int, int>, s: R.State, p: int, keep: int, archiveDate: int)
    requires Seen(t, about, s) && p <= s.lock.now && c.keep <= keep <= c.longest && !C.Conflict(t, p - keep)
    ensures var s1 := R.Next(c, s, R.MoveMessages(p, keep));
            R.Enabled(c, s1, R.DropReleases(p))
            && Seen(C.Cleaned(t, p - keep, archiveDate, p - R.RETAIN), about, R.Next(c, s1, R.DropReleases(p)))
  {
    MoveIsStep(c, t, about, s, p, keep);
    DropIsStep(c, C.Moved(t, p - keep), about, R.Next(c, s, R.MoveMessages(p, keep)), p, p - keep, archiveDate);
  }

  lemma BothSteps(c: R.Config, s: R.State, p: int, keep: int) returns (steps: seq<R.Step>)
    requires p <= s.lock.now && c.keep <= keep <= c.longest
    ensures R.Legal(c, s, steps)
    ensures R.Exec(c, s, steps) == R.Next(c, R.Next(c, s, R.MoveMessages(p, keep)), R.DropReleases(p))
    ensures R.Exec(c, s, steps).sent == s.sent && R.Exec(c, s, steps).lock == s.lock
  {
    steps := R.Extend(c, s, [], R.MoveMessages(p, keep));
    steps := R.Extend(c, s, steps, R.DropReleases(p));
  }

  lemma CleanedWithout(c: R.Config, t: C.Tables, about: map<int, int>, s: R.State, p: int, msgsDate: int,
                       archiveDate: int,
                       releasesDate: int) returns (steps: seq<R.Step>)
    requires Seen(t, about, s) && p <= s.lock.now && c.keep <= p - msgsDate <= c.longest
    requires releasesDate == p - R.RETAIN && !C.Conflict(t, msgsDate)
    ensures R.Legal(c, s, steps)
    ensures Seen(C.Cleaned(t, msgsDate, archiveDate, releasesDate), about, R.Exec(c, s, steps))
    ensures R.Exec(c, s, steps).sent == s.sent && R.Exec(c, s, steps).lock == s.lock
  {
    var keep := p - msgsDate;
    assert msgsDate == p - keep;
    CleanIsSteps(c, t, about, s, p, keep, archiveDate);
    steps := BothSteps(c, s, p, keep);
  }

  lemma CleanedIsSteps(c: R.Config, t: C.Tables, about: map<int, int>, s: R.State, p: int, msgsDate: int,
                       archiveDate: int,
                       releasesDate: int) returns (steps: seq<R.Step>)
    requires Seen(t, about, s) && p <= s.lock.now && c.keep <= p - msgsDate <= c.longest
    requires releasesDate == p - R.RETAIN
    ensures R.Legal(c, s, steps)
    ensures Seen(C.Cleaned(t, msgsDate, archiveDate, releasesDate), about, R.Exec(c, s, steps))
    ensures R.Exec(c, s, steps).sent == s.sent && R.Exec(c, s, steps).lock == s.lock
  {
    if C.Conflict(t, msgsDate) {
      steps := [];
    } else {
      steps := CleanedWithout(c, t, about, s, p, msgsDate, archiveDate, releasesDate);
    }
  }

  /** How long a run keeps messages, by its option or the configuration. */
  function KeepTime(daysOption: int, keepDays: int): int { -C.Cutoff(0, daysOption, keepDays) }

  /** Whatever a run at clock `p` commits, with its cutoffs from its options and configuration, is what
      steps of the machine do to the messages and release records, reports and lock aside; so what
      holds of all runs of the machine holds with the job itself in them, each run with its own options. */
  lemma CommandIsSteps(c: R.Config, t: C.Tables, about: map<int, int>, s: R.State, p: int, daysOption: int,
                       keepDays: int,
                       archiveDate: int) returns (steps: seq<R.Step>)
    requires Seen(t, about, s) && p <= s.lock.now
    requires c.keep <= KeepTime(daysOption, keepDays) <= c.longest
    ensures R.Legal(c, s, steps)
    ensures Seen(C.Cleaned(t, C.Cutoff(p, daysOption, keepDays), archiveDate, C.Cutoff(p, 2, 2)), about,
              R.Exec(c, s, steps))
    ensures R.Exec(c, s, steps).sent == s.sent && R.Exec(c, s, steps).lock == s.lock
  {
    steps := CleanedIsSteps(c, t, about, s, p, C.Cutoff(p, daysOption, keepDays), archiveDate, C.Cutoff(p, 2, 2));
  }
}
