/** Auditing an execution-order ledger: start and end events of one worker at a time, the
  order of the successful jobs, and the measured intervals of the finished ones.
  */
module OrderAudit {
  import opened Options
  import opened Sorting

  type Job = string

  /** `commandOk` stands for the checks of the recorded command line. */
  datatype Kind = Start(commandOk: bool) | Exit(code: int) | Interrupted | Other
  datatype Event = Event(job: Job, pid: int, epoch: real, kind: Kind)
  datatype Attempt = Attempt(start: Event, end: Event)
  {
    predicate Succeeded() { end.kind == Exit(0) }
  }

  // ------------------------------------------------------------------ the events

  predicate StartOk(expected: seq<Job>, e: Event) {
    e.job in expected && e.kind == Start(true)
  }

  /** An end event that closes `start`. */
  predicate EndOk(start: Event, e: Event) {
    && (e.kind.Exit? || e.kind.Interrupted?)
    && e.job == start.job && e.pid == start.pid && e.epoch >= start.epoch
  }

  predicate AttemptOk(expected: seq<Job>, a: Attempt) {
    StartOk(expected, a.start) && EndOk(a.start, a.end)
  }

  function Flat(attempts: seq<Attempt>): seq<Event> {
    if attempts == [] then [] else
    Flat(attempts[..|attempts| - 1]) + [attempts[|attempts| - 1].start, attempts[|attempts| - 1].end]
  }

  /** The events are whole attempts one after the other, then possibly one start. */
  ghost predicate Alternates(expected: seq<Job>, events: seq<Event>, attempts: seq<Attempt>, active: Option<Event>) {
    && (forall k :: 0 <= k < |attempts| ==> AttemptOk(expected, attempts[k]))
    && match active
       case None => events == Flat(attempts)
       case Some(e) => StartOk(expected, e) && events == Flat(attempts) + [e]
  }

  function Successful(attempts: seq<Attempt>): seq<Attempt> {
    if attempts == [] then [] else
    Successful(attempts[..|attempts| - 1]) +
      (if attempts[|attempts| - 1].Succeeded() then [attempts[|attempts| - 1]] else [])
  }

  function Jobs(attempts: seq<Attempt>): (jobs: seq<Job>)
    ensures |jobs| == |attempts| && forall k :: 0 <= k < |jobs| ==> jobs[k] == attempts[k].end.job
  {
    seq(|attempts|, k requires 0 <= k < |attempts| => attempts[k].end.job)
  }

  ghost predicate Distinct(jobs: seq<Job>) {
    forall i, j :: 0 <= i < j < |jobs| ==> jobs[i] != jobs[j]
  }

  function JobSet(attempts: seq<Attempt>): set<Job> {
    set k | 0 <= k < |attempts| :: attempts[k].end.job
  }

  lemma JobSetSnoc(attempts: seq<Attempt>)
    requires attempts != []
    ensures var n := |attempts| - 1;
            JobSet(attempts) == JobSet(attempts[..n]) + {attempts[n].end.job}
  {
    var n := |attempts| - 1;
    var init, job := attempts[..n], attempts[n].end.job;
    forall x ensures x in JobSet(attempts) <==> x in JobSet(init) + {job} {
      if x in JobSet(init) {
        var k :| 0 <= k < n && init[k].end.job == x;
        assert attempts[k].end.job == x;
      }
      if x in JobSet(attempts) && x != job {
        var k :| 0 <= k < |attempts| && attempts[k].end.job == x;
        assert init[k].end.job == x;
      }
    }
  }

  lemma DistinctSnoc(attempts: seq<Attempt>)
    requires attempts != []
    ensures var n := |attempts| - 1;
            Distinct(Jobs(attempts)) <==> Distinct(Jobs(attempts[..n])) && attempts[n].end.job !in JobSet(attempts[..n])
  {
    var n := |attempts| - 1;
    var init, job := attempts[..n], attempts[n].end.job;
    var some, all := Jobs(init), Jobs(attempts);
    if job in JobSet(init) {
      var k :| 0 <= k < n && init[k].end.job == job;
      assert all[k] == all[n];
    } else if Distinct(some) {
      forall i, j | 0 <= i < j < |all| ensures all[i] != all[j] {
        assert init[i].end.job in JobSet(init);
        if j < n { assert some[i] != some[j]; }
      }
    } else {
      var i, j :| 0 <= i < j < |some| && some[i] == some[j];
      assert all[i] == all[j];
    }
  }

  /** The number of different jobs tells whether one is repeated. */
  lemma {:induction false} CountedJobs(attempts: seq<Attempt>)
    ensures |JobSet(attempts)| <= |attempts|
    ensures |JobSet(attempts)| == |attempts| <==> Distinct(Jobs(attempts))
  {
    if attempts != [] {
      hide *;
      CountedJobs(attempts[..|attempts| - 1]);
      JobSetSnoc(attempts);
      DistinctSnoc(attempts);
    } else {
      assert JobSet(attempts) == {};
    }
  }

  /** What the audit accepts. */
  ghost predicate Accepts(expected: seq<Job>, events: seq<Event>, partial: bool, attempts: seq<Attempt>,
                          active: Option<Event>) {
    && Alternates(expected, events, attempts, active)
    && (partial || active == None)
    && Jobs(Successful(attempts)) <= expected
  }

  /** The event list determines the attempts and what is still running. */
  lemma AlternationUnique(expected: seq<Job>, events: seq<Event>, x: seq<Attempt>, a: Option<Event>, y: seq<Attempt>,
                          b: Option<Event>)
    requires Alternates(expected, events, x, a) && Alternates(expected, events, y, b)
    ensures x == y && a == b
  {
    FlatEven(x);
    FlatEven(y);
    assert Flat(x) == events[..2 * |x|] && Flat(y) == events[..2 * |y|];
    assert |x| == |y| && a == b;
    hide Flat, AttemptOk, Alternates;
    forall k | 0 <= k < |x| ensures x[k] == y[k] {
      FlatAt(x, k);
      FlatAt(y, k);
    }
  }

  lemma {:induction false} FlatAt(attempts: seq<Attempt>, k: nat)
    requires k < |attempts|
    ensures |Flat(attempts)| == 2 * |attempts|
    ensures Flat(attempts)[2 * k] == attempts[k].start && Flat(attempts)[2 * k + 1] == attempts[k].end
  {
    var init := attempts[..|attempts| - 1];
    FlatEven(init);
    if k < |init| { FlatAt(init, k); }
  }

  lemma {:induction false} FlatEven(attempts: seq<Attempt>)
    ensures |Flat(attempts)| == 2 * |attempts|
  {
    if attempts != [] { FlatEven(attempts[..|attempts| - 1]); }
  }

  datatype Audit = Rejected | Accepted(attempts: seq<Attempt>, successful: seq<Attempt>, active: Option<Event>)

  /** One pass over the events. */
  method AuditEvents(expected: seq<Job>, events: seq<Event>, partial: bool) returns (audit: Audit)
    requires Distinct(expected)
    ensures audit.Accepted? ==>
              Accepts(expected, events, partial, audit.attempts, audit.active)
                && audit.successful == Successful(audit.attempts)
    ensures audit.Rejected? ==> forall attempts, active :: !Accepts(expected, events, partial, attempts, active)
  {
    var active: Option<Event> := None;
    var attempts: seq<Attempt>, successful: seq<Attempt> := [], [];
    for k := 0 to |events|
      invariant Alternates(expected, events[..k], attempts, active)
      invariant successful == Successful(attempts)
    {
      var e := events[k];
      assert events[..k + 1] == events[..k] + [e];
      if e.kind.Start? {
        if e.job !in expected || active != None || !e.kind.commandOk {
          NoAlternation(expected, events, k, attempts, active);
          return Rejected;
        }
        active := Some(e);
      } else {
        if e.job !in expected || active == None || !EndOk(active.value, e) {
          NoAlternation(expected, events, k, attempts, active);
          return Rejected;
        }
        var attempt := Attempt(active.value, e);
        assert (attempts + [attempt])[..|attempts|] == attempts;
        attempts := attempts + [attempt];
        if e.kind.Exit? && e.kind.code == 0 {
          successful := successful + [attempt];
        }
        active := None;
      }
    }
    assert events[..|events|] == events;
    forall x, a | Alternates(expected, events, x, a) ensures x == attempts && a == active {
      AlternationUnique(expected, events, x, a, attempts, active);
    }
    CountedJobs(successful);
    if (!partial && active != None) || |JobSet(successful)| != |successful| || !(Jobs(successful) <= expected) {
      return Rejected;
    }
    audit := Accepted(attempts, successful, active);
  }

  /** Once an event does not fit, no continuation is acceptable. */
  lemma NoAlternation(expected: seq<Job>, events: seq<Event>, k: nat, attempts: seq<Attempt>, active: Option<Event>)
    requires k < |events| && Alternates(expected, events[..k], attempts, active)
    requires if active == None then !StartOk(expected, events[k])
             else !(events[k].job in expected && EndOk(active.value, events[k]))
    ensures forall x, a :: !Alternates(expected, events, x, a)
  {
    var seen := events[..k + 1];
    assert seen[..|seen| - 1] == events[..k];
    forall x, a ensures !Alternates(expected, events, x, a) {
      if Alternates(expected, events, x, a) {
        var y, b := PrefixAlternates(expected, events, k + 1, x, a);
        LastEvent(expected, seen, y, b, attempts, active);
      }
    }
  }

  /** The last event of an alternation fits the alternation without it. */
  lemma LastEvent(expected: seq<Job>, events: seq<Event>, y: seq<Attempt>, b: Option<Event>, z: seq<Attempt>,
                  c: Option<Event>)
    requires events != [] && Alternates(expected, events, y, b) && Alternates(expected, events[..|events| - 1], z, c)
    ensures var last := events[|events| - 1];
            if c == None then StartOk(expected, last) else last.job in expected && EndOk(c.value, last)
  {
    var n := |events| - 1;
    FlatEven(y);
    if b.Some? {
      assert events[..n] == Flat(y);
      AlternationUnique(expected, events[..n], z, c, y, None);
    } else {
      var y', last := y[..|y| - 1], y[|y| - 1];
      assert events[n] == last.end;
      assert events[..n] == Flat(y') + [last.start];
      AlternationUnique(expected, events[..n], z, c, y', Some(last.start));
    }
  }

  lemma {:induction false} PrefixAlternates(expected: seq<Job>, events: seq<Event>, k: nat, x: seq<Attempt>,
                                            a: Option<Event>)
    returns (y: seq<Attempt>, b: Option<Event>)
    requires k <= |events| && Alternates(expected, events, x, a)
    ensures Alternates(expected, events[..k], y, b)
    decreases |events|
  {
    if k == |events| {
      assert events[..k] == events;
      return x, a;
    }
    var n := |events| - 1;
    FlatEven(x);
    assert events[..n][..k] == events[..k];
    if a.Some? {
      assert events[..n] == Flat(x);
      y, b := PrefixAlternates(expected, events[..n], k, x, None);
    } else {
      var x', last := x[..|x| - 1], x[|x| - 1];
      assert events[..n] == Flat(x') + [last.start];
      y, b := PrefixAlternates(expected, events[..n], k, x', Some(last.start));
    }
  }

  /** In an accepted ledger the successful jobs are a duplicate-free prefix of the expected
      order, and no attempt starts before the previous one has ended in the ledger. */
  lemma AcceptedOrder(expected: seq<Job>, events: seq<Event>, partial: bool, attempts: seq<Attempt>,
                      active: Option<Event>)
    requires Distinct(expected) && Accepts(expected, events, partial, attempts, active)
    ensures Distinct(Jobs(Successful(attempts)))
    ensures |Successful(attempts)| <= |expected|
    ensures forall k :: 0 <= k < |Successful(attempts)| ==> Jobs(Successful(attempts))[k] == expected[k]
    ensures 2 * |attempts| <= |events|
    ensures forall k :: 0 <= k < |attempts| ==>
            events[2 * k] == attempts[k].start && events[2 * k + 1] == attempts[k].end
    ensures forall k :: 0 <= k < |attempts| ==>
              var start, end := events[2 * k], events[2 * k + 1];
              && start.kind == Start(true) && (end.kind.Exit? || end.kind.Interrupted?)
              && start.job == end.job && start.job in expected && start.pid == end.pid && start.epoch <= end.epoch
    ensures active.Some? ==> |events| == 2 * |attempts| + 1 && events[|events| - 1] == active.value
                             && active.value.kind == Start(true) && active.value.job in expected
    ensures active.None? ==> |events| == 2 * |attempts|
  {
    FlatEven(attempts);
    forall k | 0 <= k < |attempts|
      ensures Flat(attempts)[2 * k] == attempts[k].start && Flat(attempts)[2 * k + 1] == attempts[k].end
    {
      FlatAt(attempts, k);
    }
    assert |Jobs(Successful(attempts))| == |Successful(attempts)|;
  }

  // --------------------------------------------------------------- the intervals

  /** A measured job; `rank` stands for the rest of the tuple that is sorted. */
  datatype Interval = Interval(start: real, end: real, rank: int, job: Job)
  {
    predicate Before(other: Interval) {
      start < other.start || (start == other.start && (end < other.end || (end == other.end && rank <= other.rank)))
    }
  }

  function InOrder(): (Interval, Interval) -> bool {
    (x: Interval, y: Interval) => x.Before(y)
  }

  lemma OrderIsTotal()
    ensures TotalOrder(InOrder())
  {
  }

  predicate Apart(a: Interval, b: Interval) {
    a.end <= b.start || b.end <= a.start
  }

  predicate Adjacent(s: seq<Interval>) {
    forall k :: 0 < k < |s| ==> s[k - 1].end <= s[k].start
  }

  ghost predicate PairwiseApart(s: seq<Interval>) {
    forall i, j :: 0 <= i < j < |s| ==> Apart(s[i], s[j])
  }

  lemma {:induction false} AdjacentSpan(s: seq<Interval>, i: nat, j: nat)
    requires i < j < |s| && Adjacent(s) && forall k :: 0 <= k < |s| ==> s[k].start <= s[k].end
    ensures s[i].end <= s[j].start
    decreases j - i
  {
    if i + 1 < j { AdjacentSpan(s, i, j - 1); }
  }

  /** On sorted intervals the adjacent check decides pairwise non-overlap. */
  lemma AdjacentIffApart(s: seq<Interval>)
    requires Sorted(InOrder(), s) && forall k :: 0 <= k < |s| ==> s[k].start <= s[k].end
    ensures Adjacent(s) <==> PairwiseApart(s)
  {
    if Adjacent(s) {
      forall i, j | 0 <= i < j < |s| ensures Apart(s[i], s[j]) { AdjacentSpan(s, i, j); }
    }
    if PairwiseApart(s) {
      forall k | 0 < k < |s| ensures s[k - 1].end <= s[k].start {
        assert Apart(s[k - 1], s[k]) && InOrder()(s[k - 1], s[k]);
      }
    }
  }

  /** A measured job, with the process it ran in. */
  datatype Report = Report(interval: Interval, pid: int)

  function Named(successful: seq<Attempt>, job: Job): (r: Option<Attempt>)
    ensures r.Some? ==> r.value in successful && r.value.end.job == job
  {
    if successful == [] then None
    else if successful[|successful| - 1].end.job == job then Some(successful[|successful| - 1])
    else Named(successful[..|successful| - 1], job)
  }

  lemma {:induction false} NamedFinds(successful: seq<Attempt>, k: nat)
    requires k < |successful| && Distinct(Jobs(successful))
    ensures Named(successful, successful[k].end.job) == Some(successful[k])
    decreases |successful|
  {
    var n := |successful| - 1;
    if k < n {
      assert Jobs(successful)[k] != Jobs(successful)[n];
      forall i, j | 0 <= i < j < n ensures Jobs(successful[..n])[i] != Jobs(successful[..n])[j] {
        assert Jobs(successful)[i] != Jobs(successful)[j];
      }
      NamedFinds(successful[..n], k);
    }
  }

  ghost predicate Within(attempt: Attempt, report: Report) {
    && attempt.start.pid == report.pid
    && attempt.start.epoch <= report.interval.start <= report.interval.end <= attempt.end.epoch
  }

  ghost predicate Inside(successful: seq<Attempt>, report: Report) {
    exists a :: a in successful && a.end.job == report.interval.job && Within(a, report)
  }

  lemma InsideIsNamed(successful: seq<Attempt>, report: Report)
    requires Distinct(Jobs(successful))
    ensures Inside(successful, report) <==>
            var a := Named(successful, report.interval.job); a.Some? && Within(a.value, report)
  {
    if a :| a in successful && a.end.job == report.interval.job && Within(a, report) {
      var k :| 0 <= k < |successful| && successful[k] == a;
      NamedFinds(successful, k);
    }
  }

  function Intervals(reports: seq<Report>): (s: seq<Interval>)
    ensures |s| == |reports| && forall k :: 0 <= k < |s| ==> s[k] == reports[k].interval
  {
    seq(|reports|, k requires 0 <= k < |reports| => reports[k].interval)
  }

  function JobsOf(s: seq<Interval>): (jobs: seq<Job>)
    ensures |jobs| == |s| && forall k :: 0 <= k < |s| ==> jobs[k] == s[k].job
  {
    seq(|s|, k requires 0 <= k < |s| => s[k].job)
  }

  /** What a completed audit establishes: a finished ledger whose successful jobs are the
      expected ones in order, every report inside its job's attempt, and measured intervals
      that are pairwise apart and in the expected order. */
  ghost predicate Completed(expected: seq<Job>, events: seq<Event>, reports: seq<Report>, attempts: seq<Attempt>) {
    && Accepts(expected, events, false, attempts, None)
    && Jobs(Successful(attempts)) == expected
    && (forall k :: 0 <= k < |reports| ==> Inside(Successful(attempts), reports[k]))
    && JobsOf(Sort(InOrder(), Intervals(reports))) == expected
    && PairwiseApart(Intervals(reports))
  }

  /** Sorting and comparing neighbours decides non-overlap of intervals in any order. */
  lemma SortedCheckDecides(intervals: seq<Interval>)
    requires forall k :: 0 <= k < |intervals| ==> intervals[k].start <= intervals[k].end
    ensures Adjacent(Sort(InOrder(), intervals)) <==> PairwiseApart(intervals)
  {
    var ordered := Sort(InOrder(), intervals);
    OrderIsTotal();
    SortCorrect(InOrder(), intervals);
    forall k | 0 <= k < |ordered| ensures ordered[k].start <= ordered[k].end {
      assert ordered[k] in multiset(ordered);
    }
    AdjacentIffApart(ordered);
    hide *;
    if PairwiseApart(ordered) { ApartAnyOrder(ordered, intervals); }
    if PairwiseApart(intervals) { ApartAnyOrder(intervals, ordered); }
  }

  // ------------------------------------------------ times stamped into the ledger

  /** The times between which the ledger says each attempt ran. */
  function Stamps(attempts: seq<Attempt>): (s: seq<Interval>)
    ensures |s| == |attempts|
    ensures forall k :: 0 <= k < |s| ==>
            s[k] == Interval(attempts[k].start.epoch, attempts[k].end.epoch, k, attempts[k].end.job)
  {
    seq(|attempts|, k requires 0 <= k < |attempts| =>
      Interval(attempts[k].start.epoch, attempts[k].end.epoch, k, attempts[k].end.job))
  }

  /** The attempts of an accepted ledger did not overlap by their own stamps exactly when the
      neighbour check made on measured intervals passes on the sorted stamps, too. The audit
      does not make it. */
  lemma StampsApart(expected: seq<Job>, events: seq<Event>, attempts: seq<Attempt>, active: Option<Event>)
    requires Alternates(expected, events, attempts, active)
    ensures PairwiseApart(Stamps(attempts)) <==> Adjacent(Sort(InOrder(), Stamps(attempts)))
  {
    SortedCheckDecides(Stamps(attempts));
  }

  /** An accepted ledger whose attempts overlap by their stamps. */
  lemma StampsMayOverlap()
    ensures var a := Attempt(Event("a", 1, 5.0, Start(true)), Event("a", 1, 10.0, Exit(0)));
            var b := Attempt(Event("b", 2, 1.0, Start(true)), Event("b", 2, 7.0, Exit(0)));
            && Accepts(["a", "b"], [a.start, a.end, b.start, b.end], false, [a, b], None)
            && !PairwiseApart(Stamps([a, b]))
  {
    var a := Attempt(Event("a", 1, 5.0, Start(true)), Event("a", 1, 10.0, Exit(0)));
    var b := Attempt(Event("b", 2, 1.0, Start(true)), Event("b", 2, 7.0, Exit(0)));
    TwoAttempts(a, b);
    var s := Stamps([a, b]);
    assert !Apart(s[0], s[1]);
  }

  lemma TwoAttempts(a: Attempt, b: Attempt)
    ensures Flat([a, b]) == [a.start, a.end, b.start, b.end]
    ensures a.Succeeded() && b.Succeeded() ==> Jobs(Successful([a, b])) == [a.end.job, b.end.job]
  {
    var one := [a];
    assert [a, b][..1] == one && one[..0] == [];
    assert Flat(one) == [a.start, a.end];
    assert a.Succeeded() ==> Successful(one) == one;
    assert a.Succeeded() && b.Succeeded() ==> Successful([a, b]) == [a, b];
  }

  /** The measured intervals are compared in order of start, then end, then the rest. */
  lemma SortedByTimes(intervals: seq<Interval>)
    ensures var s := Sort(InOrder(), intervals);
            && multiset(s) == multiset(intervals) && |s| == |intervals|
            && forall i, j :: 0 <= i < j < |s| ==>
                 || s[i].start < s[j].start
                 || (s[i].start == s[j].start && s[i].end < s[j].end)
                 || (s[i].start == s[j].start && s[i].end == s[j].end && s[i].rank <= s[j].rank)
  {
    OrderIsTotal();
    SortCorrect(InOrder(), intervals);
    var s := Sort(InOrder(), intervals);
    forall i, j | 0 <= i < j < |s| ensures s[i].Before(s[j]) { assert InOrder()(s[i], s[j]); }
  }

  /** What a completed audit means for each report and each pair of reports, in times. */
  lemma CompletedInTimes(expected: seq<Job>, events: seq<Event>, reports: seq<Report>, attempts: seq<Attempt>)
    requires Completed(expected, events, reports, attempts)
    ensures forall k :: 0 <= k < |reports| ==>
              exists a :: a in attempts && RanInside(reports[k], a)
    ensures forall i, j :: 0 <= i < j < |reports| ==>
              var x, y := reports[i].interval, reports[j].interval; x.end <= y.start || y.end <= x.start
  {
    forall k | 0 <= k < |reports| ensures exists a :: a in attempts && RanInside(reports[k], a) {
      var a :| a in Successful(attempts) && a.end.job == reports[k].interval.job && Within(a, reports[k]);
      SuccessfulAmong(attempts, a);
    }
    var s := Intervals(reports);
    forall i, j | 0 <= i < j < |reports|
      ensures var x, y := reports[i].interval, reports[j].interval; x.end <= y.start || y.end <= x.start
    {
      assert Apart(s[i], s[j]);
    }
  }

  /** The report's job ended with exit code zero in the attempt, in the same process, and its
      measured interval lies between the attempt's two stamps. */
  ghost predicate RanInside(report: Report, a: Attempt) {
    && a.end.kind == Exit(0) && a.end.job == report.interval.job && a.start.pid == report.pid
    && a.start.epoch <= report.interval.start && report.interval.end <= a.end.epoch
  }

  lemma {:induction false} SuccessfulAmong(attempts: seq<Attempt>, a: Attempt)
    ensures a in Successful(attempts) <==> a in attempts && a.end.kind == Exit(0)
  {
    if attempts != [] {
      var init, last := attempts[..|attempts| - 1], attempts[|attempts| - 1];
      assert attempts == init + [last];
      SuccessfulAmong(init, a);
    }
  }

  /** Only adjacent intervals are compared, after sorting. */
  method CheckIntervals(expected: seq<Job>, intervals: seq<Interval>) returns (ok: bool)
    requires forall k :: 0 <= k < |intervals| ==> intervals[k].start <= intervals[k].end
    ensures ok <==> JobsOf(Sort(InOrder(), intervals)) == expected && PairwiseApart(intervals)
  {
    var ordered := Sort(InOrder(), intervals);
    SortedCheckDecides(intervals);
    ok := JobsOf(ordered) == expected && Adjacent(ordered);
  }

  method AuditCompleted(expected: seq<Job>, events: seq<Event>, reports: seq<Report>) returns (ok: bool)
    requires Distinct(expected)
    requires forall k :: 0 <= k < |reports| ==> reports[k].interval.start <= reports[k].interval.end
    ensures ok <==> exists attempts :: Completed(expected, events, reports, attempts)
  {
    hide Accepts, Inside, Sort, PairwiseApart;
    var audit := AuditEvents(expected, events, false);
    if audit.Rejected? {
      return false;
    }
    OnlyThese(expected, events, audit.attempts, audit.active);
    if Jobs(audit.successful) != expected {
      return false;
    }
    for k := 0 to |reports|
      invariant forall i :: 0 <= i < k ==> Inside(audit.successful, reports[i])
    {
      InsideIsNamed(audit.successful, reports[k]);
      var attempt := Named(audit.successful, reports[k].interval.job);
      if attempt.None? {
        return false;
      }
      var start, end, measured := attempt.value.start, attempt.value.end, reports[k].interval;
      if start.pid != reports[k].pid {
        return false;
      }
      if measured.start < start.epoch || measured.end < measured.start || end.epoch < measured.end {
        return false;
      }
    }
    ok := CheckIntervals(expected, Intervals(reports));
    if ok {
      assert Completed(expected, events, reports, audit.attempts);
    }
  }

  lemma OnlyThese(expected: seq<Job>, events: seq<Event>, attempts: seq<Attempt>, active: Option<Event>)
    requires Accepts(expected, events, false, attempts, active)
    ensures active == None
    ensures forall other, a :: Accepts(expected, events, false, other, a) ==> other == attempts
  {
    forall other, a | Accepts(expected, events, false, other, a) ensures other == attempts {
      AlternationUnique(expected, events, other, a, attempts, active);
    }
  }

  /** Non-overlap does not depend on the order the intervals are listed in. */
  lemma ApartAnyOrder(x: seq<Interval>, y: seq<Interval>)
    requires multiset(x) == multiset(y) && PairwiseApart(x)
    ensures PairwiseApart(y)
  {
    forall i, j | 0 <= i < j < |y| ensures Apart(y[i], y[j]) {
      if y[i] == y[j] {
        TwoCopies(y, i, j);
        var k, l := FindCopies(x, y[i]);
        assert Apart(x[k], x[l]);
      } else {
        assert y[i] in multiset(x) && y[j] in multiset(x);
        var k :| 0 <= k < |x| && x[k] == y[i];
        var l :| 0 <= l < |x| && x[l] == y[j];
        assert k < l || l < k;
      }
    }
  }

  lemma TwoCopies(s: seq<Interval>, i: nat, j: nat)
    requires i < j < |s| && s[i] == s[j]
    ensures multiset(s)[s[i]] >= 2
  {
    assert s == s[..j] + s[j..];
    assert s[i] == s[..j][i] && s[j] == s[j..][0];
    assert s[i] in multiset(s[..j]) && s[j] in multiset(s[j..]);
  }

  lemma {:induction false} FindCopies(s: seq<Interval>, x: Interval) returns (k: nat, l: nat)
    requires multiset(s)[x] >= 2
    ensures k < l < |s| && s[k] == s[l] == x
    decreases |s|
  {
    var n := |s| - 1;
    assert s == s[..n] + [s[n]];
    if s[n] == x {
      assert x in multiset(s[..n]);
      k :| 0 <= k < n && s[..n][k] == x;
      l := n;
    } else {
      k, l := FindCopies(s[..n], x);
    }
  }
}
