/**
 The sliding rate window. The claim looks back one period from its own clock and admits
 while fewer than rate_limit rows carry a claimed_at inside; what follows is a bound on
 every window of that length, wherever it starts.
 */
module RateWindow {
  import opened Claims
  import opened Lifecycle
  import opened Sets
  import opened Wrappers

  /** Claim i of the run admitted a row of this scope, stamping it inside [x, x + period). */
  predicate AdmitsIn(s: State, e: Event, q: Queue, scope: Scope, x: int, period: int) {
    && e.Claim? && e.out.Some? && e.out.value in s.rows && InScope(s.rows[e.out.value], q, scope)
    && x <= e.now < x + period
  }

  /** The distinct jobs that the first n steps admitted inside the window. */
  function JobsAdmitted(tr: seq<State>, es: seq<Event>, n: nat, q: Queue, scope: Scope, x: int, period: int): set<JobId>
    requires n <= |es| < |tr|
  {
    if n == 0 then {} else
    var earlier := JobsAdmitted(tr, es, n - 1, q, scope, x, period);
    if AdmitsIn(tr[n - 1], es[n - 1], q, scope, x, period) then earlier + {es[n - 1].out.value} else earlier
  }

  /** How often the first n steps admitted inside the window, counting re-admissions. */
  function Admissions(tr: seq<State>, es: seq<Event>, n: nat, q: Queue, scope: Scope, x: int, period: int): nat
    requires n <= |es| < |tr|
  {
    if n == 0 then 0 else
    var earlier := Admissions(tr, es, n - 1, q, scope, x, period);
    if AdmitsIn(tr[n - 1], es[n - 1], q, scope, x, period) then earlier + 1 else earlier
  }

  /** The limit in force for the whole run. */
  ghost predicate Limited(tr: seq<State>, es: seq<Event>, q: Queue, limit: int, period: int, partitioned: bool) {
    && |tr| == |es| + 1
    && forall i :: 0 <= i < |es| ==>
         && ControlOf(tr[i], q).rateLimit == Some(limit) && ControlOf(tr[i], q).ratePeriod == period
         && ControlOf(tr[i], q).partitionLimits == partitioned
  }

  /** No row is admitted again with an earlier stamp than it has. */
  predicate KeepsForward(s: State, e: Event) {
    e.Claim? && e.out.Some? && e.out.value in s.rows ==> !StampedAfter(s.rows[e.out.value], e.now)
  }

  ghost predicate StampsForward(tr: seq<State>, es: seq<Event>) {
    forall i :: 0 <= i < |es| && i < |tr| ==> KeepsForward(tr[i], es[i])
  }

  /** The step deletes a row of this scope that is stamped at x or later. */
  predicate Purges(s: State, e: Event, q: Queue, scope: Scope, x: int) {
    e.Delete? && e.row in s.rows && InScope(s.rows[e.row], q, scope) && StampedAfter(s.rows[e.row], x - 1)
  }

  /** The rows that the first n steps deleted although they were stamped at x or later. */
  function Purged(tr: seq<State>, es: seq<Event>, n: nat, q: Queue, scope: Scope, x: int): set<JobId>
    requires n <= |es| < |tr|
  {
    if n == 0 then {} else
    var earlier := Purged(tr, es, n - 1, q, scope, x);
    if Purges(tr[n - 1], es[n - 1], q, scope, x) then earlier + {es[n - 1].row} else earlier
  }

  /** Some delete among them took the row while it was of this scope and stamped at x or later. */
  lemma {:induction false} PurgedMeans(tr: seq<State>, es: seq<Event>, n: nat, q: Queue, scope: Scope, x: int, id: JobId)
    requires n <= |es| < |tr|
    ensures id in Purged(tr, es, n, q, scope, x) <==>
      exists i :: 0 <= i < n && es[i] == Delete(id) && id in tr[i].rows && InScope(tr[i].rows[id], q, scope)
        && tr[i].rows[id].claimedAt.Some? && tr[i].rows[id].claimedAt.value >= x
  {
    if n > 0 {
      PurgedMeans(tr, es, n - 1, q, scope, x, id);
    }
  }

  /** The limit, but for the one row that a limit of zero or less still lets into an empty lane. */
  function RateCeiling(limit: int, partitioned: bool): nat {
    if limit >= 1 then limit else if partitioned then 1 else 0
  }

  lemma StampSurvives(s: State, e: Event, s': State, q: Queue, scope: Scope, x: int, id: JobId)
    requires Next(s, e, s') && KeepsForward(s, e)
    requires id in s.rows && InScope(s.rows[id], q, scope) && StampedAfter(s.rows[id], x - 1)
    ensures (Purges(s, e, q, scope, x) && e.row == id)
            || (id in s'.rows && InScope(s'.rows[id], q, scope) && StampedAfter(s'.rows[id], x - 1))
  {
  }

  /** Everything admitted in the window has been purged, or is still stamped no earlier than its start. */
  lemma {:induction false} AdmittedStayStamped(tr: seq<State>, es: seq<Event>, n: nat, q: Queue, scope: Scope, x: int, period: int)
    requires Behavior(tr, es) && n <= |es| && StampsForward(tr, es)
    ensures JobsAdmitted(tr, es, n, q, scope, x, period)
      <= AdmittedIn(tr[n].rows, q, scope, x - 1) + Purged(tr, es, n, q, scope, x)
  {
    if n > 0 {
      AdmittedStayStamped(tr, es, n - 1, q, scope, x, period);
      assert Next(tr[n - 1], es[n - 1], tr[n]) && KeepsForward(tr[n - 1], es[n - 1]);
      var before, after := AdmittedIn(tr[n - 1].rows, q, scope, x - 1), AdmittedIn(tr[n].rows, q, scope, x - 1);
      forall id | id in before ensures id in after || id in Purged(tr, es, n, q, scope, x) {
        StampSurvives(tr[n - 1], es[n - 1], tr[n], q, scope, x, id);
      }
    }
  }

  /** An admission finds the trailing period below the limit, or its lane empty. */
  lemma AdmissionHadRoom(s: State, e: Event, s': State, q: Queue, scope: Scope, x: int, period: int, limit: int)
    requires Next(s, e, s') && AdmitsIn(s, e, q, scope, x, period)
    requires ControlOf(s, q).rateLimit == Some(limit) && ControlOf(s, q).ratePeriod == period
    requires Counted(ControlOf(s, q), scope)
    ensures |AdmittedIn(s.rows, q, scope, e.now - period)| < RateCeiling(limit, ControlOf(s, q).partitionLimits)
  {
    assert e.worker.queue == q;
    BlockedMeans(s.rows, ControlOf(s, q), q, e.now, s.rows[e.out.value].lane);
  }

  /** At most all of two sets. */
  lemma UnionSize(a: set<JobId>, b: set<JobId>, c: set<JobId>)
    requires a <= b + c
    ensures |a| <= |b| + |c|
  {
    SubsetSize(a, b + c);
    assert b + c == b + (c - b);
    SubsetSize(c - b, c);
  }

  /** Every window of the period's length admits at most rate_limit distinct jobs, and one more for each row purged from it. */
  lemma {:induction false} WindowAdmitsAtMostTheLimit(tr: seq<State>, es: seq<Event>, n: nat, q: Queue, scope: Scope,
                                                      x: int, limit: int, period: int, partitioned: bool)
    requires Behavior(tr, es) && n <= |es| && Limited(tr, es, q, limit, period, partitioned)
    requires partitioned <==> scope.OfLane?
    requires StampsForward(tr, es)
    ensures |JobsAdmitted(tr, es, n, q, scope, x, period)| <= RateCeiling(limit, partitioned) + |Purged(tr, es, n, q, scope, x)|
  {
    if n > 0 {
      var jobs, purged := JobsAdmitted(tr, es, n - 1, q, scope, x, period), Purged(tr, es, n - 1, q, scope, x);
      if AdmitsIn(tr[n - 1], es[n - 1], q, scope, x, period) {
        var recent := AdmittedIn(tr[n - 1].rows, q, scope, es[n - 1].now - period);
        AdmittedStayStamped(tr, es, n - 1, q, scope, x, period);
        assert jobs <= recent + purged;
        UnionSize(jobs, recent, purged);
        assert Next(tr[n - 1], es[n - 1], tr[n]);
        AdmissionHadRoom(tr[n - 1], es[n - 1], tr[n], q, scope, x, period, limit);
      } else {
        WindowAdmitsAtMostTheLimit(tr, es, n - 1, q, scope, x, limit, period, partitioned);
        SubsetSize(purged, Purged(tr, es, n, q, scope, x));
      }
    }
  }

  // ------------------------------------------------------------------ a monotone clock

  /** No claim's clock is behind an earlier claim's, or behind a stamp the run starts with. */
  ghost predicate MonotoneClock(tr: seq<State>, es: seq<Event>) {
    && (forall i, j :: 0 <= i < j < |es| && es[i].Claim? && es[j].Claim? ==> es[i].now <= es[j].now)
    && (forall j, id :: 0 <= j < |es| && es[j].Claim? && |tr| > 0 && id in tr[0].rows ==> !StampedAfter(tr[0].rows[id], es[j].now))
  }

  lemma {:induction false} StampsBehindClock(tr: seq<State>, es: seq<Event>, i: nat, j: nat, id: JobId)
    requires Behavior(tr, es) && MonotoneClock(tr, es) && i <= j < |es| && es[j].Claim? && id in tr[i].rows
    ensures !StampedAfter(tr[i].rows[id], es[j].now)
  {
    if i > 0 {
      assert Next(tr[i - 1], es[i - 1], tr[i]);
      if id in tr[i - 1].rows {
        StampsBehindClock(tr, es, i - 1, j, id);
      }
    }
  }

  lemma MonotoneMeansForward(tr: seq<State>, es: seq<Event>)
    requires Behavior(tr, es) && MonotoneClock(tr, es)
    ensures StampsForward(tr, es)
  {
    forall i | 0 <= i < |es| ensures KeepsForward(tr[i], es[i]) {
      if es[i].Claim? && es[i].out.Some? && es[i].out.value in tr[i].rows {
        StampsBehindClock(tr, es, i, i, es[i].out.value);
      }
    }
  }

  /** Under a monotone clock a window admits no more than the limit and what was purged from it. */
  lemma RateHoldsButForPurges(tr: seq<State>, es: seq<Event>, q: Queue, scope: Scope, x: int,
                              limit: int, period: int, partitioned: bool)
    requires Behavior(tr, es) && Limited(tr, es, q, limit, period, partitioned)
    requires partitioned <==> scope.OfLane?
    requires MonotoneClock(tr, es)
    ensures |JobsAdmitted(tr, es, |es|, q, scope, x, period)|
      <= RateCeiling(limit, partitioned) + |Purged(tr, es, |es|, q, scope, x)|
  {
    MonotoneMeansForward(tr, es);
    WindowAdmitsAtMostTheLimit(tr, es, |es|, q, scope, x, limit, period, partitioned);
  }

  /** So a window is over the limit only if a row was purged from it while its period lasted. */
  lemma RateHolds(tr: seq<State>, es: seq<Event>, q: Queue, scope: Scope, x: int, limit: int, period: int, partitioned: bool)
    requires Behavior(tr, es) && Limited(tr, es, q, limit, period, partitioned) && limit >= 1
    requires partitioned <==> scope.OfLane?
    requires MonotoneClock(tr, es)
    ensures Purged(tr, es, |es|, q, scope, x) == {} ==> |JobsAdmitted(tr, es, |es|, q, scope, x, period)| <= limit
  {
    RateHoldsButForPurges(tr, es, q, scope, x, limit, period, partitioned);
  }

  /** No job is admitted twice inside the window. */
  ghost predicate NoneReadmitted(tr: seq<State>, es: seq<Event>, q: Queue, scope: Scope, x: int, period: int) {
    forall i, j :: 0 <= i < j < |es| < |tr|
      && AdmitsIn(tr[i], es[i], q, scope, x, period) && AdmitsIn(tr[j], es[j], q, scope, x, period)
      ==> es[i].out != es[j].out
  }

  lemma {:induction false} AdmittedByStep(tr: seq<State>, es: seq<Event>, n: nat, q: Queue, scope: Scope, x: int, period: int,
                                          id: JobId) returns (i: nat)
    requires n <= |es| < |tr| && id in JobsAdmitted(tr, es, n, q, scope, x, period)
    ensures i < n && AdmitsIn(tr[i], es[i], q, scope, x, period) && es[i].out == Some(id)
  {
    if AdmitsIn(tr[n - 1], es[n - 1], q, scope, x, period) && es[n - 1].out == Some(id) {
      i := n - 1;
    } else {
      i := AdmittedByStep(tr, es, n - 1, q, scope, x, period, id);
    }
  }

  lemma NotAdmittedBefore(tr: seq<State>, es: seq<Event>, n: nat, q: Queue, scope: Scope, x: int, period: int)
    requires n < |es| < |tr| && NoneReadmitted(tr, es, q, scope, x, period)
    requires AdmitsIn(tr[n], es[n], q, scope, x, period)
    ensures es[n].out.value !in JobsAdmitted(tr, es, n, q, scope, x, period)
  {
    if es[n].out.value in JobsAdmitted(tr, es, n, q, scope, x, period) {
      var i := AdmittedByStep(tr, es, n, q, scope, x, period, es[n].out.value);
    }
  }

  lemma {:induction false} AdmissionsAreJobs(tr: seq<State>, es: seq<Event>, n: nat, q: Queue, scope: Scope, x: int, period: int)
    requires n <= |es| < |tr| && NoneReadmitted(tr, es, q, scope, x, period)
    ensures Admissions(tr, es, n, q, scope, x, period) == |JobsAdmitted(tr, es, n, q, scope, x, period)|
  {
    if n > 0 {
      AdmissionsAreJobs(tr, es, n - 1, q, scope, x, period);
      if AdmitsIn(tr[n - 1], es[n - 1], q, scope, x, period) {
        NotAdmittedBefore(tr, es, n - 1, q, scope, x, period);
      }
    }
  }

  /** Admissions are bounded in the same way, when no job is re-admitted inside the window. */
  lemma AdmissionsAreBounded(tr: seq<State>, es: seq<Event>, q: Queue, scope: Scope, x: int, limit: int, period: int, partitioned: bool)
    requires Behavior(tr, es) && Limited(tr, es, q, limit, period, partitioned)
    requires partitioned <==> scope.OfLane?
    requires MonotoneClock(tr, es) && NoneReadmitted(tr, es, q, scope, x, period)
    ensures Admissions(tr, es, |es|, q, scope, x, period)
      <= RateCeiling(limit, partitioned) + |Purged(tr, es, |es|, q, scope, x)|
  {
    RateHoldsButForPurges(tr, es, q, scope, x, limit, period, partitioned);
    AdmissionsAreJobs(tr, es, |es|, q, scope, x, period);
  }

  // ----------------------------------------------------------------------- what a purge does

  lemma PurgeUncounts(t: Table, q: Queue, scope: Scope, since: int, id: JobId)
    requires id in t
    ensures AdmittedIn(t - {id}, q, scope, since) == AdmittedIn(t, q, scope, since) - {id}
    ensures id in AdmittedIn(t, q, scope, since) <==> InScope(t[id], q, scope) && StampedAfter(t[id], since)
  {
  }

  /**
   The purge's own guard: where the limit holds claims back, deleting a row lets one through
   if and only if the row is counted, being of the scope and inside its period, and the
   window is exactly full. Whoever deletes can look at both beforehand.
   */
  lemma PurgeReopensIff(t: Table, c: Control, q: Queue, scope: Scope, now: int, id: JobId)
    requires id in t && AtRate(t, c, q, scope, now)
    ensures !AtRate(t - {id}, c, q, scope, now) <==>
      && InScope(t[id], q, scope) && StampedAfter(t[id], now - c.ratePeriod)
      && |AdmittedIn(t, q, scope, now - c.ratePeriod)| == c.rateLimit.value
  {
    PurgeUncounts(t, q, scope, now - c.ratePeriod, id);
  }

  /**
   On the claim itself: with the window exactly full and nothing else against it, a row is
   out of the claim's reach, and the delete of another puts it there exactly when that
   other was inside its period.
   */
  lemma PurgeAdmitsIff(t: Table, c: Control, w: Worker, now: int, id: JobId, next: JobId)
    requires id in t && next in t && next != id && Eligible(t[next], w, now)
    requires !c.paused && c.rateLimit.Some? && c.rateLimit.value >= 1
    requires !AtCap(t - {id}, c, w.queue, ScopeOf(c, t[next]))
    requires |AdmittedIn(t, w.queue, ScopeOf(c, t[next]), now - c.ratePeriod)| == c.rateLimit.value
    ensures !InReach(t, c, w, now, next)
    ensures InReach(t - {id}, c, w, now, next) <==>
      InScope(t[id], w.queue, ScopeOf(c, t[next])) && StampedAfter(t[id], now - c.ratePeriod)
  {
    ReachMeans(t, c, w, now, next);
    ReachMeans(t - {id}, c, w, now, next);
    PurgeReopensIff(t, c, w.queue, ScopeOf(c, t[next]), now, id);
  }

  // ---------------------------------------------------------- the bound is attained

  /** One job queued, in flight, finished; a limit of one a period on its queue. */
  function At(state: JobState, claimedAt: Option<int>): Job {
    Job("q", None, 0, None, None, 0, state, claimedAt)
  }

  function Limits(): map<Queue, Control> {
    map["q" := Control(false, None, Some(1), 60, false)]
  }

  function Anyone(): Worker {
    Worker("q", {}, 0, None)
  }

  lemma FirstInIsServed(id: JobId)
    ensures var s := State(map[id := At(Queued, None)], Limits());
      var e := Claim(Anyone(), 0, {}, Some(id));
      && Next(s, e, State(map[id := At(Claimed, Some(0))], Limits())) && AdmitsIn(s, e, "q", WholeQueue, 0, 60)
  {
    var t: Table := map[id := At(Queued, None)];
    var c := Limits()["q"];
    assert AdmittedIn(t, "q", WholeQueue, -60) == {};
    assert id in Candidates(t, c, Anyone(), 0, {});
    assert Admit(t, Some(id), 0) == map[id := At(Claimed, Some(0))];
  }

  function PurgeStates(): seq<State> {
    [State(map[0 := At(Queued, None)], Limits()), State(map[0 := At(Claimed, Some(0))], Limits()), State(map[], Limits()),
     State(map[1 := At(Queued, None)], Limits()), State(map[1 := At(Claimed, Some(0))], Limits())]
  }

  function PurgeEvents(): seq<Event> {
    [Claim(Anyone(), 0, {}, Some(0)), Delete(0), Write(1, At(Queued, None)), Claim(Anyone(), 0, {}, Some(1))]
  }

  lemma PurgeRunIsOne()
    ensures Behavior(PurgeStates(), PurgeEvents()) && Limited(PurgeStates(), PurgeEvents(), "q", 1, 60, false)
    ensures MonotoneClock(PurgeStates(), PurgeEvents())
  {
    var tr, es := PurgeStates(), PurgeEvents();
    FirstInIsServed(0);
    FirstInIsServed(1);
    assert tr[1].rows - {0} == map[];
    forall i | 0 <= i < |es| ensures Next(tr[i], es[i], tr[i + 1]) {
    }
  }

  /** A row purged inside its period lets a second job in against a limit of one: as many more as were purged. */
  lemma DeletionBreaksTheBound()
    ensures var tr, es := PurgeStates(), PurgeEvents();
      && Behavior(tr, es) && Limited(tr, es, "q", 1, 60, false) && MonotoneClock(tr, es)
      && JobsAdmitted(tr, es, |es|, "q", WholeQueue, 0, 60) == {0, 1} && Purged(tr, es, |es|, "q", WholeQueue, 0) == {0}
  {
    PurgeRunIsOne();
    FirstInIsServed(0);
    FirstInIsServed(1);
    var tr, es := PurgeStates(), PurgeEvents();
    assert JobsAdmitted(tr, es, 1, "q", WholeQueue, 0, 60) == {0} && Purged(tr, es, 1, "q", WholeQueue, 0) == {};
    assert JobsAdmitted(tr, es, 2, "q", WholeQueue, 0, 60) == {0} && Purged(tr, es, 2, "q", WholeQueue, 0) == {0};
    assert JobsAdmitted(tr, es, 3, "q", WholeQueue, 0, 60) == {0} && Purged(tr, es, 3, "q", WholeQueue, 0) == {0};
  }
}
