/**
 The claim allocator: which queued row `claim_jorb` hands to a worker, what its queue's
 limits decline, and what runs of it keep. The limits are counted over the queue, or over
 the job's lane (its partition_key) on a partitioned queue, NULL counting as one of them.
 */
module Claims {
  import opened Lifecycle
  import opened Sets
  import opened Wrappers

  type JobId = nat
  type GroupId = nat
  type Queue = string
  type LaneKey = string

  /** A jorb row. The claim itself does not read the wait columns. */
  datatype Job = Job(queue: Queue, lane: Option<LaneKey>, prio: int, capability: Option<string>,
                     version: Option<string>, runAfter: int, state: JobState, claimedAt: Option<int>,
                     waitforJob: Option<JobId> := None, waitforGroup: Option<GroupId> := None,
                     runGroup: Option<GroupId> := None)

  type Table = map<JobId, Job>

  /** A jorb_queue row. A queue without one is `Uncontrolled`. */
  datatype Control = Control(paused: bool, maxConcurrency: Option<int>, rateLimit: Option<int>,
                             ratePeriod: int, partitionLimits: bool)

  datatype Worker = Worker(queue: Queue, capabilities: set<string>, maxPrio: int, version: Option<string>)

  /** The rows a limit is counted over. */
  datatype Scope = WholeQueue | OfLane(lane: Option<LaneKey>)

  /** A set of lanes as the claim holds it: named keys, and a flag for the NULL lane. */
  datatype Lanes = Lanes(keys: set<LaneKey>, nulls: bool)

  function Uncontrolled(): Control {
    Control(false, None, None, 60, false)
  }

  // -------------------------------------------------------------------------- counting

  predicate InFlight(job: Job) {
    InFlightState(job.state)
  }

  predicate InScope(job: Job, q: Queue, scope: Scope) {
    job.queue == q && (scope.OfLane? ==> job.lane == scope.lane)
  }

  function InFlightIn(t: Table, q: Queue, scope: Scope): set<JobId> {
    set id | id in t && InScope(t[id], q, scope) && InFlight(t[id])
  }

  predicate StampedAfter(job: Job, since: int) {
    job.claimedAt.Some? && job.claimedAt.value > since
  }

  function AdmittedIn(t: Table, q: Queue, scope: Scope, since: int): set<JobId> {
    set id | id in t && InScope(t[id], q, scope) && StampedAfter(t[id], since)
  }

  predicate AtCap(t: Table, c: Control, q: Queue, scope: Scope) {
    c.maxConcurrency.Some? && c.maxConcurrency.value <= |InFlightIn(t, q, scope)|
  }

  predicate AtRate(t: Table, c: Control, q: Queue, scope: Scope, now: int) {
    c.rateLimit.Some? && c.rateLimit.value <= |AdmittedIn(t, q, scope, now - c.ratePeriod)|
  }

  // --------------------------------------------------------------- the lanes at a limit

  function Group(t: Table, rows: set<JobId>, lane: Option<LaneKey>): set<JobId> {
    set id | id in rows && id in t && t[id].lane == lane
  }

  /** GROUP BY partition_key HAVING count(*) >= limit: a lane with no row makes no group. */
  function LanesAt(t: Table, rows: set<JobId>, limit: int): set<Option<LaneKey>> {
    set id | id in rows && id in t && |Group(t, rows, t[id].lane)| >= limit :: t[id].lane
  }

  /** The same lanes as a key array, which cannot hold a NULL, and a flag. */
  function Split(lanes: set<Option<LaneKey>>): Lanes {
    Lanes(set lane | lane in lanes && lane.Some? :: lane.value, None in lanes)
  }

  function Having(t: Table, rows: set<JobId>, limit: int): Lanes {
    Split(LanesAt(t, rows, limit))
  }

  function Either(a: Lanes, b: Lanes): Lanes {
    Lanes(a.keys + b.keys, a.nulls || b.nulls)
  }

  predicate Blocks(lanes: Lanes, lane: Option<LaneKey>) {
    match lane
    case None => lanes.nulls
    case Some(key) => key in lanes.keys
  }

  function FullLanes(t: Table, c: Control, q: Queue): Lanes {
    if c.maxConcurrency.Some? then Having(t, InFlightIn(t, q, WholeQueue), c.maxConcurrency.value) else Lanes({}, false)
  }

  function RatedLanes(t: Table, c: Control, q: Queue, now: int): Lanes {
    if c.rateLimit.Some? then Having(t, AdmittedIn(t, q, WholeQueue, now - c.ratePeriod), c.rateLimit.value)
    else Lanes({}, false)
  }

  function BlockedLanes(t: Table, c: Control, q: Queue, now: int): Lanes {
    Either(FullLanes(t, c, q), RatedLanes(t, c, q, now))
  }

  // -------------------------------------------------------------------------- one claim

  predicate Partitioned(c: Control) {
    c.partitionLimits && (c.maxConcurrency.Some? || c.rateLimit.Some?)
  }

  predicate Due(job: Job, q: Queue, now: int) {
    job.queue == q && job.state == Queued && job.runAfter <= now
  }

  /** The row-level predicate inside the claiming SELECT. */
  predicate Eligible(job: Job, w: Worker, now: int) {
    && Due(job, w.queue, now)
    && (job.capability.None? || job.capability.value in w.capabilities)
    && (job.version.None? || job.version == w.version)
    && job.prio <= w.maxPrio
  }

  /** ORDER BY prio, run_after */
  predicate Before(a: Job, b: Job) {
    a.prio < b.prio || (a.prio == b.prio && a.runAfter < b.runAfter)
  }

  /** Rows the SELECT ranges over: SKIP LOCKED passes those another transaction holds. */
  function Candidates(t: Table, c: Control, w: Worker, now: int, locked: set<JobId>): set<JobId> {
    set id | id in t && id !in locked && Eligible(t[id], w, now)
             && (Partitioned(c) ==> !Blocks(BlockedLanes(t, c, w.queue, now), t[id].lane))
  }

  ghost predicate First(t: Table, rows: set<JobId>, out: Option<JobId>)
    requires rows <= t.Keys
  {
    match out
    case None => rows == {}
    case Some(id) => id in rows && forall other :: other in rows ==> !Before(t[other], t[id])
  }

  predicate Declines(t: Table, c: Control, w: Worker, now: int) {
    c.paused || (!Partitioned(c) && (AtCap(t, c, w.queue, WholeQueue) || AtRate(t, c, w.queue, WholeQueue, now)))
  }

  /** What a claim that was served in its turn may return. Ties are PostgreSQL's to break. */
  ghost predicate Returns(t: Table, c: Control, w: Worker, now: int, locked: set<JobId>, out: Option<JobId>) {
    if Declines(t, c, w, now) then out == None else First(t, Candidates(t, c, w, now, locked), out)
  }

  function Admit(t: Table, out: Option<JobId>, now: int): Table
    requires out.Some? ==> out.value in t
  {
    if out.Some? then t[out.value := t[out.value].(state := Claimed, claimedAt := Some(now))] else t
  }

  // ------------------------------------------------------------------------------- runs

  datatype State = State(rows: Table, controls: map<Queue, Control>)

  datatype Event =
    | Claim(worker: Worker, now: int, locked: set<JobId>, out: Option<JobId>)
    | Start(row: JobId)
    | Write(row: JobId, job: Job)
    | Delete(row: JobId)
    | SetControl(queue: Queue, control: Control)

  function ControlOf(s: State, q: Queue): Control {
    if q in s.controls then s.controls[q] else Uncontrolled()
  }

  /** Any write but a claim or a start: the row ends up not in flight, with its stamp and lane kept. */
  predicate WriteKeeps(t: Table, id: JobId, job: Job) {
    && !InFlight(job)
    && (if id in t then job.queue == t[id].queue && job.lane == t[id].lane && job.claimedAt == t[id].claimedAt
        else job.claimedAt == None)
  }

  ghost predicate Next(s: State, e: Event, s': State) {
    match e
    case Claim(w, now, locked, out) =>
      && Returns(s.rows, ControlOf(s, w.queue), w, now, locked, out)
      && s'.controls == s.controls
      && (if out.Some? then out.value in s.rows && s'.rows == Admit(s.rows, out, now) else s'.rows == s.rows)
    case Start(id) =>
      && id in s.rows && s.rows[id].state == Claimed
      && s' == s.(rows := s.rows[id := s.rows[id].(state := Running)])
    case Write(id, job) =>
      && WriteKeeps(s.rows, id, job)
      && s' == s.(rows := s.rows[id := job])
    case Delete(id) =>
      && id in s.rows
      && s' == s.(rows := s.rows - {id})
    case SetControl(q, c) =>
      s' == s.(controls := s.controls[q := c])
  }

  ghost predicate Behavior(tr: seq<State>, es: seq<Event>) {
    |tr| == |es| + 1 && forall i :: 0 <= i < |es| ==> Next(tr[i], es[i], tr[i + 1])
  }

  // ------------------------------------------------------------------ lanes and verdicts

  lemma SplitLosesNothing(lanes: set<Option<LaneKey>>, lane: Option<LaneKey>)
    ensures Blocks(Split(lanes), lane) <==> lane in lanes
  {
    if lane.Some? && lane.value in Split(lanes).keys {
      var same :| same in lanes && same.Some? && same.value == lane.value;
      assert same == lane;
    }
  }

  /** The key array and the NULL flag together hold exactly the non-empty lanes at the limit. */
  lemma HavingMeans(t: Table, rows: set<JobId>, limit: int, lane: Option<LaneKey>)
    requires rows <= t.Keys
    ensures Blocks(Having(t, rows, limit), lane) <==> Group(t, rows, lane) != {} && |Group(t, rows, lane)| >= limit
  {
    SplitLosesNothing(LanesAt(t, rows, limit), lane);
    if Group(t, rows, lane) != {} {
      var id :| id in Group(t, rows, lane);
      assert id in rows && t[id].lane == lane;
    }
    if lane in LanesAt(t, rows, limit) {
      var id :| id in rows && id in t && |Group(t, rows, t[id].lane)| >= limit && t[id].lane == lane;
      assert id in Group(t, rows, lane);
    }
  }

  lemma GroupIsLane(t: Table, q: Queue, lane: Option<LaneKey>, since: int)
    ensures Group(t, InFlightIn(t, q, WholeQueue), lane) == InFlightIn(t, q, OfLane(lane))
    ensures Group(t, AdmittedIn(t, q, WholeQueue, since), lane) == AdmittedIn(t, q, OfLane(lane), since)
  {
  }

  lemma FullMeans(t: Table, c: Control, q: Queue, lane: Option<LaneKey>)
    ensures Blocks(FullLanes(t, c, q), lane) <==> AtCap(t, c, q, OfLane(lane)) && InFlightIn(t, q, OfLane(lane)) != {}
  {
    GroupIsLane(t, q, lane, 0);
    if c.maxConcurrency.Some? {
      HavingMeans(t, InFlightIn(t, q, WholeQueue), c.maxConcurrency.value, lane);
    }
  }

  lemma RatedMeans(t: Table, c: Control, q: Queue, now: int, lane: Option<LaneKey>)
    ensures Blocks(RatedLanes(t, c, q, now), lane) <==>
      AtRate(t, c, q, OfLane(lane), now) && AdmittedIn(t, q, OfLane(lane), now - c.ratePeriod) != {}
  {
    GroupIsLane(t, q, lane, now - c.ratePeriod);
    if c.rateLimit.Some? {
      HavingMeans(t, AdmittedIn(t, q, WholeQueue, now - c.ratePeriod), c.rateLimit.value, lane);
    }
  }

  /** At a limit by a count that is not of nothing. */
  predicate Saturated(t: Table, c: Control, q: Queue, now: int, lane: Option<LaneKey>) {
    || (AtCap(t, c, q, OfLane(lane)) && InFlightIn(t, q, OfLane(lane)) != {})
    || (AtRate(t, c, q, OfLane(lane), now) && AdmittedIn(t, q, OfLane(lane), now - c.ratePeriod) != {})
  }

  /** The claim passes over exactly the saturated lanes. */
  lemma BlockedMeans(t: Table, c: Control, q: Queue, now: int, lane: Option<LaneKey>)
    ensures Blocks(BlockedLanes(t, c, q, now), lane) <==> Saturated(t, c, q, now, lane)
  {
    FullMeans(t, c, q, lane);
    RatedMeans(t, c, q, now, lane);
  }

  /** The scope explain_job counts a job's limits over. */
  function ScopeOf(c: Control, job: Job): Scope {
    if c.partitionLimits then OfLane(job.lane) else WholeQueue
  }

  /**
   explain_job's concurrency verdict about a row and the claim's blocked set agree on every
   positive cap. On a cap of zero or less they agree exactly about lanes with work in flight:
   an empty lane makes no group, so the claim serves it and the verdict says it is at its cap.
   */
  lemma ConcurrencyVerdictAgrees(t: Table, c: Control, job: Job)
    requires c.partitionLimits && c.maxConcurrency.Some?
    ensures (AtCap(t, c, job.queue, ScopeOf(c, job)) <==> Blocks(FullLanes(t, c, job.queue), job.lane))
            <==> (c.maxConcurrency.value >= 1 || InFlightIn(t, job.queue, OfLane(job.lane)) != {})
  {
    FullMeans(t, c, job.queue, job.lane);
  }

  /** The twin for the rate verdict: the two agree on every positive limit, and on others about lanes with an admission in the period. */
  lemma RateVerdictAgrees(t: Table, c: Control, job: Job, now: int)
    requires c.partitionLimits && c.rateLimit.Some?
    ensures (AtRate(t, c, job.queue, ScopeOf(c, job), now) <==> Blocks(RatedLanes(t, c, job.queue, now), job.lane))
            <==> (c.rateLimit.value >= 1 || AdmittedIn(t, job.queue, OfLane(job.lane), now - c.ratePeriod) != {})
  {
    RatedMeans(t, c, job.queue, now, job.lane);
  }

  /** A served claim of worker w ranges over the row: it is what the claim returns, or sorts behind that. */
  predicate InReach(t: Table, c: Control, w: Worker, now: int, id: JobId) {
    !Declines(t, c, w, now) && id in Candidates(t, c, w, now, {})
  }

  /** What the queue's limits hold back from a claim, for every control there is. */
  predicate HeldBack(t: Table, c: Control, job: Job, now: int) {
    if Partitioned(c) then Saturated(t, c, job.queue, now, job.lane)
    else AtCap(t, c, job.queue, WholeQueue) || AtRate(t, c, job.queue, WholeQueue, now)
  }

  /** A claim ranges over a row it is eligible for exactly when the limits do not hold the row back. */
  lemma ReachMeans(t: Table, c: Control, w: Worker, now: int, id: JobId)
    requires id in t
    ensures InReach(t, c, w, now, id) <==> !c.paused && Eligible(t[id], w, now) && !HeldBack(t, c, t[id], now)
  {
    BlockedMeans(t, c, w.queue, now, t[id].lane);
  }

  // ------------------------------------------------------------------------- fair share

  lemma {:induction false} FirstExists(t: Table, rows: set<JobId>) returns (out: Option<JobId>)
    requires rows <= t.Keys
    ensures First(t, rows, out)
    decreases |rows|
  {
    if rows == {} {
      out := None;
    } else {
      var id :| id in rows;
      var rest := FirstExists(t, rows - {id});
      out := if rest.Some? && Before(t[rest.value], t[id]) then rest else Some(id);
      forall other | other in rows ensures !Before(t[other], t[out.value]) {
        assert other == id || other in rows - {id};
      }
    }
  }

  /**
   What a claim takes is queued and due on the worker's queue, and within its ceiling, its
   capabilities and its version. No row of that kind, unless it is locked or in a saturated
   lane, has a smaller prio, or the same prio and an earlier run_after.
   */
  lemma ClaimTakesTheMostUrgent(t: Table, c: Control, w: Worker, now: int, locked: set<JobId>, id: JobId, other: JobId)
    requires Returns(t, c, w, now, locked, Some(id))
    requires other in t && other !in locked && t[other].queue == w.queue && t[other].state == Queued
    requires t[other].runAfter <= now && t[other].prio <= w.maxPrio
    requires t[other].capability.None? || t[other].capability.value in w.capabilities
    requires t[other].version.None? || t[other].version == w.version
    requires Partitioned(c) ==> !Saturated(t, c, w.queue, now, t[other].lane)
    ensures id in t && id !in locked && t[id].queue == w.queue && t[id].state == Queued && t[id].runAfter <= now
    ensures t[id].prio <= w.maxPrio && (t[id].version.Some? ==> t[id].version == w.version)
    ensures t[id].capability.Some? ==> t[id].capability.value in w.capabilities
    ensures t[id].prio <= t[other].prio
    ensures t[id].prio == t[other].prio ==> t[id].runAfter <= t[other].runAfter
  {
    BlockedMeans(t, c, w.queue, now, t[other].lane);
    assert other in Candidates(t, c, w, now, locked);
  }

  /** A served claim always has an answer. */
  lemma ClaimAnswers(t: Table, c: Control, w: Worker, now: int, locked: set<JobId>) returns (out: Option<JobId>)
    ensures Returns(t, c, w, now, locked, out)
  {
    if Declines(t, c, w, now) {
      out := None;
    } else {
      out := FirstExists(t, Candidates(t, c, w, now, locked));
    }
  }

  /** A partitioned claim comes back empty only when every eligible free row is in a saturated lane. */
  lemma EmptyMeansSaturated(t: Table, c: Control, w: Worker, now: int, locked: set<JobId>, out: Option<JobId>)
    requires Partitioned(c) && !c.paused && Returns(t, c, w, now, locked, out)
    ensures out == None <==>
      forall id :: id in t && id !in locked && Eligible(t[id], w, now) ==> Saturated(t, c, w.queue, now, t[id].lane)
  {
    forall id | id in t
      ensures Blocks(BlockedLanes(t, c, w.queue, now), t[id].lane) <==> Saturated(t, c, w.queue, now, t[id].lane)
    {
      BlockedMeans(t, c, w.queue, now, t[id].lane);
    }
    if out == None {
      forall id | id in t && id !in locked && Eligible(t[id], w, now) ensures Saturated(t, c, w.queue, now, t[id].lane) {
        assert id !in Candidates(t, c, w, now, locked);
      }
    }
  }

  /** A lane with headroom is served no later than its own first row deserves. */
  lemma OpenLaneIsServed(t: Table, c: Control, w: Worker, now: int, locked: set<JobId>, out: Option<JobId>, id: JobId)
    requires Partitioned(c) && !c.paused && Returns(t, c, w, now, locked, out)
    requires id in t && id !in locked && Eligible(t[id], w, now) && !Saturated(t, c, w.queue, now, t[id].lane)
    ensures out.Some? && out.value in t && t[out.value].prio <= t[id].prio
    ensures t[out.value].prio == t[id].prio ==> t[out.value].runAfter <= t[id].runAfter
    ensures !Saturated(t, c, w.queue, now, t[out.value].lane)
  {
    BlockedMeans(t, c, w.queue, now, t[id].lane);
    assert id in Candidates(t, c, w, now, locked);
    BlockedMeans(t, c, w.queue, now, t[out.value].lane);
  }

  /** u is t without some rows that are queued and never admitted yet. */
  ghost predicate SameButIdle(t: Table, u: Table) {
    && u.Keys <= t.Keys
    && (forall id :: id in u ==> u[id] == t[id])
    && (forall id :: id in t && id !in u ==> t[id].state == Queued && t[id].claimedAt == None)
  }

  /** And all of those rows are in lanes that are saturated in t. */
  ghost predicate SameButBacklog(t: Table, u: Table, c: Control, q: Queue, now: int) {
    && SameButIdle(t, u)
    && (forall id :: id in t && id !in u ==> Blocks(BlockedLanes(t, c, q, now), t[id].lane))
  }

  lemma SameLanes(t: Table, u: Table, rows: set<JobId>, limit: int)
    requires rows <= t.Keys && rows <= u.Keys && forall id :: id in rows ==> t[id].lane == u[id].lane
    ensures LanesAt(t, rows, limit) == LanesAt(u, rows, limit)
  {
    forall lane ensures Group(t, rows, lane) == Group(u, rows, lane) {
    }
  }

  lemma SameFull(t: Table, u: Table, c: Control, q: Queue)
    requires SameButIdle(t, u)
    ensures FullLanes(u, c, q) == FullLanes(t, c, q)
  {
    assert InFlightIn(u, q, WholeQueue) == InFlightIn(t, q, WholeQueue);
    if c.maxConcurrency.Some? {
      SameLanes(t, u, InFlightIn(t, q, WholeQueue), c.maxConcurrency.value);
    }
  }

  lemma SameRated(t: Table, u: Table, c: Control, q: Queue, now: int)
    requires SameButIdle(t, u)
    ensures RatedLanes(u, c, q, now) == RatedLanes(t, c, q, now)
  {
    var since := now - c.ratePeriod;
    assert AdmittedIn(u, q, WholeQueue, since) == AdmittedIn(t, q, WholeQueue, since);
    if c.rateLimit.Some? {
      SameLanes(t, u, AdmittedIn(t, q, WholeQueue, since), c.rateLimit.value);
    }
  }

  /** However deep the backlog of saturated lanes, the claim is the one it would be without it. */
  lemma BacklogIsInvisible(t: Table, u: Table, c: Control, w: Worker, now: int, locked: set<JobId>, out: Option<JobId>)
    requires Partitioned(c) && SameButBacklog(t, u, c, w.queue, now)
    ensures Returns(t, c, w, now, locked, out) <==> Returns(u, c, w, now, locked, out)
  {
    SameFull(t, u, c, w.queue);
    SameRated(t, u, c, w.queue, now);
    assert Candidates(t, c, w, now, locked) == Candidates(u, c, w, now, locked);
  }

  // ------------------------------------------------------------------------ the ceiling

  predicate Counted(c: Control, scope: Scope) {
    c.partitionLimits <==> scope.OfLane?
  }

  /** The cap, but for the one row that a cap of zero or less still lets into an empty lane. */
  function Ceiling(c: Control): nat
    requires c.maxConcurrency.Some?
  {
    if c.maxConcurrency.value >= 1 then c.maxConcurrency.value else if c.partitionLimits then 1 else 0
  }

  ghost predicate Within(s: State, q: Queue) {
    ControlOf(s, q).maxConcurrency.Some? ==>
      forall scope :: Counted(ControlOf(s, q), scope) ==> |InFlightIn(s.rows, q, scope)| <= Ceiling(ControlOf(s, q))
  }

  /** The cap may be lifted, raised, or re-scoped from the queue to its lanes. */
  predicate Unlowered(c: Control, c': Control) {
    c'.maxConcurrency.Some? ==>
      && c.maxConcurrency.Some? && c.maxConcurrency.value <= c'.maxConcurrency.value
      && (c.partitionLimits ==> c'.partitionLimits)
  }

  /** A claim that admits a row found its scope one below the ceiling. */
  lemma ClaimHadRoom(t: Table, c: Control, w: Worker, now: int, locked: set<JobId>, id: JobId, scope: Scope)
    requires Returns(t, c, w, now, locked, Some(id)) && c.maxConcurrency.Some? && Counted(c, scope)
    requires id in t && InScope(t[id], w.queue, scope)
    ensures |InFlightIn(t, w.queue, scope)| < Ceiling(c) && !InFlight(t[id])
  {
    BlockedMeans(t, c, w.queue, now, t[id].lane);
  }

  lemma OneMoreInFlight(t: Table, id: JobId, now: int, q: Queue, scope: Scope)
    requires id in t && InScope(t[id], q, scope) && !InFlight(t[id])
    ensures |InFlightIn(Admit(t, Some(id), now), q, scope)| == |InFlightIn(t, q, scope)| + 1
  {
    assert InFlightIn(Admit(t, Some(id), now), q, scope) == InFlightIn(t, q, scope) + {id};
  }

  lemma ClaimKeepsWithin(s: State, e: Event, s': State, q: Queue, scope: Scope)
    requires e.Claim? && Next(s, e, s') && Within(s, q)
    requires ControlOf(s, q).maxConcurrency.Some? && Counted(ControlOf(s, q), scope)
    ensures |InFlightIn(s'.rows, q, scope)| <= Ceiling(ControlOf(s, q))
  {
    if e.out.Some? && InScope(s.rows[e.out.value], q, scope) {
      assert e.worker.queue == q;
      ClaimHadRoom(s.rows, ControlOf(s, q), e.worker, e.now, e.locked, e.out.value, scope);
      OneMoreInFlight(s.rows, e.out.value, e.now, q, scope);
    } else {
      assert InFlightIn(s'.rows, q, scope) == InFlightIn(s.rows, q, scope);
    }
  }

  lemma OtherStepKeepsWithin(s: State, e: Event, s': State, q: Queue, scope: Scope)
    requires !e.Claim? && Next(s, e, s') && Within(s, q)
    requires e.SetControl? && e.queue == q ==> Unlowered(ControlOf(s, q), e.control)
    requires ControlOf(s', q).maxConcurrency.Some? && Counted(ControlOf(s', q), scope)
    ensures |InFlightIn(s'.rows, q, scope)| <= Ceiling(ControlOf(s', q))
  {
    var wide := if Counted(ControlOf(s, q), scope) then scope else WholeQueue;
    assert InFlightIn(s'.rows, q, scope) <= InFlightIn(s.rows, q, wide);
    SubsetSize(InFlightIn(s'.rows, q, scope), InFlightIn(s.rows, q, wide));
    assert Counted(ControlOf(s, q), wide);
  }

  ghost predicate NeverLowered(tr: seq<State>, es: seq<Event>, q: Queue) {
    forall i :: 0 <= i < |es| && i < |tr| && es[i].SetControl? && es[i].queue == q
      ==> Unlowered(ControlOf(tr[i], q), es[i].control)
  }

  lemma {:induction false} AlwaysWithin(tr: seq<State>, es: seq<Event>, n: nat, q: Queue)
    requires Behavior(tr, es) && NeverLowered(tr, es, q) && Within(tr[0], q) && n < |tr|
    ensures Within(tr[n], q)
  {
    if n > 0 {
      AlwaysWithin(tr, es, n - 1, q);
      assert Next(tr[n - 1], es[n - 1], tr[n]);
      var c := ControlOf(tr[n], q);
      if c.maxConcurrency.Some? {
        forall scope | Counted(c, scope) ensures |InFlightIn(tr[n].rows, q, scope)| <= Ceiling(c) {
          if es[n - 1].Claim? {
            ClaimKeepsWithin(tr[n - 1], es[n - 1], tr[n], q, scope);
          } else {
            OtherStepKeepsWithin(tr[n - 1], es[n - 1], tr[n], q, scope);
          }
        }
      }
    }
  }

  /** In-flight work never exceeds max_concurrency, per queue, or per lane with NULL as its own lane. */
  lemma CapHolds(tr: seq<State>, es: seq<Event>, n: nat, q: Queue, scope: Scope)
    requires Behavior(tr, es) && NeverLowered(tr, es, q) && Within(tr[0], q) && n < |tr|
    requires ControlOf(tr[n], q).maxConcurrency.Some? && Counted(ControlOf(tr[n], q), scope)
    ensures var cap := ControlOf(tr[n], q).maxConcurrency.value;
      var inFlight := |InFlightIn(tr[n].rows, q, scope)|;
      && (cap >= 1 ==> inFlight <= cap)
      && (cap < 1 ==> inFlight <= if ControlOf(tr[n], q).partitionLimits then 1 else 0)
  {
    AlwaysWithin(tr, es, n, q);
  }

  /** The condition on the cap is needed: a partitioned cap of zero lets a first job in. */
  lemma ZeroCapAdmitsOnePerLane(q: Queue, job: Job, w: Worker, now: int)
    requires Eligible(job, w, now) && w.queue == q && job.claimedAt == None
    ensures var c := Control(false, Some(0), None, 60, true);
      var s := State(map[0 := job], map[q := c]);
      var s' := State(Admit(s.rows, Some(0), now), s.controls);
      && Next(s, Claim(w, now, {}, Some(0)), s')
      && |InFlightIn(s'.rows, q, OfLane(job.lane))| == 1 && AtCap(s.rows, c, q, OfLane(job.lane))
  {
    var c := Control(false, Some(0), None, 60, true);
    var t: Table := map[0 := job];
    assert InFlightIn(t, q, OfLane(job.lane)) == {};
    BlockedMeans(t, c, q, now, job.lane);
    assert 0 in Candidates(t, c, w, now, {});
    assert InFlightIn(Admit(t, Some(0), now), q, OfLane(job.lane)) == {0};
  }

  /**
   A row goes in flight exactly when a claim takes it, from the queue and with nothing but
   its state and its stamp changed, and it runs exactly when a claimed one is started.
   */
  lemma OnlyClaimsAdmit(s: State, e: Event, s': State, id: JobId)
    requires Next(s, e, s') && id in s.rows && id in s'.rows
    ensures var from, to := s.rows[id], s'.rows[id];
      && (!InFlight(from) && InFlight(to) <==> e.Claim? && e.out == Some(id))
      && (e.Claim? && e.out == Some(id) ==>
            from.state == Queued && to == from.(state := Claimed, claimedAt := Some(e.now)) && e.now >= from.runAfter)
      && (from.state != Running && to.state == Running <==> e == Start(id))
      && (e == Start(id) ==> from.state == Claimed && to == from.(state := Running))
  {
  }

  /** A queue's control is what was set last, and without a row of its own a queue is neither paused nor limited. */
  lemma ControlIsWhatWasSet(s: State, e: Event, s': State, q: Queue)
    requires Next(s, e, s')
    ensures ControlOf(s', q) == if e.SetControl? && e.queue == q then e.control else ControlOf(s, q)
    ensures q !in s.controls ==> Unlimited(ControlOf(s, q)) && !Partitioned(ControlOf(s, q))
  {
  }

  // -------------------------------------------------------------------------- position

  const EXPLAIN_AHEAD_LIMIT: nat := 1000

  function DueIn(t: Table, q: Queue, now: int): set<JobId> {
    set id | id in t && Due(t[id], q, now)
  }

  /** The due rows that sort strictly ahead of job. */
  function Ahead(t: Table, q: Queue, now: int, job: Job): set<JobId> {
    set id | id in DueIn(t, q, now) && id in t && Before(t[id], job)
  }

  /** `jobs_ahead` as explain_job reports it: the count stops at a limit. */
  function JobsAhead(t: Table, q: Queue, now: int, job: Job): nat {
    var n := |Ahead(t, q, now, job)|;
    if n < EXPLAIN_AHEAD_LIMIT then n else EXPLAIN_AHEAD_LIMIT
  }

  /**
   It counts, up to a thousand, the rows that are due on the queue and more urgent, or as
   urgent and due for longer: what (prio, run_after) < ($2, $3) selects.
   */
  lemma JobsAheadCounts(t: Table, q: Queue, now: int, job: Job)
    ensures var ahead := set other |
        && other in t && t[other].queue == q && t[other].state == Queued && t[other].runAfter <= now
        && (t[other].prio < job.prio || (t[other].prio == job.prio && t[other].runAfter < job.runAfter));
      && (|ahead| < 1000 ==> JobsAhead(t, q, now, job) == |ahead|)
      && (|ahead| >= 1000 ==> JobsAhead(t, q, now, job) == 1000)
  {
    assert Ahead(t, q, now, job) == set other |
        && other in t && t[other].queue == q && t[other].state == Queued && t[other].runAfter <= now
        && (t[other].prio < job.prio || (t[other].prio == job.prio && t[other].runAfter < job.runAfter));
  }

  /** A worker that every due row of the queue is eligible for. */
  ghost predicate Unrestricted(t: Table, w: Worker, now: int) {
    forall id :: id in DueIn(t, w.queue, now) ==> Eligible(t[id], w, now)
  }

  predicate Unlimited(c: Control) {
    !c.paused && c.maxConcurrency.None? && c.rateLimit.None?
  }

  /** Claims one after another, with nothing else happening to the queue and nothing falling due. */
  ghost predicate ClaimsOnly(ts: seq<Table>, es: seq<Event>, c: Control, q: Queue, now: int) {
    && |ts| == |es| + 1 && Unlimited(c)
    && forall i :: 0 <= i < |es| ==> ServedClaim(ts[i], es[i], ts[i + 1], c, q, now)
  }

  ghost predicate ServedClaim(t: Table, e: Event, t': Table, c: Control, q: Queue, now: int) {
    && e.Claim? && e.worker.queue == q && e.locked == {} && (e.out.Some? ==> e.out.value in t)
    && DueIn(t, q, e.now) == DueIn(t, q, now) && Unrestricted(t, e.worker, e.now)
    && Returns(t, c, e.worker, e.now, {}, e.out) && t' == Admit(t, e.out, e.now)
  }

  ghost predicate NoTie(t: Table, q: Queue, now: int, id: JobId) {
    && id in DueIn(t, q, now)
    && forall other :: other in DueIn(t, q, now) && other != id ==>
         t[other].prio != t[id].prio || t[other].runAfter != t[id].runAfter
  }

  /** One claim takes a row ahead of id if there is one, and otherwise id itself. */
  lemma ClaimAdvances(t: Table, e: Event, t': Table, c: Control, q: Queue, now: int, id: JobId)
    requires Unlimited(c) && ServedClaim(t, e, t', c, q, now) && NoTie(t, q, now, id)
    ensures Ahead(t, q, now, t[id]) == {} ==> e.out == Some(id)
    ensures Ahead(t, q, now, t[id]) != {} ==>
      && e.out.Some? && e.out.value in Ahead(t, q, now, t[id]) && e.out.value != id
      && NoTie(t', q, now, id) && t'[id] == t[id]
      && Ahead(t', q, now, t[id]) == Ahead(t, q, now, t[id]) - {e.out.value}
  {
    assert Candidates(t, c, e.worker, e.now, {}) == DueIn(t, q, now);
    if Ahead(t, q, now, t[id]) != {} {
      var front :| front in Ahead(t, q, now, t[id]);
      assert !Before(t[front], t[e.out.value]);
      assert DueIn(t', q, now) == DueIn(t, q, now) - {e.out.value};
    }
  }

  /** The rows that these claims took. */
  function Taken(es: seq<Event>): set<JobId> {
    set i | 0 <= i < |es| && es[i].Claim? && es[i].out.Some? :: es[i].out.value
  }

  lemma TakenOneMore(es: seq<Event>, k: nat)
    requires 0 < k < |es| && es[0].Claim? && es[0].out.Some?
    ensures Taken(es[..k]) == {es[0].out.value} + Taken(es[1..][..k - 1])
  {
    var rest := es[1..][..k - 1];
    forall id | id in Taken(es[..k]) ensures id in {es[0].out.value} + Taken(rest) {
      var i :| 0 <= i < k && es[i].Claim? && es[i].out == Some(id);
      assert i > 0 ==> rest[i - 1] == es[i];
    }
    forall id | id in {es[0].out.value} + Taken(rest) ensures id in Taken(es[..k]) {
      if id in Taken(rest) {
        var i :| 0 <= i < k - 1 && rest[i].Claim? && rest[i].out == Some(id);
        assert es[..k][i + 1] == rest[i];
      } else {
        assert es[..k][0] == es[0];
      }
    }
  }

  lemma ClaimsOnlyLater(ts: seq<Table>, es: seq<Event>, c: Control, q: Queue, now: int)
    requires ClaimsOnly(ts, es, c, q, now) && es != []
    ensures ClaimsOnly(ts[1..], es[1..], c, q, now)
  {
  }

  /** The claims take the rows ahead of a job, in some order, and then the job. */
  lemma {:induction false} TakenAfterAhead(ts: seq<Table>, es: seq<Event>, c: Control, q: Queue, now: int, id: JobId)
    requires ClaimsOnly(ts, es, c, q, now) && NoTie(ts[0], q, now, id)
    requires |Ahead(ts[0], q, now, ts[0][id])| < |es|
    ensures var ahead := Ahead(ts[0], q, now, ts[0][id]);
      es[|ahead|].Claim? && es[|ahead|].out == Some(id) && Taken(es[..|ahead|]) == ahead
    decreases |es|
  {
    assert ServedClaim(ts[0], es[0], ts[1], c, q, now);
    ClaimAdvances(ts[0], es[0], ts[1], c, q, now, id);
    var ahead := Ahead(ts[0], q, now, ts[0][id]);
    if ahead != {} {
      var taken := es[0].out.value;
      ClaimsOnlyLater(ts, es, c, q, now);
      assert |ahead - {taken}| == |ahead| - 1;
      TakenAfterAhead(ts[1..], es[1..], c, q, now, id);
      TakenOneMore(es, |ahead|);
      assert {taken} + (ahead - {taken}) == ahead;
    }
  }

  /**
   On an uncontrolled queue a job reported with k jobs ahead is taken by exactly the
   (k+1)th claim of unrestricted workers, when nothing else falls due or ties with it, and
   the k claims before take exactly the due rows that are more urgent, or as urgent and due
   for longer. The report says so itself when it has stopped counting.
   */
  lemma PositionIsExact(ts: seq<Table>, es: seq<Event>, c: Control, q: Queue, now: int, id: JobId)
    requires ClaimsOnly(ts, es, c, q, now) && NoTie(ts[0], q, now, id)
    requires JobsAhead(ts[0], q, now, ts[0][id]) < EXPLAIN_AHEAD_LIMIT
    requires JobsAhead(ts[0], q, now, ts[0][id]) < |es|
    ensures forall i :: 0 <= i <= JobsAhead(ts[0], q, now, ts[0][id]) ==> es[i].Claim?
    ensures forall i :: 0 <= i <= JobsAhead(ts[0], q, now, ts[0][id]) ==>
      (es[i].out == Some(id) <==> i == JobsAhead(ts[0], q, now, ts[0][id]))
    ensures forall other :: other in Taken(es[..JobsAhead(ts[0], q, now, ts[0][id])]) <==>
      && other in ts[0] && ts[0][other].queue == q && ts[0][other].state == Queued && ts[0][other].runAfter <= now
      && (ts[0][other].prio < ts[0][id].prio
          || (ts[0][other].prio == ts[0][id].prio && ts[0][other].runAfter < ts[0][id].runAfter))
  {
    TakenAfterAhead(ts, es, c, q, now, id);
    var k := JobsAhead(ts[0], q, now, ts[0][id]);
    forall i | 0 <= i <= k ensures es[i].Claim? && (es[i].out == Some(id) <==> i == k) {
      assert ServedClaim(ts[i], es[i], ts[i + 1], c, q, now);
      if i < k {
        assert es[..k][i] == es[i];
        assert es[i].out.Some? ==> es[i].out.value in Taken(es[..k]);
      }
    }
  }

  /** Row 0 of prio 5 and row 1 of prio 0, both due: the claims take 1 and then 0, and 0 was told that one is ahead. */
  lemma UrgentFirst(c: Control, q: Queue, now: int)
    requires Unlimited(c)
    ensures var late := Job(q, None, 5, None, None, now, Queued, None);
      var soon := late.(prio := 0);
      var w, t := Worker(q, {}, 10, None), map[0 := late, 1 := soon];
      var es := [Claim(w, now, {}, Some(1)), Claim(w, now, {}, Some(0))];
      var mid := Admit(t, Some(1), now);
      && ClaimsOnly([t, mid, Admit(mid, Some(0), now)], es, c, q, now) && NoTie(t, q, now, 0)
      && JobsAhead(t, q, now, late) == 1 && JobsAhead(t, q, now, soon) == 0
      && !Returns(t, c, w, now, {}, Some(0)) && !Returns(t, c, w, now, {}, None)
  {
    var late := Job(q, None, 5, None, None, now, Queued, None);
    var w, t: Table := Worker(q, {}, 10, None), map[0 := late, 1 := late.(prio := 0)];
    var mid := Admit(t, Some(1), now);
    assert Candidates(t, c, w, now, {}) == {0, 1} && Candidates(mid, c, w, now, {}) == {0};
    assert Ahead(t, q, now, late) == {1} && Ahead(t, q, now, late.(prio := 0)) == {};
  }
}
