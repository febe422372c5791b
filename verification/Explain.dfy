/**
 The two diagnosers of work that does not run, against the claim they diagnose:
 `explain_job`, which answers for one row from counts over the live fleet, and
 `unclaimable_jobs`, which sweeps every queue against the fleet's aggregates.
 */
module Explain {
  import opened Claims
  import opened Lifecycle
  import opened Wrappers

  type WorkerId = nat

  /** A jorb_worker row. */
  datatype Registration = Registration(worker: Worker, shutdown: bool, lastSeen: int)

  type Fleet = map<WorkerId, Registration>

  datatype Reason =
    | IsFinished | IsCrashed | IsCancelled | IsClaimed | IsRunning
    | WaitingOnJob | WaitingOnGroup | WaitingUnblocked
    | Deferred | QueuePaused | NoLiveWorkers
    | AboveWorkerCeiling | CapabilityUnmet | AppVersionUnmet
    | QueueAtMaxConcurrency | RateLimited | Claimable

  predicate Live(r: Registration, q: Queue, now: int, grace: int) {
    r.worker.queue == q && !r.shutdown && r.lastSeen > now - grace
  }

  predicate PrioGate(w: Worker, job: Job) {
    w.maxPrio >= job.prio
  }

  predicate CapabilityGate(w: Worker, job: Job) {
    job.capability.None? || job.capability.value in w.capabilities
  }

  predicate VersionGate(w: Worker, job: Job) {
    job.version.None? || w.version == job.version
  }

  // ------------------------------------------------------------------------ explain_job

  function LiveOn(fleet: Fleet, q: Queue, now: int, grace: int): set<WorkerId> {
    set w | w in fleet && Live(fleet[w], q, now, grace)
  }

  function AtPrio(fleet: Fleet, live: set<WorkerId>, job: Job): set<WorkerId> {
    set w | w in live && w in fleet && PrioGate(fleet[w].worker, job)
  }

  function Capable(fleet: Fleet, live: set<WorkerId>, job: Job): set<WorkerId> {
    set w | w in live && w in fleet && CapabilityGate(fleet[w].worker, job)
  }

  function Versioned(fleet: Fleet, live: set<WorkerId>, job: Job): set<WorkerId> {
    set w | w in live && w in fleet && VersionGate(fleet[w].worker, job)
  }

  /** The queued arm: the most durable condition first, each gate a separate count over the fleet. */
  function ExplainQueued(t: Table, c: Control, fleet: Fleet, now: int, grace: int, job: Job): Reason {
    var live := LiveOn(fleet, job.queue, now, grace);
    if job.runAfter > now then Deferred
    else if c.paused then QueuePaused
    else if |live| == 0 then NoLiveWorkers
    else if |AtPrio(fleet, live, job)| == 0 then AboveWorkerCeiling
    else if job.capability.Some? && |Capable(fleet, live, job)| == 0 then CapabilityUnmet
    else if job.version.Some? && |Versioned(fleet, live, job)| == 0 then AppVersionUnmet
    else if AtCap(t, c, job.queue, ScopeOf(c, job)) then QueueAtMaxConcurrency
    else if AtRate(t, c, job.queue, ScopeOf(c, job), now) then RateLimited
    else Claimable
  }

  function ExplainJob(t: Table, c: Control, fleet: Fleet, now: int, grace: int, job: Job): Reason {
    match job.state
    case Finished => IsFinished
    case Crashed => IsCrashed
    case Cancelled => IsCancelled
    case Claimed => IsClaimed
    case Running => IsRunning
    case Waiting =>
      // a job is looked at before a group
      if job.waitforJob.Some? then WaitingOnJob else if job.waitforGroup.Some? then WaitingOnGroup else WaitingUnblocked
    case Queued => ExplainQueued(t, c, fleet, now, grace, job)
  }

  // ------------------------------------------------------------------- unclaimable_jobs

  /** max(max_prio) over live workers: above_worker_ceiling is `prio > this`. */
  ghost function MaxCeiling(fleet: Fleet, live: set<WorkerId>): (top: int)
    requires live != {} && live <= fleet.Keys
    ensures forall w :: w in live ==> fleet[w].worker.maxPrio <= top
    ensures exists w :: w in live && fleet[w].worker.maxPrio == top
    decreases |live|
  {
    var w :| w in live;
    assert live == {w} + (live - {w});
    if live == {w} then fleet[w].worker.maxPrio
    else
      var rest := MaxCeiling(fleet, live - {w});
      if fleet[w].worker.maxPrio > rest then fleet[w].worker.maxPrio else rest
  }

  /** The union of what live workers advertise; a worker that advertises nothing adds nothing. */
  function Advertised(fleet: Fleet, live: set<WorkerId>): set<string> {
    set w, cap | w in live && w in fleet && cap in fleet[w].worker.capabilities :: cap
  }

  function VersionsOf(fleet: Fleet, live: set<WorkerId>): set<string> {
    set w | w in live && w in fleet && fleet[w].worker.version.Some? :: fleet[w].worker.version.value
  }

  /** The job is counted by this arm of the sweep. A queue without live workers has no group. */
  ghost predicate Listed(t: Table, fleet: Fleet, now: int, grace: int, reason: Reason, id: JobId) {
    && id in t
    && var job := t[id];
       var live := LiveOn(fleet, job.queue, now, grace);
       && live != {} && Due(job, job.queue, now)
       && var top := MaxCeiling(fleet, live);
          var caps := Advertised(fleet, live);
          match reason
          case AboveWorkerCeiling =>
            job.prio > top
          case CapabilityUnmet =>
            job.prio <= top && job.capability.Some? && job.capability.value !in caps
          case AppVersionUnmet =>
            && job.prio <= top && (job.capability.None? || job.capability.value in caps)
            && job.version.Some? && job.version.value !in VersionsOf(fleet, live)
          case _ => false
  }

  predicate IsSweepReason(reason: Reason) {
    reason == AboveWorkerCeiling || reason == CapabilityUnmet || reason == AppVersionUnmet
  }

  // -------------------------------------------------------------------------- agreement

  lemma AggregatesAreCounts(fleet: Fleet, live: set<WorkerId>, job: Job)
    requires live != {} && live <= fleet.Keys
    ensures job.prio > MaxCeiling(fleet, live) <==> |AtPrio(fleet, live, job)| == 0
    ensures job.capability.Some? ==> (job.capability.value !in Advertised(fleet, live) <==> |Capable(fleet, live, job)| == 0)
    ensures job.version.Some? ==> (job.version.value !in VersionsOf(fleet, live) <==> |Versioned(fleet, live, job)| == 0)
  {
    var top := MaxCeiling(fleet, live);
    var best :| best in live && fleet[best].worker.maxPrio == top;
    if job.prio <= top {
      assert best in AtPrio(fleet, live, job);
    } else {
      assert AtPrio(fleet, live, job) == {};
    }
    CapabilityCount(fleet, live, job);
    VersionCount(fleet, live, job);
  }

  lemma CapabilityCount(fleet: Fleet, live: set<WorkerId>, job: Job)
    requires live <= fleet.Keys
    ensures job.capability.Some? ==> (job.capability.value !in Advertised(fleet, live) <==> |Capable(fleet, live, job)| == 0)
  {
    if job.capability.Some? && job.capability.value in Advertised(fleet, live) {
      var w :| w in live && job.capability.value in fleet[w].worker.capabilities;
      assert w in Capable(fleet, live, job);
    } else if job.capability.Some? {
      assert Capable(fleet, live, job) == {};
    }
  }

  lemma VersionCount(fleet: Fleet, live: set<WorkerId>, job: Job)
    requires live <= fleet.Keys
    ensures job.version.Some? ==> (job.version.value !in VersionsOf(fleet, live) <==> |Versioned(fleet, live, job)| == 0)
  {
    if job.version.Some? && job.version.value in VersionsOf(fleet, live) {
      var w :| w in live && fleet[w].worker.version.Some? && fleet[w].worker.version.value == job.version.value;
      assert w in Versioned(fleet, live, job);
    } else if job.version.Some? {
      assert Versioned(fleet, live, job) == {};
    }
  }

  /** The sweep lists a row under a reason exactly when explain_job headlines that reason for it. */
  lemma SweepAgreesWithExplain(t: Table, c: Control, fleet: Fleet, now: int, grace: int, id: JobId, reason: Reason)
    requires id in t && !c.paused && IsSweepReason(reason)
    ensures Listed(t, fleet, now, grace, reason, id) <==> ExplainJob(t, c, fleet, now, grace, t[id]) == reason
  {
    var live := LiveOn(fleet, t[id].queue, now, grace);
    if live != {} {
      AggregatesAreCounts(fleet, live, t[id]);
    }
  }

  /** On a paused queue the sweep goes on listing what explain_job answers `queue_paused` for. */
  lemma PauseHidesSweepReasons(t: Table, c: Control, fleet: Fleet, now: int, grace: int, id: JobId, reason: Reason)
    requires id in t && c.paused && Listed(t, fleet, now, grace, reason, id)
    ensures ExplainJob(t, c, fleet, now, grace, t[id]) == QueuePaused
    ensures ExplainJob(t, c.(paused := false), fleet, now, grace, t[id]) == reason
  {
    SweepAgreesWithExplain(t, c.(paused := false), fleet, now, grace, id, reason);
  }

  /** No row is counted under two reasons. */
  lemma ArmsAreDisjoint(t: Table, fleet: Fleet, now: int, grace: int, id: JobId, one: Reason, other: Reason)
    requires Listed(t, fleet, now, grace, one, id) && Listed(t, fleet, now, grace, other, id)
    ensures one == other
  {
  }

  lemma EligibleMeetsCounts(fleet: Fleet, live: set<WorkerId>, job: Job, w: WorkerId, now: int)
    requires w in live && live <= fleet.Keys
    ensures Eligible(job, fleet[w].worker, now) ==>
      |AtPrio(fleet, live, job)| > 0 && |Capable(fleet, live, job)| > 0 && |Versioned(fleet, live, job)| > 0
  {
    if Eligible(job, fleet[w].worker, now) {
      assert w in AtPrio(fleet, live, job) && w in Capable(fleet, live, job) && w in Versioned(fleet, live, job);
    }
  }

  /** Every row the sweep lists is refused by the claim predicate of every live worker of its queue. */
  lemma ListedIsRefusedByAll(t: Table, fleet: Fleet, now: int, grace: int, reason: Reason, id: JobId, w: WorkerId)
    requires Listed(t, fleet, now, grace, reason, id)
    requires w in fleet && Live(fleet[w], t[id].queue, now, grace)
    ensures !Eligible(t[id], fleet[w].worker, now)
  {
    var live := LiveOn(fleet, t[id].queue, now, grace);
    AggregatesAreCounts(fleet, live, t[id]);
    EligibleMeetsCounts(fleet, live, t[id], w, now);
  }

  // ------------------------------------------------------ what each answer says of the row

  /** A row's state decides which arm answers, and the terminal and in-flight answers name it. */
  lemma AnswersNameTheState(t: Table, c: Control, fleet: Fleet, now: int, grace: int, job: Job)
    ensures var r := ExplainJob(t, c, fleet, now, grace, job);
      && (r == IsFinished <==> job.state == Finished)
      && (r == IsCrashed <==> job.state == Crashed)
      && (r == IsCancelled <==> job.state == Cancelled)
      && (r == IsClaimed <==> job.state == Claimed)
      && (r == IsRunning <==> job.state == Running)
      && (r in {WaitingOnJob, WaitingOnGroup, WaitingUnblocked} <==> job.state == Waiting)
      && (r == Claimable || r in HEADLINES <==> job.state == Queued)
  {
    assert HEADLINES[0] == Deferred && HEADLINES[1] == QueuePaused && HEADLINES[2] == NoLiveWorkers;
    assert HEADLINES[3] == AboveWorkerCeiling && HEADLINES[4] == CapabilityUnmet && HEADLINES[5] == AppVersionUnmet;
    assert HEADLINES[6] == QueueAtMaxConcurrency && HEADLINES[7] == RateLimited;
  }

  /** The order in which explain_job's docstring has the conditions of a queued row: the most durable first. */
  const HEADLINES: seq<Reason> :=
    [Deferred, QueuePaused, NoLiveWorkers, AboveWorkerCeiling, CapabilityUnmet, AppVersionUnmet,
     QueueAtMaxConcurrency, RateLimited]

  /** The worker has the queue, has not shut down and was seen within the grace. */
  ghost predicate Serves(fleet: Fleet, w: WorkerId, q: Queue, now: int, grace: int) {
    w in fleet && fleet[w].worker.queue == q && !fleet[w].shutdown && now - fleet[w].lastSeen < grace
  }

  /** What each reason says declines the row, in terms of the row, the control and the fleet. */
  ghost predicate DeclinedFor(t: Table, c: Control, fleet: Fleet, now: int, grace: int, job: Job, reason: Reason) {
    match reason
    case Deferred => now < job.runAfter
    case QueuePaused => c.paused
    case NoLiveWorkers => forall w :: !Serves(fleet, w, job.queue, now, grace)
    case AboveWorkerCeiling =>
      forall w :: Serves(fleet, w, job.queue, now, grace) ==> fleet[w].worker.maxPrio < job.prio
    case CapabilityUnmet =>
      && job.capability.Some?
      && forall w :: Serves(fleet, w, job.queue, now, grace) ==> job.capability.value !in fleet[w].worker.capabilities
    case AppVersionUnmet =>
      job.version.Some? && forall w :: Serves(fleet, w, job.queue, now, grace) ==> fleet[w].worker.version != job.version
    case QueueAtMaxConcurrency =>
      && c.maxConcurrency.Some?
      && c.maxConcurrency.value <= |set id | id in t && t[id].queue == job.queue && t[id].state in {Claimed, Running}
                                           && (c.partitionLimits ==> t[id].lane == job.lane)|
    case RateLimited =>
      && c.rateLimit.Some?
      && c.rateLimit.value <= |set id | id in t && t[id].queue == job.queue && t[id].claimedAt.Some?
                                       && now - c.ratePeriod < t[id].claimedAt.value
                                       && (c.partitionLimits ==> t[id].lane == job.lane)|
    case _ => false
  }

  /** A count over the fleet is zero exactly when no serving worker passes its gate. */
  lemma CountsAreGates(fleet: Fleet, now: int, grace: int, job: Job)
    ensures var live := LiveOn(fleet, job.queue, now, grace);
      && (|live| == 0 <==> forall w :: !Serves(fleet, w, job.queue, now, grace))
      && (|AtPrio(fleet, live, job)| == 0 <==>
            forall w :: Serves(fleet, w, job.queue, now, grace) ==> fleet[w].worker.maxPrio < job.prio)
      && (job.capability.Some? ==>
            (|Capable(fleet, live, job)| == 0 <==>
              forall w :: Serves(fleet, w, job.queue, now, grace) ==> job.capability.value !in fleet[w].worker.capabilities))
      && (job.version.Some? ==>
            (|Versioned(fleet, live, job)| == 0 <==>
              forall w :: Serves(fleet, w, job.queue, now, grace) ==> fleet[w].worker.version != job.version))
  {
    var live := LiveOn(fleet, job.queue, now, grace);
    assert forall w :: w in live <==> Serves(fleet, w, job.queue, now, grace);
    assert forall w :: w in AtPrio(fleet, live, job) <==> w in live && fleet[w].worker.maxPrio >= job.prio;
    assert job.capability.Some? ==>
      forall w :: w in Capable(fleet, live, job) <==> w in live && job.capability.value in fleet[w].worker.capabilities;
    assert job.version.Some? ==>
      forall w :: w in Versioned(fleet, live, job) <==> w in live && fleet[w].worker.version == job.version;
    EmptyIff(live);
    EmptyIff(AtPrio(fleet, live, job));
    EmptyIff(Capable(fleet, live, job));
    EmptyIff(Versioned(fleet, live, job));
  }

  lemma EmptyIff(s: set<WorkerId>)
    ensures |s| == 0 <==> forall w :: w !in s
  {
    if |s| == 0 {
      assert s == {};
    } else {
      var w :| w in s;
    }
  }

  /** The two counts of explain_job are over the job's lane on a partitioned queue, and over its queue otherwise. */
  lemma LimitsAreCounts(t: Table, c: Control, fleet: Fleet, now: int, grace: int, job: Job)
    ensures AtCap(t, c, job.queue, ScopeOf(c, job)) <==> DeclinedFor(t, c, fleet, now, grace, job, QueueAtMaxConcurrency)
    ensures AtRate(t, c, job.queue, ScopeOf(c, job), now) <==> DeclinedFor(t, c, fleet, now, grace, job, RateLimited)
  {
    assert InFlightIn(t, job.queue, ScopeOf(c, job))
        == set id | id in t && t[id].queue == job.queue && t[id].state in {Claimed, Running}
                    && (c.partitionLimits ==> t[id].lane == job.lane);
    assert AdmittedIn(t, job.queue, ScopeOf(c, job), now - c.ratePeriod)
        == set id | id in t && t[id].queue == job.queue && t[id].claimedAt.Some?
                    && now - c.ratePeriod < t[id].claimedAt.value
                    && (c.partitionLimits ==> t[id].lane == job.lane);
  }

  /** Eight conditions asked in turn single out the first that holds. */
  lemma FirstOfEight(d: seq<bool>, r: Reason, i: nat)
    requires |d| == 8 && i < 8
    requires r == if d[0] then Deferred else if d[1] then QueuePaused else if d[2] then NoLiveWorkers
             else if d[3] then AboveWorkerCeiling else if d[4] then CapabilityUnmet else if d[5] then AppVersionUnmet
             else if d[6] then QueueAtMaxConcurrency else if d[7] then RateLimited else Claimable
    ensures r == HEADLINES[i] <==> d[i] && forall k :: 0 <= k < i ==> !d[k]
    ensures r == Claimable <==> forall k :: 0 <= k < 8 ==> !d[k]
  {
  }

  ghost function Conditions(t: Table, c: Control, fleet: Fleet, now: int, grace: int, job: Job): (d: seq<bool>)
    ensures |d| == 8 && forall k :: 0 <= k < 8 ==> (d[k] <==> DeclinedFor(t, c, fleet, now, grace, job, HEADLINES[k]))
  {
    seq(8, k requires 0 <= k < 8 => DeclinedFor(t, c, fleet, now, grace, job, HEADLINES[k]))
  }

  /** The conditions about the fleet and the limits are the counts that explain_job takes. */
  lemma ConditionsAreCounts(t: Table, c: Control, fleet: Fleet, now: int, grace: int, job: Job)
    ensures var d, live := Conditions(t, c, fleet, now, grace, job), LiveOn(fleet, job.queue, now, grace);
      && (d[0] <==> job.runAfter > now) && (d[1] <==> c.paused) && (d[2] <==> |live| == 0)
      && (d[3] <==> |AtPrio(fleet, live, job)| == 0)
      && (d[4] <==> job.capability.Some? && |Capable(fleet, live, job)| == 0)
      && (d[5] <==> job.version.Some? && |Versioned(fleet, live, job)| == 0)
      && (d[6] <==> AtCap(t, c, job.queue, ScopeOf(c, job)))
      && (d[7] <==> AtRate(t, c, job.queue, ScopeOf(c, job), now))
  {
    CountsAreGates(fleet, now, grace, job);
    LimitsAreCounts(t, c, fleet, now, grace, job);
  }

  /** A queued row is answered with the first condition in the documented order that declines it, or with claimable. */
  lemma HeadlineIsTheFirst(t: Table, c: Control, fleet: Fleet, now: int, grace: int, job: Job, i: nat)
    requires job.state == Queued && i < |HEADLINES|
    ensures ExplainJob(t, c, fleet, now, grace, job) == HEADLINES[i] <==>
      && DeclinedFor(t, c, fleet, now, grace, job, HEADLINES[i])
      && forall k :: 0 <= k < i ==> !DeclinedFor(t, c, fleet, now, grace, job, HEADLINES[k])
    ensures ExplainJob(t, c, fleet, now, grace, job) == Claimable <==>
      forall k :: 0 <= k < |HEADLINES| ==> !DeclinedFor(t, c, fleet, now, grace, job, HEADLINES[k])
  {
    ConditionsAreCounts(t, c, fleet, now, grace, job);
    FirstOfEight(Conditions(t, c, fleet, now, grace, job), ExplainJob(t, c, fleet, now, grace, job), i);
  }

  // ------------------------------------------------------- what a waiting row waits for

  /** enqueue-next-self-finished, for the job that has just finished. */
  predicate WokenByJob(t: Table, u: JobId, id: JobId) {
    && id in t && t[id].state == Waiting && t[id].waitforJob == Some(u)
    && u in t && t[u].state == Finished
  }

  /** enqueue-next-if-peer-group-is-finished, for that job's group. */
  ghost predicate WokenByGroup(t: Table, g: GroupId, id: JobId) {
    && id in t && t[id].state == Waiting && t[id].waitforGroup == Some(g)
    && forall m :: m in t && t[m].runGroup == Some(g) ==> t[m].state == Finished
  }

  /** The worker finishes u and wakes its dependents: by u, and by u's group if it has one. */
  ghost predicate FinishReleases(t: Table, u: JobId, id: JobId)
    requires u in t
  {
    var after := t[u := t[u].(state := Finished)];
    WokenByJob(after, u, id) || (t[u].runGroup.Some? && WokenByGroup(after, t[u].runGroup.value, id))
  }

  /** What the sweep for stranded waiters looks for. */
  ghost predicate SweepReleases(t: Table, id: JobId) {
    && id in t && t[id].state == Waiting
    && (|| (t[id].waitforJob.Some? && t[id].waitforJob.value in t && t[t[id].waitforJob.value].state == Finished)
        || (t[id].waitforGroup.Some?
            && (exists m :: m in t && t[m].runGroup == t[id].waitforGroup)
            && forall m :: m in t && t[m].runGroup == t[id].waitforGroup ==> t[m].state == Finished))
  }

  /** The sweep releases what either wake statement would, whichever job it was run for, but for the waiters of a group without rows. */
  lemma SweepRepeatsTheWakes(t: Table, id: JobId)
    ensures SweepReleases(t, id) <==>
      || (exists u :: WokenByJob(t, u, id))
      || (exists g: GroupId :: WokenByGroup(t, g, id) && exists m :: m in t && t[m].runGroup == Some(g))
  {
    if SweepReleases(t, id) {
      var job := t[id];
      assert job.waitforJob.Some? && job.waitforJob.value in t && t[job.waitforJob.value].state == Finished
        ==> WokenByJob(t, job.waitforJob.value, id);
      assert job.waitforGroup.Some? && (forall m :: m in t && t[m].runGroup == job.waitforGroup ==> t[m].state == Finished)
        ==> WokenByGroup(t, job.waitforGroup.value, id);
    }
  }

  /** Only a waiting row is ever released, and not by its own finish. */
  lemma OnlyWaitingRowsAreReleased(t: Table, u: JobId, id: JobId)
    requires u in t && FinishReleases(t, u, id)
    ensures id in t && id != u && t[id].state == Waiting
  {
  }

  /**
   Which wake each waiting answer stands for: the finish of the one job, the finish of the
   group's last member, or none. (A row that carries both waits, which no enqueue writes, is
   answered with the job, and the group releases it too.)
   */
  lemma WaitingAnswersNameTheWake(t: Table, c: Control, fleet: Fleet, now: int, grace: int, id: JobId, u: JobId)
    requires id in t && t[id].state == Waiting && u in t && u != id
    ensures var r := ExplainJob(t, c, fleet, now, grace, t[id]);
      && (r == WaitingOnJob ==> (t[id].waitforJob == Some(u) ==> FinishReleases(t, u, id)))
      && (r == WaitingOnJob && t[id].waitforGroup.None? ==> (FinishReleases(t, u, id) ==> t[id].waitforJob == Some(u)))
      && (r == WaitingOnGroup ==>
            (FinishReleases(t, u, id) <==>
              && t[u].runGroup == t[id].waitforGroup
              && forall m :: m in t && m != u && t[m].runGroup == t[id].waitforGroup ==> t[m].state == Finished))
      && (r == WaitingUnblocked ==> !FinishReleases(t, u, id) && !SweepReleases(t, id))
  {
    var after := t[u := t[u].(state := Finished)];
    assert after[id] == t[id] && forall m :: m in t && m != u ==> after[m] == t[m];
  }

  /** In some table that holds this row, the finish of another job releases it. */
  ghost predicate CanBeReleased(job: Job, id: JobId) {
    exists t: Table, u :: id in t && t[id] == job && u in t && u != id && FinishReleases(t, u, id)
  }

  /** There is a job whose finish releases the row, whatever else the table holds. */
  ghost predicate OneJobReleases(job: Job, id: JobId) {
    exists u :: u != id && AlwaysReleases(job, id, u)
  }

  ghost predicate AlwaysReleases(job: Job, id: JobId, u: JobId) {
    forall t: Table :: id in t && t[id] == job && u in t && u != id ==> FinishReleases(t, u, id)
  }

  /** Without the job it waits for, if any, an unfinished member of the group keeps it waiting. */
  lemma OthersNeedNotRelease(job: Job, id: JobId, u: JobId)
    requires u != id && job.waitforJob != Some(u)
    ensures !AlwaysReleases(job, id, u)
  {
    var member := job.(state := Waiting, runGroup := job.waitforGroup);
    var t: Table := map[id + u + 1 := member][u := job][id := job];
    assert t[id + u + 1] == member && t[id] == job && u in t;
    assert !FinishReleases(t, u, id);
  }

  lemma SomeoneReleases(job: Job, id: JobId)
    requires job.state == Waiting
    requires (job.waitforJob.Some? && job.waitforJob != Some(id)) || (job.waitforGroup.Some? && job.runGroup != job.waitforGroup)
    ensures CanBeReleased(job, id)
  {
    var u := if job.waitforJob.Some? && job.waitforJob != Some(id) then job.waitforJob.value else id + 1;
    var t: Table := map[u := job.(runGroup := job.waitforGroup)][id := job];
    assert t[id] == job && u in t && u != id;
    assert FinishReleases(t, u, id);
  }

  /**
   So the answer says what it takes: the finish of one job, more than the finish of any one
   job, or nothing there is. Only a row that waits for itself, or for a group it is a member
   of, is beyond release with an answer that names a wait.
   */
  lemma WaitingAnswersSayWhatItTakes(t: Table, c: Control, fleet: Fleet, now: int, grace: int, id: JobId)
    requires id in t && t[id].state == Waiting
    ensures var r, job := ExplainJob(t, c, fleet, now, grace, t[id]), t[id];
      && (r == WaitingOnJob ==> (OneJobReleases(job, id) <==> job.waitforJob != Some(id)))
      && (r == WaitingOnGroup ==> !OneJobReleases(job, id) && (CanBeReleased(job, id) <==> job.runGroup != job.waitforGroup))
      && (r == WaitingUnblocked ==> !CanBeReleased(job, id))
  {
    var job := t[id];
    if job.waitforJob.Some? && job.waitforJob != Some(id) {
      assert AlwaysReleases(job, id, job.waitforJob.value);
    } else {
      forall u | u != id ensures !AlwaysReleases(job, id, u) {
        OthersNeedNotRelease(job, id, u);
      }
    }
    if job.waitforJob.None? && job.waitforGroup.Some? && job.runGroup != job.waitforGroup {
      SomeoneReleases(job, id);
    }
  }

  // ---------------------------------------------------------------- against the claim

  /**
   A limit that the answer is about, where it counts no row at all: a cap or a rate limit
   of zero or less on a lane with nothing in flight, or nothing admitted in the period.
   A lane without rows makes no group, so the claim does not pass it over.
   */
  predicate LimitsCountNothing(t: Table, c: Control, job: Job, now: int) {
    var lane := OfLane(job.lane);
    var capped, rated := AtCap(t, c, job.queue, lane), AtRate(t, c, job.queue, lane, now);
    && c.partitionLimits && (capped || rated)
    && (capped ==> InFlightIn(t, job.queue, lane) == {})
    && (rated ==> AdmittedIn(t, job.queue, lane, now - c.ratePeriod) == {})
  }

  /** That takes a limit of zero or less. */
  lemma OnlyLimitsOfNothing(t: Table, c: Control, job: Job, now: int)
    requires LimitsCountNothing(t, c, job, now)
    ensures (c.maxConcurrency.Some? && c.maxConcurrency.value <= 0) || (c.rateLimit.Some? && c.rateLimit.value <= 0)
  {
  }

  /**
   With any answer but `claimable`, a live worker's claim ranges over the row if and only if
   the worker is eligible and the limits the answer is about count nothing.
   */
  lemma NotClaimableIsOutOfReach(t: Table, c: Control, fleet: Fleet, now: int, grace: int, id: JobId, w: WorkerId)
    requires id in t && w in fleet && Live(fleet[w], t[id].queue, now, grace)
    requires ExplainJob(t, c, fleet, now, grace, t[id]) != Claimable
    ensures InReach(t, c, fleet[w].worker, now, id) <==>
      !c.paused && Eligible(t[id], fleet[w].worker, now) && LimitsCountNothing(t, c, t[id], now)
  {
    ReachMeans(t, c, fleet[w].worker, now, id);
    if Eligible(t[id], fleet[w].worker, now) && !c.paused {
      EligibleMeetsCounts(fleet, LiveOn(fleet, t[id].queue, now, grace), t[id], w, now);
    }
  }

  /** And `claimable` means within reach exactly of the live workers that pass all three gates at once. */
  lemma ClaimableNeedsOneWorkerForAllGates(t: Table, c: Control, fleet: Fleet, now: int, grace: int, id: JobId, w: WorkerId)
    requires id in t && w in fleet && Live(fleet[w], t[id].queue, now, grace)
    requires ExplainJob(t, c, fleet, now, grace, t[id]) == Claimable
    ensures InReach(t, c, fleet[w].worker, now, id) <==>
      PrioGate(fleet[w].worker, t[id]) && CapabilityGate(fleet[w].worker, t[id]) && VersionGate(fleet[w].worker, t[id])
  {
    ReachMeans(t, c, fleet[w].worker, now, id);
  }

  /** Whoever takes a row, explain_job had it claimable the instant before, unless the limits counted nothing. */
  lemma TakenMeansClaimable(t: Table, c: Control, fleet: Fleet, now: int, grace: int, id: JobId,
                            w: WorkerId, locked: set<JobId>)
    requires w in fleet && Live(fleet[w], fleet[w].worker.queue, now, grace)
    requires Returns(t, c, fleet[w].worker, now, locked, Some(id))
    ensures id in t
    ensures ExplainJob(t, c, fleet, now, grace, t[id]) == Claimable <==> !LimitsCountNothing(t, c, t[id], now)
  {
    assert InReach(t, c, fleet[w].worker, now, id);
    if ExplainJob(t, c, fleet, now, grace, t[id]) != Claimable {
      NotClaimableIsOutOfReach(t, c, fleet, now, grace, id, w);
    }
  }

  /** Both limit answers can be wrong in that way: a first job in a lane of a partitioned queue. */
  lemma LimitedYetInReach(t: Table, c: Control, now: int, grace: int, lane: Option<LaneKey>)
    requires c == Control(false, Some(0), None, 60, true) || c == Control(false, None, Some(0), 60, true)
    requires grace > 0 && t == map[0 := Job("q", lane, 0, None, None, now, Queued, None)]
    ensures var anyone := Worker("q", {}, 0, None);
      var fleet: Fleet := map[0 := Registration(anyone, false, now)];
      && ExplainJob(t, c, fleet, now, grace, t[0]) == (if c.rateLimit.Some? then RateLimited else QueueAtMaxConcurrency)
      && InReach(t, c, anyone, now, 0)
  {
    var fleet: Fleet := map[0 := Registration(Worker("q", {}, 0, None), false, now)];
    assert InFlightIn(t, "q", OfLane(lane)) == {} && AdmittedIn(t, "q", OfLane(lane), now - 60) == {};
    ReachMeans(t, c, Worker("q", {}, 0, None), now, 0);
    EligibleMeetsCounts(fleet, LiveOn(fleet, "q", now, grace), t[0], 0, now);
  }

  /** The three counts may be met by different workers: `claimable`, and no live worker can take it. */
  lemma ClaimableYetOutOfReach(now: int, grace: int)
    requires grace > 0
    ensures var job := Job("q", None, 5, Some("gpu"), None, now, Queued, None);
      var t: Table := map[0 := job];
      var urgentOnly := Worker("q", {"gpu"}, 0, None);
      var noGpu := Worker("q", {}, 1000, None);
      var fleet: Fleet := map[0 := Registration(urgentOnly, false, now), 1 := Registration(noGpu, false, now)];
      && ExplainJob(t, Uncontrolled(), fleet, now, grace, job) == Claimable
      && forall w :: w in fleet ==> !InReach(t, Uncontrolled(), fleet[w].worker, now, 0)
  {
    var job := Job("q", None, 5, Some("gpu"), None, now, Queued, None);
    var urgentOnly, noGpu := Worker("q", {"gpu"}, 0, None), Worker("q", {}, 1000, None);
    var fleet: Fleet := map[0 := Registration(urgentOnly, false, now), 1 := Registration(noGpu, false, now)];
    var live := LiveOn(fleet, "q", now, grace);
    assert 1 in AtPrio(fleet, live, job) && 0 in Capable(fleet, live, job);
  }
}
