/**
 The job lifecycle: the one table of legal transitions, and what it says about every
 history a job may have, however often it is retried, requeued or rerun.
 */
module Lifecycle {

  /** The jorbstate enum. */
  datatype JobState = Queued | Claimed | Running | Waiting | Finished | Crashed | Cancelled

  /** In flight, in the sense of every count and cap: a worker has the job. */
  predicate InFlightState(s: JobState) {
    s == Claimed || s == Running
  }

  /** Where the history's origin, the `enqueued` event, may lead. */
  predicate FromOrigin(s: JobState) {
    s == Queued || s == Waiting || s == Claimed || s == Running
  }

  function LegalTargets(source: JobState): set<JobState> {
    match source
    case Waiting => {Queued, Cancelled}
    case Queued => {Claimed, Cancelled}
    case Claimed => {Running, Queued, Waiting, Cancelled, Crashed, Finished}
    case Running => {Finished, Crashed, Cancelled, Queued, Waiting, Running}
    case Finished => {Queued, Waiting}
    case Crashed => {Queued, Waiting}
    case Cancelled => {Queued, Waiting}
  }

  predicate IsLegal(source: JobState, target: JobState) {
    target in LegalTargets(source)
  }

  // ------------------------------------------------------ the statements and the table

  /** Every statement that writes a job's state. A requeue is told which states it may start from. */
  datatype Statement =
    | ClaimJorb
    | RunJob | FinishJob | CrashJob | HonourCancel | RetryJob | RescheduleJob // a worker, about its own attempt
    | WakeWaiters                                                           // both wakes and the sweep behind them
    | CancelJob                                                             // what it does to a job not yet claimed
    | CancelUnsatisfiable | RequeueDeadWorkers | RequeueStuckClaims | RetryTimedOut | DeadletterTimedOut // the monitor
    | Requeue(allowed: set<JobState>)

  /** AND state IN (...) */
  function Guard(s: Statement): set<JobState> {
    match s
    case ClaimJorb => {Queued}
    case WakeWaiters => {Waiting}
    case CancelUnsatisfiable => {Waiting}
    case CancelJob => {Queued, Waiting}
    case RequeueStuckClaims => {Claimed}
    case RetryTimedOut => {Running}
    case DeadletterTimedOut => {Running}
    case Requeue(allowed) => allowed
    case _ => {Claimed, Running}
  }

  /** SET state = ... A requeue parks a row that still carries a wait. */
  function Writes(s: Statement): set<JobState> {
    match s
    case ClaimJorb => {Claimed}
    case RunJob => {Running}
    case FinishJob => {Finished}
    case CrashJob => {Crashed}
    case DeadletterTimedOut => {Crashed}
    case HonourCancel => {Cancelled}
    case CancelJob => {Cancelled}
    case CancelUnsatisfiable => {Cancelled}
    case Requeue(_) => {Queued, Waiting}
    case _ => {Queued}
  }

  /** Operators requeue terminal rows; a caller may widen that to rows in flight, never to live ones that are not. */
  predicate MayBeIssued(s: Statement) {
    s.Requeue? ==> s.allowed <= {Finished, Crashed, Cancelled, Claimed, Running}
  }

  predicate Realises(s: Statement, source: JobState, target: JobState) {
    MayBeIssued(s) && source in Guard(s) && target in Writes(s)
  }

  /** The table declares exactly the moves that some statement can make: none is undeclared, and no entry is idle. */
  lemma TableIsWhatStatementsDo(source: JobState, target: JobState)
    ensures IsLegal(source, target) <==> exists s :: Realises(s, source, target)
  {
    if IsLegal(source, target) {
      var s := match target
        case Queued => if source == Waiting then WakeWaiters else Requeue({source})
        case Claimed => ClaimJorb
        case Running => RunJob
        case Waiting => Requeue({source})
        case Finished => FinishJob
        case Crashed => CrashJob
        case Cancelled => if InFlightState(source) then HonourCancel else CancelJob;
      assert Realises(s, source, target);
    }
  }

  /** And the origin's entries are an insert, or an insert read together with the claim, and with the start, that followed it. */
  lemma OriginIsAnInsert(s: JobState)
    ensures FromOrigin(s) <==>
      || s == Queued || s == Waiting || Realises(ClaimJorb, Queued, s)
      || exists mid :: Realises(ClaimJorb, Queued, mid) && Realises(RunJob, mid, s)
  {
    assert Realises(ClaimJorb, Queued, Claimed) && Realises(RunJob, Claimed, Running);
  }

  /** A terminal job's one way on is the requeue. */
  lemma TerminalLeavesByRequeue(s: Statement, source: JobState, target: JobState)
    requires Realises(s, source, target)
    ensures source in {Finished, Crashed, Cancelled} ==> s.Requeue? && target in {Queued, Waiting}
  {
  }

  /** The states of a recorded history: any number of legal moves, from the origin. */
  ghost predicate History(h: seq<JobState>) {
    |h| > 0 && FromOrigin(h[0]) && forall i :: 0 <= i < |h| - 1 ==> IsLegal(h[i], h[i + 1])
  }

  predicate Completes(s: JobState) {
    s == Finished || s == Crashed
  }

  /** Entries to claimed among the first n positions of the history. */
  function ClaimEntries(h: seq<JobState>, n: nat): nat
    requires n <= |h|
  {
    if n == 0 then 0 else ClaimEntries(h, n - 1) + if h[n - 1] == Claimed then 1 else 0
  }

  /** Entries to finished or crashed among them. */
  function Completions(h: seq<JobState>, n: nat): nat
    requires n <= |h|
  {
    if n == 0 then 0 else Completions(h, n - 1) + if Completes(h[n - 1]) then 1 else 0
  }

  /** The origin entered running directly: insert, claim and start were read as one move. */
  predicate StartsRunning(h: seq<JobState>) {
    |h| > 0 && h[0] == Running
  }

  /** A move out of flight without a completion: requeued, parked or cancelled. */
  function GivenBack(h: seq<JobState>, n: nat): nat
    requires n <= |h|
  {
    if n <= 1 then 0
    else GivenBack(h, n - 1) + if InFlightState(h[n - 2]) && !InFlightState(h[n - 1]) && !Completes(h[n - 1]) then 1 else 0
  }

  /** The books balance: each claim is in flight, used up by one completion, or given back. */
  lemma {:induction false} ClaimsAreAccountedFor(h: seq<JobState>, n: nat)
    requires History(h) && 0 < n <= |h|
    ensures ClaimEntries(h, n) + (if StartsRunning(h) then 1 else 0)
      == Completions(h, n) + GivenBack(h, n) + if InFlightState(h[n - 1]) then 1 else 0
  {
    if n > 1 {
      ClaimsAreAccountedFor(h, n - 1);
      assert IsLegal(h[n - 2], h[n - 1]);
    }
  }

  /** Entries to finished or crashed never outnumber claims, except by one when the origin enters running directly. */
  lemma CompletionsNeverOutnumberClaims(h: seq<JobState>)
    requires History(h)
    ensures Completions(h, |h|) <= ClaimEntries(h, |h|) + if StartsRunning(h) then 1 else 0
  {
    ClaimsAreAccountedFor(h, |h|);
  }

  /** The exception is real. */
  lemma OneCompletionWithoutAClaim()
    ensures var h := [Running, Finished];
      History(h) && Completions(h, |h|) == 1 && ClaimEntries(h, |h|) == 0
  {
    var h := [Running, Finished];
    assert Completions(h, 1) == 0 && ClaimEntries(h, 1) == 0;
  }

  /** Backwards from work in flight: a claim, with nothing but running after it. */
  lemma {:induction false} ClaimBefore(h: seq<JobState>, i: nat, k: nat) returns (c: nat)
    requires History(h) && i < k < |h| && !InFlightState(h[i]) && InFlightState(h[k])
    ensures i < c <= k && h[c] == Claimed && forall j :: c < j <= k ==> h[j] == Running
    decreases k
  {
    assert IsLegal(h[k - 1], h[k]);
    if h[k] == Claimed {
      c := k;
    } else {
      c := ClaimBefore(h, i, k - 1);
    }
  }

  /** Any two entries to finished or crashed are separated by a claim. */
  lemma CompletionsAreSeparatedByClaims(h: seq<JobState>, i: nat, k: nat) returns (c: nat)
    requires History(h) && i < k < |h| && Completes(h[i]) && Completes(h[k])
    ensures i < c < k && h[c] == Claimed
  {
    assert IsLegal(h[k - 1], h[k]);
    c := ClaimBefore(h, i, k - 1);
  }

  /** A job that is not in flight gets back to work only by being queued, and then claimed. */
  lemma BackToWorkByQueuedThenClaimed(h: seq<JobState>, i: nat, k: nat) returns (c: nat)
    requires History(h) && i < k < |h| && !InFlightState(h[i]) && InFlightState(h[k])
    ensures i < c <= k && h[c] == Claimed && h[c - 1] == Queued
    ensures forall j :: c <= j <= k ==> InFlightState(h[j])
  {
    c := ClaimBefore(h, i, k);
    assert IsLegal(h[c - 1], h[c]);
  }
}
