/**
 Runs of the rows execute() wrote. Workers finish, crash or cancel jobs that are in the
 queue or beyond it; a waiting row is released by a wake, which the database grants only
 when the row's job, or every member that its group still has, is finished; an operator
 may retry a row; and operators, purges and retention delete rows. A state maps the rows
 that are left, `rows` keeps the wiring that all of them were written with.
 */
module DagRuns {
  import opened Digraph
  import opened DagModel
  import opened Groups
  import opened WaitGraphs
  import opened Lowering
  import opened Execution

  /** Released stands for queued, claimed or running. */
  datatype Status = Waiting | Released | Finished | Crashed | Cancelled

  type State = map<JobId, Status>

  datatype Event =
    | Finish(job: JobId)
    | Wake(job: JobId)
    | Crash(job: JobId)
    | Cancel(job: JobId)
    | Retry(job: JobId)
    | Delete(job: JobId)

  /** The condition both wake statements and the stranded-waiter sweep restate. */
  ghost predicate Satisfied(rows: Rows, st: State, j: JobId)
    requires j in rows && st.Keys <= rows.Keys
  {
    var row := rows[j];
    || (row.waitforJob.Some? && row.waitforJob.value in st && st[row.waitforJob.value] == Finished)
    || (row.waitforGroup.Some?
        && (exists u :: u in st && rows[u].runGroup == row.waitforGroup)
        && forall u :: u in st && rows[u].runGroup == row.waitforGroup ==> st[u] == Finished)
  }

  ghost predicate Enabled(rows: Rows, st: State, e: Event)
    requires st.Keys <= rows.Keys
  {
    && e.job in st
    && match e {
         case Finish(j) => st[j] == Released
         case Wake(j) => st[j] == Waiting && Satisfied(rows, st, j)
         case Crash(j) => st[j] == Released
         case Cancel(j) => st[j] == Waiting || st[j] == Released
         case Retry(j) => st[j] == Crashed || st[j] == Cancelled
         case Delete(j) => true
       }
  }

  function After(rows: Rows, st: State, e: Event): State
    requires e.job in rows
  {
    match e
    case Finish(j) => st[j := Finished]
    case Wake(j) => st[j := Released]
    case Crash(j) => st[j := Crashed]
    case Cancel(j) => st[j := Cancelled]
    case Retry(j) => st[j := if HasWait(rows[j]) then Waiting else Released]
    case Delete(j) => st - {j}
  }

  function Initial(rows: Rows): State {
    map j | j in rows :: if HasWait(rows[j]) then Waiting else Released
  }

  ghost predicate Run(rows: Rows, st: State, events: seq<Event>, st': State)
    requires st.Keys <= rows.Keys
  {
    if events == [] then st' == st
    else Enabled(rows, st, events[0]) && Run(rows, After(rows, st, events[0]), events[1..], st')
  }

  /** What is deleted does not come back. */
  lemma {:induction false} RunsOnlyShrink(rows: Rows, st: State, events: seq<Event>, st': State)
    requires st.Keys <= rows.Keys && Run(rows, st, events, st')
    ensures st'.Keys <= st.Keys
    decreases |events|
  {
    if events != [] {
      RunsOnlyShrink(rows, After(rows, st, events[0]), events[1..], st');
    }
  }

  ghost predicate AllFinished(st: State) {
    forall j :: j in st ==> st[j] == Finished
  }

  // --------------------------------------------------------------------- order is kept

  ghost predicate WaitedOut(rows: Rows, st: State, j: JobId) {
    forall u :: WaitsFor(rows, j, u) ==> u in st && st[u] == Finished
  }

  /** With every row still there: none is past waiting while something it waits for is unfinished. */
  ghost predicate Ordered(rows: Rows, st: State) {
    && st.Keys == rows.Keys
    && (forall j :: j in st && st[j] in {Released, Finished, Crashed} ==> WaitedOut(rows, st, j))
    && (forall j :: j in st && st[j] == Waiting ==> HasWait(rows[j]))
  }

  /** A row never carries both kinds of wait. */
  ghost predicate OneWait(rows: Rows) {
    forall j :: j in rows ==> !(rows[j].waitforJob.Some? && rows[j].waitforGroup.Some?)
  }

  lemma WakeMeansWaitedOut(rows: Rows, st: State, j: JobId)
    requires OneWait(rows) && st.Keys == rows.Keys && j in rows && Satisfied(rows, st, j)
    ensures WaitedOut(rows, st, j)
  {
  }

  lemma StepKeepsOrder(rows: Rows, st: State, e: Event)
    requires OneWait(rows) && Ordered(rows, st) && Enabled(rows, st, e) && !e.Delete?
    ensures Ordered(rows, After(rows, st, e))
  {
    var st' := After(rows, st, e);
    forall j | j in st' && st'[j] in {Released, Finished, Crashed} ensures WaitedOut(rows, st', j) {
      if j == e.job && (e.Wake? || e.Retry?) {
        forall u | WaitsFor(rows, j, u) ensures u in st' && st'[u] == Finished {
          assert e.Wake?;
        }
      } else {
        assert WaitedOut(rows, st, j);
      }
    }
  }

  /** Up to the first delete. DagDeletes says what holds beyond it. */
  lemma {:induction false} RunKeepsOrder(rows: Rows, st: State, events: seq<Event>, st': State)
    requires OneWait(rows) && Ordered(rows, st) && Run(rows, st, events, st') && st'.Keys == rows.Keys
    ensures Ordered(rows, st')
    decreases |events|
  {
    if events != [] {
      RunsOnlyShrink(rows, After(rows, st, events[0]), events[1..], st');
      StepKeepsOrder(rows, st, events[0]);
      RunKeepsOrder(rows, After(rows, st, events[0]), events[1..], st');
    }
  }

  lemma InitiallyOrdered(rows: Rows)
    ensures Ordered(rows, Initial(rows))
  {
  }

  // ------------------------------------------------------------------------- progress

  ghost function JobGraph(rows: Rows): (r: Graph<JobId>)
    ensures forall a, b :: Edge(r, a, b) <==> WaitsFor(rows, a, b)
  {
    map j | j in rows :: set u | u in rows && WaitsFor(rows, j, u)
  }

  /** Every wait is for something, so a wake can come to pass. */
  ghost predicate Grounded(rows: Rows) {
    && OneWait(rows)
    && forall j :: j in rows && HasWait(rows[j]) ==> exists u :: WaitsFor(rows, j, u)
  }

  /** No job has crashed or been cancelled. */
  ghost predicate Clean(st: State) {
    forall j :: j in st ==> st[j] in {Waiting, Released, Finished}
  }

  predicate IsForward(e: Event) {
    e.Finish? || e.Wake?
  }

  ghost predicate CrashFree(events: seq<Event>) {
    forall i :: 0 <= i < |events| ==> IsForward(events[i])
  }

  /** As long as the waits are acyclic, something can always happen until everything has finished. */
  lemma AlwaysRunnable(rows: Rows, st: State) returns (e: Event)
    requires Grounded(rows) && Ordered(rows, st) && Clean(st) && Acyclic(JobGraph(rows)) && !AllFinished(st)
    ensures IsForward(e) && Enabled(rows, st, e)
  {
    var unfinished := set j | j in st && st[j] != Finished;
    var x :| x in st && st[x] != Finished;
    assert x in unfinished;
    var j := AcyclicHasSink(JobGraph(rows), unfinished);
    assert st[j] != Finished;
    forall u | WaitsFor(rows, j, u) ensures st[u] == Finished {
      assert Edge(JobGraph(rows), j, u);
    }
    if st[j] == Released {
      e := Finish(j);
    } else {
      var u :| WaitsFor(rows, j, u);
      assert rows[j].waitforGroup.Some? ==> forall v :: v in rows && rows[v].runGroup == rows[j].waitforGroup ==> WaitsFor(rows, j, v);
      e := Wake(j);
    }
  }

  ghost function Done(st: State): set<JobId> {
    set j | j in st && st[j] == Finished
  }

  ghost function Woken(rows: Rows, st: State): set<JobId> {
    set j | j in st && j in rows && HasWait(rows[j]) && st[j] != Waiting
  }

  function Finishes(events: seq<Event>): nat {
    if events == [] then 0 else (if events[0].Finish? then 1 else 0) + Finishes(events[1..])
  }

  lemma ForwardSets(rows: Rows, st: State, e: Event)
    requires Ordered(rows, st) && Clean(st) && IsForward(e) && Enabled(rows, st, e)
    ensures var mid := After(rows, st, e);
      && Clean(mid) && e.job in rows
      && (e.Finish? ==> e.job !in Done(st) && Done(mid) == Done(st) + {e.job} && Woken(rows, mid) == Woken(rows, st))
      && (e.Wake? ==> e.job !in Woken(rows, st) && Done(mid) == Done(st) && Woken(rows, mid) == Woken(rows, st) + {e.job})
  {
  }

  /** Each finish step finishes one more job, each wake step releases one more waiter. */
  lemma {:induction false} StepsAreCounted(rows: Rows, st: State, events: seq<Event>, st': State)
    requires Ordered(rows, st) && OneWait(rows) && Clean(st) && CrashFree(events) && Run(rows, st, events, st')
    ensures Clean(st') && st'.Keys == rows.Keys
    ensures Finishes(events) == |Done(st')| - |Done(st)|
    ensures |events| == |Done(st')| - |Done(st)| + |Woken(rows, st')| - |Woken(rows, st)|
    decreases |events|
  {
    if events != [] {
      assert IsForward(events[0]);
      assert CrashFree(events[1..]) by {
        forall i | 0 <= i < |events[1..]| ensures IsForward(events[1..][i]) {
          assert events[1..][i] == events[i + 1];
        }
      }
      StepKeepsOrder(rows, st, events[0]);
      ForwardSets(rows, st, events[0]);
      StepsAreCounted(rows, After(rows, st, events[0]), events[1..], st');
    }
  }

  /** A crash-free run that ends with everything finished has one finish step per node. */
  lemma ExactlyOneFinishEach(g: Dag, groups: GroupMap, nodeToJob: map<NodeId, JobId>, rows: Rows, events: seq<Event>, st: State)
    requires Built(g) && Lowered(g, groups, nodeToJob, rows)
    requires CrashFree(events) && Run(rows, Initial(rows), events, st) && AllFinished(st)
    ensures Finishes(events) == |g.nodes|
  {
    InitiallyOrdered(rows);
    StepsAreCounted(rows, Initial(rows), events, st);
    assert Done(Initial(rows)) == {};
    assert Done(st) == rows.Keys;
    SameSize(g.nodes, nodeToJob, rows.Keys);
  }

  lemma {:induction false} SameSize(nodes: seq<NodeId>, f: map<NodeId, JobId>, jobs: set<JobId>)
    requires Distinct(nodes) && forall n :: n in nodes ==> n in f && f[n] in jobs
    requires forall a, b :: a in nodes && b in nodes && f[a] == f[b] ==> a == b
    requires forall j :: j in jobs ==> exists n :: n in nodes && f[n] == j
    ensures |jobs| == |nodes|
  {
    if nodes == [] {
      assert jobs == {};
    } else {
      var first, rest := nodes[0], nodes[1..];
      forall n | n in rest ensures n != first {
        var k :| 0 <= k < |rest| && rest[k] == n;
        assert nodes[k + 1] == n;
      }
      forall j | j in jobs - {f[first]} ensures exists n :: n in rest && f[n] == j {
        var n :| n in nodes && f[n] == j;
        assert n in rest;
      }
      SameSize(rest, f, jobs - {f[first]});
    }
  }

  ghost function Remaining(rows: Rows, st: State): nat {
    |rows.Keys - Done(st)| + |rows.Keys - Woken(rows, st)|
  }

  lemma OneFewer(all: set<JobId>, done: set<JobId>, x: JobId)
    requires x in all && x !in done
    ensures |all - (done + {x})| == |all - done| - 1
  {
    assert all - (done + {x}) == all - done - {x};
  }

  lemma ForwardStep(rows: Rows, st: State, e: Event)
    requires Ordered(rows, st) && Clean(st) && IsForward(e) && Enabled(rows, st, e)
    ensures Clean(After(rows, st, e)) && Remaining(rows, After(rows, st, e)) < Remaining(rows, st)
  {
    ForwardSets(rows, st, e);
    OneFewer(rows.Keys, if e.Finish? then Done(st) else Woken(rows, st), e.job);
  }

  lemma PrependRun(rows: Rows, st: State, e: Event, rest: seq<Event>, st': State)
    requires st.Keys <= rows.Keys && Enabled(rows, st, e) && Run(rows, After(rows, st, e), rest, st')
    ensures Run(rows, st, [e] + rest, st')
    ensures IsForward(e) && CrashFree(rest) ==> CrashFree([e] + rest)
  {
    assert ([e] + rest)[1..] == rest;
  }

  /** From any clean state the run can be carried through to the end. */
  lemma {:induction false} RunToTheEnd(rows: Rows, st: State) returns (events: seq<Event>, st': State)
    requires Grounded(rows) && Ordered(rows, st) && Clean(st) && Acyclic(JobGraph(rows))
    ensures CrashFree(events) && Run(rows, st, events, st') && st'.Keys == rows.Keys && AllFinished(st')
    decreases Remaining(rows, st)
  {
    if AllFinished(st) {
      events, st' := [], st;
    } else {
      var e := AlwaysRunnable(rows, st);
      StepKeepsOrder(rows, st, e);
      ForwardStep(rows, st, e);
      var rest, last := RunToTheEnd(rows, After(rows, st, e));
      PrependRun(rows, st, e, rest, last);
      events, st' := [e] + rest, last;
    }
  }

  // ------------------------------------------------------------------------- recovery

  ghost function Failed(st: State): set<JobId> {
    set j | j in st && (st[j] == Crashed || st[j] == Cancelled)
  }

  lemma RetryRepairs(rows: Rows, st: State, j: JobId)
    requires OneWait(rows) && Ordered(rows, st) && j in st && (st[j] == Crashed || st[j] == Cancelled)
    ensures Enabled(rows, st, Retry(j)) && Ordered(rows, After(rows, st, Retry(j)))
    ensures Failed(After(rows, st, Retry(j))) == Failed(st) - {j}
  {
    StepKeepsOrder(rows, st, Retry(j));
  }

  /** Nothing crashes, is cancelled or is deleted any more. */
  ghost predicate Mending(events: seq<Event>) {
    forall i :: 0 <= i < |events| ==> IsForward(events[i]) || events[i].Retry?
  }

  lemma PrependRetry(rows: Rows, st: State, j: JobId, rest: seq<Event>, st': State)
    requires st.Keys <= rows.Keys && Enabled(rows, st, Retry(j)) && Run(rows, After(rows, st, Retry(j)), rest, st')
    requires Mending(rest)
    ensures Run(rows, st, [Retry(j)] + rest, st') && Mending([Retry(j)] + rest)
  {
    PrependRun(rows, st, Retry(j), rest, st');
  }

  /** Whatever has crashed or been cancelled, retries and then a crash-free run bring every job to its end. */
  lemma {:induction false} RetriesRecover(rows: Rows, st: State) returns (events: seq<Event>, st': State)
    requires Grounded(rows) && Ordered(rows, st) && Acyclic(JobGraph(rows))
    ensures Run(rows, st, events, st') && st'.Keys == rows.Keys && AllFinished(st') && Mending(events)
    decreases |Failed(st)|
  {
    if j :| j in Failed(st) {
      RetryRepairs(rows, st, j);
      var rest, last := RetriesRecover(rows, After(rows, st, Retry(j)));
      PrependRetry(rows, st, j, rest, last);
      events, st' := [Retry(j)] + rest, last;
    } else {
      NoneFailedIsClean(st);
      events, st' := RunToTheEnd(rows, st);
      assert CrashFree(events);
    }
  }

  lemma NoneFailedIsClean(st: State)
    requires Failed(st) == {}
    ensures Clean(st)
  {
    assert forall i :: i in st ==> i !in Failed(st);
  }

  // --------------------------------------------------------------------------- wedging

  ghost predicate AllHeld(st: State, c: seq<JobId>) {
    forall i :: 0 <= i < |c| ==> c[i] in st && (st[c[i]] == Waiting || st[c[i]] == Cancelled)
  }

  lemma StepKeepsHeld(rows: Rows, st: State, e: Event, c: seq<JobId>)
    requires st.Keys == rows.Keys && OneWait(rows) && Cycle(JobGraph(rows), c) && AllHeld(st, c)
    requires Enabled(rows, st, e) && !e.Delete?
    ensures AllHeld(After(rows, st, e), c)
  {
    var st' := After(rows, st, e);
    forall i | 0 <= i < |c| ensures c[i] in st' && (st'[c[i]] == Waiting || st'[c[i]] == Cancelled) {
      var k := if i == |c| - 1 then 0 else i;
      assert Edge(JobGraph(rows), c[k], c[k + 1]);
      assert WaitsFor(rows, c[i], c[k + 1]);
      if e.job == c[i] && e.Wake? {
        WakeMeansWaitedOut(rows, st, c[i]);
        assert false;
      }
    }
  }

  /** Until a row is deleted, jobs on a cycle of waits never leave it: not by finishing, crashing, nor after any retry. */
  lemma {:induction false} CycleNeverRuns(rows: Rows, st: State, events: seq<Event>, st': State, c: seq<JobId>)
    requires st.Keys == rows.Keys && OneWait(rows) && Cycle(JobGraph(rows), c) && AllHeld(st, c)
    requires Run(rows, st, events, st') && st'.Keys == rows.Keys
    ensures AllHeld(st', c)
    decreases |events|
  {
    if events != [] {
      RunsOnlyShrink(rows, After(rows, st, events[0]), events[1..], st');
      StepKeepsHeld(rows, st, events[0], c);
      CycleNeverRuns(rows, After(rows, st, events[0]), events[1..], st', c);
    }
  }

  lemma CycleIsHeldFromTheStart(rows: Rows, c: seq<JobId>)
    requires Cycle(JobGraph(rows), c)
    ensures AllHeld(Initial(rows), c)
  {
    forall i | 0 <= i < |c| ensures c[i] in Initial(rows) && Initial(rows)[c[i]] == Waiting {
      var k := if i == |c| - 1 then 0 else i;
      assert Edge(JobGraph(rows), c[k], c[k + 1]);
    }
  }

  // ---------------------------------------------------------- back to the builder's graph

  lemma LoweredIsGrounded(g: Dag, groups: GroupMap, nodeToJob: map<NodeId, JobId>, rows: Rows)
    requires Built(g) && InGraph(g) && IsGrouping(g, groups) && Lowered(g, groups, nodeToJob, rows)
    ensures Grounded(rows)
  {
    forall j | j in rows && HasWait(rows[j]) ensures exists u :: WaitsFor(rows, j, u) {
      var n := rows[j].payload;
      var d := Deps(g, n)[0];
      assert Edge(DependencyGraph(g), n, d);
      WaitsForDependencies(g, groups, n, d);
      assert Edge(WaitGraph(g, groups), n, d);
      assert WaitsFor(rows, nodeToJob[n], nodeToJob[d]);
    }
  }

  lemma SameCycles(g: Dag, groups: GroupMap, nodeToJob: map<NodeId, JobId>, rows: Rows)
    requires Built(g) && InGraph(g) && IsGrouping(g, groups) && Lowered(g, groups, nodeToJob, rows)
    ensures Acyclic(JobGraph(rows)) <==> Acyclic(WaitGraph(g, groups))
  {
    var payload := map j | j in rows :: rows[j].payload;
    if Acyclic(WaitGraph(g, groups)) {
      forall a, b | Edge(JobGraph(rows), a, b)
        ensures a in payload && b in payload && Edge(WaitGraph(g, groups), payload[a], payload[b])
      {
        assert WaitsFor(rows, nodeToJob[payload[a]], nodeToJob[payload[b]]);
      }
      MappedCycle(JobGraph(rows), WaitGraph(g, groups), payload);
    }
    if Acyclic(JobGraph(rows)) {
      forall n, m | Edge(WaitGraph(g, groups), n, m)
        ensures n in nodeToJob && m in nodeToJob && Edge(JobGraph(rows), nodeToJob[n], nodeToJob[m])
      {
        WaitsStayInGraph(g, groups, n, m);
        assert WaitsFor(rows, nodeToJob[n], nodeToJob[m]);
      }
      MappedCycle(WaitGraph(g, groups), JobGraph(rows), nodeToJob);
    }
  }

  lemma WaitsStayInGraph(g: Dag, groups: GroupMap, n: NodeId, m: NodeId)
    requires Built(g) && InGraph(g) && IsGrouping(g, groups) && n in g.nodes && m in WaitSet(g, groups, n)
    ensures m in g.nodes
  {
    if n in groups {
      GroupHoldsDependencies(g, groups, n);
    }
  }

  /** Some run leaves every row that was written there, and finished. */
  ghost predicate CanComplete(rows: Rows) {
    exists events, st :: Run(rows, Initial(rows), events, st) && st.Keys == rows.Keys && AllFinished(st)
  }

  lemma RowsCompleteIff(rows: Rows)
    requires Grounded(rows)
    ensures CanComplete(rows) <==> Acyclic(JobGraph(rows))
  {
    if Acyclic(JobGraph(rows)) {
      InitiallyOrdered(rows);
      var events, st := RunToTheEnd(rows, Initial(rows));
    }
    if c: seq<JobId> :| Cycle(JobGraph(rows), c) {
      CycleCannotComplete(rows, c);
    }
  }

  lemma CycleCannotComplete(rows: Rows, c: seq<JobId>)
    requires OneWait(rows) && Cycle(JobGraph(rows), c)
    ensures !CanComplete(rows)
  {
    CycleIsHeldFromTheStart(rows, c);
    if CanComplete(rows) {
      var events, st :| Run(rows, Initial(rows), events, st) && st.Keys == rows.Keys && AllFinished(st);
      CycleNeverRuns(rows, Initial(rows), events, st, c);
    }
  }

  /**
   The exact condition under which an executed DAG can run to completion: no circle of
   fan-ins each held up by the next. When it holds, every clean state can be completed
   (RunToTheEnd); when it fails, no sequence of wakes, crashes, cancels, retries and
   deletes leaves a DAG in which every job has finished.
   */
  lemma CompletesIff(g: Dag, groups: GroupMap, nodeToJob: map<NodeId, JobId>, rows: Rows)
    requires Built(g) && InGraph(g) && Acyclic(DependencyGraph(g)) && IsGrouping(g, groups)
    requires Lowered(g, groups, nodeToJob, rows)
    ensures CanComplete(rows) <==> Acyclic(GroupGraph(g, groups))
  {
    LoweredIsGrounded(g, groups, nodeToJob, rows);
    SameCycles(g, groups, nodeToJob, rows);
    DeadlockFreeIff(g, groups);
    RowsCompleteIff(rows);
  }

  /** The rest of a run leads to a state in which every job that was written is there, and finished. */
  ghost predicate CanStillComplete(rows: Rows, st: State)
    requires st.Keys <= rows.Keys
  {
    exists events, st' :: Run(rows, st, events, st') && st'.Keys == rows.Keys && AllFinished(st')
  }

  /**
   And it is the exact condition for recovery: from any state of any run that has deleted
   nothing, whatever crashed or was cancelled on the way, the DAG can still be completed.
   */
  lemma RecoversIff(g: Dag, groups: GroupMap, nodeToJob: map<NodeId, JobId>, rows: Rows, events: seq<Event>, st: State)
    requires Built(g) && InGraph(g) && Acyclic(DependencyGraph(g)) && IsGrouping(g, groups)
    requires Lowered(g, groups, nodeToJob, rows) && Run(rows, Initial(rows), events, st) && st.Keys == rows.Keys
    ensures CanStillComplete(rows, st) <==> Acyclic(GroupGraph(g, groups))
  {
    LoweredIsGrounded(g, groups, nodeToJob, rows);
    SameCycles(g, groups, nodeToJob, rows);
    DeadlockFreeIff(g, groups);
    if Acyclic(JobGraph(rows)) {
      InitiallyOrdered(rows);
      RunKeepsOrder(rows, Initial(rows), events, st);
      var more, end := RetriesRecover(rows, st);
    }
    if c: seq<JobId> :| Cycle(JobGraph(rows), c) {
      CycleCannotRecover(rows, c, events, st);
    }
  }

  lemma CycleCannotRecover(rows: Rows, c: seq<JobId>, events: seq<Event>, st: State)
    requires OneWait(rows) && Cycle(JobGraph(rows), c) && Run(rows, Initial(rows), events, st) && st.Keys == rows.Keys
    ensures !CanStillComplete(rows, st)
  {
    CycleIsHeldFromTheStart(rows, c);
    CycleNeverRuns(rows, Initial(rows), events, st, c);
    if CanStillComplete(rows, st) {
      var more, end :| Run(rows, st, more, end) && end.Keys == rows.Keys && AllFinished(end);
      CycleNeverRuns(rows, st, more, end, c);
    }
  }

  lemma {:induction false} CrashFreeDeletesNothing(rows: Rows, st: State, events: seq<Event>, st': State)
    requires st.Keys <= rows.Keys && CrashFree(events) && Run(rows, st, events, st')
    ensures st'.Keys == st.Keys
    decreases |events|
  {
    if events != [] {
      assert IsForward(events[0]);
      assert CrashFree(events[1..]) by {
        forall i | 0 <= i < |events[1..]| ensures IsForward(events[1..][i]) {
          assert events[1..][i] == events[i + 1];
        }
      }
      CrashFreeDeletesNothing(rows, After(rows, st, events[0]), events[1..], st');
    }
  }

  /** Under that exact condition no crash-free run ever wedges, and it ends after one finish a node. */
  lemma NeverWedges(g: Dag, groups: GroupMap, nodeToJob: map<NodeId, JobId>, rows: Rows, events: seq<Event>, st: State)
    requires Built(g) && InGraph(g) && Acyclic(DependencyGraph(g)) && IsGrouping(g, groups)
    requires Lowered(g, groups, nodeToJob, rows) && Acyclic(GroupGraph(g, groups))
    requires CrashFree(events) && Run(rows, Initial(rows), events, st)
    ensures st.Keys == rows.Keys
    ensures AllFinished(st) || exists e :: IsForward(e) && Enabled(rows, st, e)
    ensures AllFinished(st) ==> Finishes(events) == |g.nodes|
  {
    CrashFreeDeletesNothing(rows, Initial(rows), events, st);
    DeadlockFreeIff(g, groups);
    SameCycles(g, groups, nodeToJob, rows);
    LoweredIsGrounded(g, groups, nodeToJob, rows);
    InitiallyOrdered(rows);
    RunKeepsOrder(rows, Initial(rows), events, st);
    StepsAreCounted(rows, Initial(rows), events, st);
    if AllFinished(st) {
      ExactlyOneFinishEach(g, groups, nodeToJob, rows, events, st);
    } else {
      var e := AlwaysRunnable(rows, st);
    }
  }

  /** No crash-free run ever stops short. */
  ghost predicate WedgeFree(rows: Rows) {
    forall events, st :: CrashFree(events) && Run(rows, Initial(rows), events, st) ==> Goes(rows, st)
  }

  ghost predicate Goes(rows: Rows, st: State) {
    st.Keys == rows.Keys && (AllFinished(st) || exists e :: IsForward(e) && Enabled(rows, st, e))
  }

  lemma {:induction false} AppendRun(rows: Rows, st: State, events: seq<Event>, mid: State, e: Event)
    requires st.Keys <= rows.Keys && mid.Keys <= rows.Keys && Run(rows, st, events, mid) && Enabled(rows, mid, e)
    ensures Run(rows, st, events + [e], After(rows, mid, e))
    decreases |events|
  {
    if events == [] {
      assert ([e] + [])[1..] == [];
    } else {
      AppendRun(rows, After(rows, st, events[0]), events[1..], mid, e);
      assert (events + [e])[1..] == events[1..] + [e];
    }
  }

  /** A run that never stops short gets to the end, for every step brings it nearer. */
  lemma {:induction false} GoesToTheEnd(rows: Rows, events: seq<Event>, st: State)
    requires WedgeFree(rows) && OneWait(rows) && st.Keys == rows.Keys && Ordered(rows, st) && Clean(st)
    requires CrashFree(events) && Run(rows, Initial(rows), events, st)
    ensures CanComplete(rows)
    decreases Remaining(rows, st)
  {
    assert Goes(rows, st);
    if !AllFinished(st) {
      var e := GoesOn(rows, events, st);
      GoesToTheEnd(rows, events + [e], After(rows, st, e));
    }
  }

  lemma LongerRun(rows: Rows, events: seq<Event>, st: State, e: Event)
    requires st.Keys == rows.Keys && CrashFree(events) && Run(rows, Initial(rows), events, st)
    requires IsForward(e) && Enabled(rows, st, e)
    ensures CrashFree(events + [e]) && Run(rows, Initial(rows), events + [e], After(rows, st, e))
  {
    AppendRun(rows, Initial(rows), events, st, e);
  }

  lemma GoesOn(rows: Rows, events: seq<Event>, st: State) returns (e: Event)
    requires Goes(rows, st) && !AllFinished(st) && OneWait(rows) && Ordered(rows, st) && Clean(st)
    requires CrashFree(events) && Run(rows, Initial(rows), events, st)
    ensures IsForward(e) && Enabled(rows, st, e)
    ensures Ordered(rows, After(rows, st, e)) && Clean(After(rows, st, e))
    ensures Remaining(rows, After(rows, st, e)) < Remaining(rows, st)
    ensures CrashFree(events + [e]) && Run(rows, Initial(rows), events + [e], After(rows, st, e))
  {
    e :| IsForward(e) && Enabled(rows, st, e);
    LongerRun(rows, events, st, e);
    StepKeepsOrder(rows, st, e);
    ForwardStep(rows, st, e);
  }

  /** And the condition is exact for this promise too. */
  lemma WedgeFreeIff(g: Dag, groups: GroupMap, nodeToJob: map<NodeId, JobId>, rows: Rows)
    requires Built(g) && InGraph(g) && Acyclic(DependencyGraph(g)) && IsGrouping(g, groups)
    requires Lowered(g, groups, nodeToJob, rows)
    ensures WedgeFree(rows) <==> Acyclic(GroupGraph(g, groups))
  {
    if Acyclic(GroupGraph(g, groups)) {
      forall events, st | CrashFree(events) && Run(rows, Initial(rows), events, st) ensures Goes(rows, st) {
        NeverWedges(g, groups, nodeToJob, rows, events, st);
      }
    }
    if WedgeFree(rows) {
      LoweredIsGrounded(g, groups, nodeToJob, rows);
      InitiallyOrdered(rows);
      GoesToTheEnd(rows, [], Initial(rows));
      CompletesIff(g, groups, nodeToJob, rows);
    }
  }

  /** The documented promise, on graphs that are easy to tell beforehand: at most one widened group. */
  lemma AcceptedDagNeverWedges(g: Dag, groups: GroupMap, nodeToJob: map<NodeId, JobId>, rows: Rows, events: seq<Event>, st: State)
    requires Accepted(g, groups) && Lowered(g, groups, nodeToJob, rows)
    requires forall a, b :: Widened(g, groups, a) && Widened(g, groups, b) ==> groups[a] == groups[b]
    requires CrashFree(events) && Run(rows, Initial(rows), events, st)
    ensures st.Keys == rows.Keys
    ensures AllFinished(st) || exists e :: IsForward(e) && Enabled(rows, st, e)
    ensures AllFinished(st) ==> Finishes(events) == |g.nodes|
  {
    OneWidenedGroupIsSafe(g, groups);
    DeadlockFreeIff(g, groups);
    NeverWedges(g, groups, nodeToJob, rows, events, st);
  }
}
