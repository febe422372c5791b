/**
 Order and failure of a DAG's runs when rows may be deleted. A group wake asks only about
 the members a group still has, so deleting an unfinished one can release its waiters.
 What every run keeps all the same, when exactly a delete does that, and what the answers
 of wait_for_dag() are then worth.
 */
module DagDeletes {
  import opened Digraph
  import opened DagModel
  import opened Groups
  import opened WaitGraphs
  import opened Lowering
  import opened Execution
  import opened DagRuns
  import opened Wrappers

  // ---------------------------------------------------------------------- the accounts

  /** The jobs that these events finish. */
  function DoneBy(events: seq<Event>): set<JobId> {
    if events == [] then {}
    else if events[0].Finish? then DoneBy(events[1..]) + {events[0].job}
    else DoneBy(events[1..])
  }

  lemma {:induction false} DoneByMeans(events: seq<Event>, j: JobId)
    ensures j in DoneBy(events) <==> Finish(j) in events
  {
    if events != [] {
      DoneByMeans(events[1..], j);
    }
  }

  predicate Loses(st: State, e: Event) {
    e.Delete? && e.job in st && st[e.job] != Finished
  }

  /** The jobs that a run of these events deletes before they have finished. */
  function Lost(rows: Rows, st: State, events: seq<Event>): set<JobId>
    decreases |events|
  {
    if events == [] || events[0].job !in rows then {} else
    var rest := Lost(rows, After(rows, st, events[0]), events[1..]);
    if Loses(st, events[0]) then rest + {events[0].job} else rest
  }

  /** Released at some time: it is past waiting, or has been and has finished. */
  predicate Started(st: State, done: set<JobId>, j: JobId) {
    j in done || (j in st && st[j] in {Released, Finished, Crashed})
  }

  /** Everything j waits for has finished, but for members of its group deleted before they had; and some member has. */
  ghost predicate Covered(rows: Rows, done: set<JobId>, lost: set<JobId>, j: JobId)
    requires j in rows
  {
    && (forall u :: WaitsFor(rows, j, u) ==> u in done || (u in lost && rows[j].waitforGroup.Some?))
    && (HasWait(rows[j]) ==> exists u :: WaitsFor(rows, j, u) && u in done)
  }

  /** Every row is accounted for: there, deleted after it finished, or lost; and every start was covered. */
  ghost predicate Accounted(rows: Rows, st: State, done: set<JobId>, lost: set<JobId>) {
    && st.Keys <= rows.Keys && done <= rows.Keys
    && (forall j :: j in st ==> (st[j] == Finished <==> j in done))
    && (forall j :: j in rows && j !in st ==> j in done || j in lost)
    && (forall j :: j in lost ==> j !in st && j !in done)
    && (forall j :: j in rows && Started(st, done, j) ==> Covered(rows, done, lost, j))
    && (forall j :: j in st && st[j] == Waiting ==> HasWait(rows[j]))
  }

  function DoneAfter(done: set<JobId>, e: Event): set<JobId> {
    if e.Finish? then done + {e.job} else done
  }

  function LostAfter(st: State, lost: set<JobId>, e: Event): set<JobId> {
    if Loses(st, e) then lost + {e.job} else lost
  }

  lemma WakeIsCovered(rows: Rows, st: State, done: set<JobId>, lost: set<JobId>, j: JobId)
    requires OneWait(rows) && Accounted(rows, st, done, lost) && j in st && Satisfied(rows, st, j)
    ensures Covered(rows, done, lost, j)
  {
    if rows[j].waitforJob.Some? {
      assert WaitsFor(rows, j, rows[j].waitforJob.value);
    } else {
      var u :| u in st && rows[u].runGroup == rows[j].waitforGroup;
      assert WaitsFor(rows, j, u);
    }
  }

  lemma CoverGrows(rows: Rows, done: set<JobId>, lost: set<JobId>, done': set<JobId>, lost': set<JobId>, j: JobId)
    requires j in rows && Covered(rows, done, lost, j) && done <= done' && lost <= lost'
    ensures Covered(rows, done', lost', j)
  {
  }

  lemma StepAccounts(rows: Rows, st: State, e: Event, done: set<JobId>, lost: set<JobId>)
    requires OneWait(rows) && Accounted(rows, st, done, lost) && Enabled(rows, st, e)
    ensures Accounted(rows, After(rows, st, e), DoneAfter(done, e), LostAfter(st, lost, e))
  {
    var st', done', lost' := After(rows, st, e), DoneAfter(done, e), LostAfter(st, lost, e);
    forall j | j in rows && Started(st', done', j) ensures Covered(rows, done', lost', j) {
      if Started(st, done, j) {
        CoverGrows(rows, done, lost, done', lost', j);
      } else if e.Wake? {
        WakeIsCovered(rows, st, done, lost, j);
      }
    }
  }

  /** So every run of finishes, wakes, crashes, cancels, retries and deletes keeps the accounts. */
  lemma {:induction false} RunAccounts(rows: Rows, st: State, events: seq<Event>, st': State, done: set<JobId>, lost: set<JobId>)
    requires OneWait(rows) && Accounted(rows, st, done, lost) && Run(rows, st, events, st')
    ensures Accounted(rows, st', done + DoneBy(events), lost + Lost(rows, st, events))
    decreases |events|
  {
    if events == [] {
      assert done + DoneBy([]) == done && lost + Lost(rows, st, []) == lost;
    } else {
      var e, rest := events[0], events[1..];
      StepAccounts(rows, st, e, done, lost);
      RunAccounts(rows, After(rows, st, e), rest, st', DoneAfter(done, e), LostAfter(st, lost, e));
      assert DoneAfter(done, e) + DoneBy(rest) == done + DoneBy(events);
      assert LostAfter(st, lost, e) + Lost(rows, After(rows, st, e), rest) == lost + Lost(rows, st, events);
    }
  }

  lemma InitiallyAccounted(rows: Rows)
    requires OneWait(rows)
    ensures Accounted(rows, Initial(rows), {}, {})
  {
  }

  lemma FromTheStart(rows: Rows, events: seq<Event>, st: State)
    requires OneWait(rows) && Run(rows, Initial(rows), events, st)
    ensures Accounted(rows, st, DoneBy(events), Lost(rows, Initial(rows), events))
  {
    InitiallyAccounted(rows);
    RunAccounts(rows, Initial(rows), events, st, {}, {});
    assert {} + DoneBy(events) == DoneBy(events);
    assert {} + Lost(rows, Initial(rows), events) == Lost(rows, Initial(rows), events);
  }

  // --------------------------------------------------------------------- order is kept

  /**
   In every run, a node that has started has each dependency it declared finished. The one
   way out is a fan-in's: a dependency deleted before it finished, with another member of
   its group finished.
   */
  lemma OrderButForDeletes(g: Dag, groups: GroupMap, nodeToJob: map<NodeId, JobId>, rows: Rows, events: seq<Event>, st: State,
                           n: NodeId, d: NodeId)
    requires Built(g) && InGraph(g) && IsGrouping(g, groups) && Lowered(g, groups, nodeToJob, rows)
    requires Run(rows, Initial(rows), events, st) && n in g.nodes && d in Deps(g, n)
    requires Started(st, DoneBy(events), nodeToJob[n])
    ensures nodeToJob[d] in DoneBy(events) || (FanIn(g, n) && nodeToJob[d] in Lost(rows, Initial(rows), events))
    ensures exists u :: WaitsFor(rows, nodeToJob[n], u) && u in DoneBy(events)
  {
    FromTheStart(rows, events, st);
    assert Edge(DependencyGraph(g), n, d);
    WaitsForDependencies(g, groups, n, d);
    assert Edge(WaitGraph(g, groups), n, d);
    assert WaitsFor(rows, nodeToJob[n], nodeToJob[d]);
    assert Covered(rows, DoneBy(events), Lost(rows, Initial(rows), events), nodeToJob[n]);
  }

  /** In every run that deletes only what has finished, no node gets into the queue before every dependency has finished. */
  lemma LoweringPreservesOrder(g: Dag, groups: GroupMap, nodeToJob: map<NodeId, JobId>, rows: Rows, events: seq<Event>, st: State,
                               n: NodeId, d: NodeId)
    requires Built(g) && InGraph(g) && IsGrouping(g, groups) && Lowered(g, groups, nodeToJob, rows)
    requires Run(rows, Initial(rows), events, st) && n in g.nodes && d in Deps(g, n)
    requires Lost(rows, Initial(rows), events) == {}
    ensures Started(st, DoneBy(events), nodeToJob[n]) ==> nodeToJob[d] in DoneBy(events)
    ensures nodeToJob[n] in st && st[nodeToJob[n]] in {Released, Finished, Crashed} && nodeToJob[d] in st
      ==> st[nodeToJob[d]] == Finished
  {
    FromTheStart(rows, events, st);
    if Started(st, DoneBy(events), nodeToJob[n]) {
      OrderButForDeletes(g, groups, nodeToJob, rows, events, st, n, d);
    }
  }

  // ------------------------------------------------------------------ what a delete does

  /** A member of the group j waits for. */
  predicate MemberFor(rows: Rows, j: JobId, u: JobId) {
    j in rows && u in rows && rows[j].waitforGroup.Some? && rows[u].runGroup == rows[j].waitforGroup
  }

  /** u is the last unfinished member of j's group, and not the last member. */
  ghost predicate HoldsAlone(rows: Rows, st: State, j: JobId, u: JobId) {
    && MemberFor(rows, j, u) && u in st && st[u] != Finished
    && (exists v :: v in st && v != u && MemberFor(rows, j, v))
    && (forall v :: v in st && v != u && MemberFor(rows, j, v) ==> st[v] == Finished)
  }

  /**
   The delete's own guard: deleting u releases a waiter that is not due if and only if u is
   the last unfinished one of several members of its group. Deleting the one job that a row
   waits for never does.
   */
  lemma DeleteReleasesIff(rows: Rows, st: State, j: JobId, u: JobId)
    requires OneWait(rows) && st.Keys <= rows.Keys && j in st && u in st && j != u && !Satisfied(rows, st, j)
    ensures Satisfied(rows, st - {u}, j) <==> HoldsAlone(rows, st, j, u)
  {
    var left := st - {u};
    if HoldsAlone(rows, st, j, u) {
      var v :| v in st && v != u && MemberFor(rows, j, v);
      assert v in left && rows[v].runGroup == rows[j].waitforGroup;
    }
    if Satisfied(rows, left, j) {
      assert rows[j].waitforGroup.Some?;
      var v :| v in left && rows[v].runGroup == rows[j].waitforGroup;
      assert v != u && MemberFor(rows, j, v);
      forall v | v in st && v != u && MemberFor(rows, j, v) ensures st[v] == Finished {
        assert v in left;
      }
    }
  }

  /** And then order is broken by one wake: the waiter starts, and what it waited for will never have finished. */
  lemma GuardedDeleteBreaksOrder(rows: Rows, st: State, done: set<JobId>, lost: set<JobId>, j: JobId, u: JobId) returns (st': State)
    requires OneWait(rows) && Accounted(rows, st, done, lost) && j in st && st[j] == Waiting && j != u
    requires HoldsAlone(rows, st, j, u)
    ensures Run(rows, st, [Delete(u), Wake(j)], st') && j in st' && st'[j] == Released
    ensures WaitsFor(rows, j, u) && u !in done && u in Lost(rows, st, [Delete(u), Wake(j)])
  {
    var v :| v in st && v != u && MemberFor(rows, j, v);
    assert !Satisfied(rows, st, j);
    DeleteReleasesIff(rows, st, j, u);
    var mid := After(rows, st, Delete(u));
    st' := After(rows, mid, Wake(j));
    OneStep(rows, mid, Wake(j));
    PrependRun(rows, st, Delete(u), [Wake(j)], st');
    assert [Delete(u)] + [Wake(j)] == [Delete(u), Wake(j)];
    LostFirst(rows, st, Delete(u), [Wake(j)]);
  }

  lemma OneStep(rows: Rows, st: State, e: Event)
    requires st.Keys <= rows.Keys && Enabled(rows, st, e)
    ensures Run(rows, st, [e], After(rows, st, e))
  {
    assert [e][1..] == [];
  }

  lemma LostFirst(rows: Rows, st: State, e: Event, rest: seq<Event>)
    requires e.job in rows && Loses(st, e)
    ensures e.job in Lost(rows, st, [e] + rest)
  {
    assert ([e] + rest)[1..] == rest;
  }

  predicate IsLive(s: Status) {
    s == Waiting || s == Released
  }

  /** The retention sweep's own refusals: it takes terminal rows that no live row waits for. */
  ghost predicate MayExpire(rows: Rows, st: State, u: JobId)
    requires st.Keys <= rows.Keys
  {
    && u in st && !IsLive(st[u])
    && (forall w :: w in st && IsLive(st[w]) ==> rows[w].waitforJob != Some(u))
    && (forall w :: w in st && IsLive(st[w]) && rows[w].waitforGroup.Some? ==> rows[w].waitforGroup != rows[u].runGroup)
  }

  /** It takes exactly the rows that are finished, crashed or cancelled and that nobody unfinished waits for. */
  lemma ExpiryRefusesIff(rows: Rows, st: State, u: JobId)
    requires st.Keys <= rows.Keys && u in st
    ensures MayExpire(rows, st, u) <==>
      && st[u] in {Finished, Crashed, Cancelled}
      && forall w :: w in st && WaitsFor(rows, w, u) ==> st[w] in {Finished, Crashed, Cancelled}
  {
  }

  /** So retention releases no row that is waiting when it deletes. */
  lemma RetentionReleasesNobody(rows: Rows, st: State, u: JobId, j: JobId)
    requires st.Keys <= rows.Keys && MayExpire(rows, st, u) && j in st && st[j] == Waiting
    ensures Satisfied(rows, st - {u}, j) <==> Satisfied(rows, st, j)
  {
    var left := st - {u};
    if Satisfied(rows, st, j) && rows[j].waitforGroup.Some? {
      forall v | v in st && rows[v].runGroup == rows[j].waitforGroup ensures v in left {
        assert v != u;
      }
    }
    if Satisfied(rows, left, j) && rows[j].waitforGroup.Some? {
      forall v | v in st && rows[v].runGroup == rows[j].waitforGroup ensures v in left {
        assert v != u;
      }
    }
  }

  // ---------------------------------------------------------------------- wait_for_dag()

  datatype Outcome = Succeeded | Failed | StillPending

  /** What one poll of wait_for_dag() concludes from the jorb_dag_status counts. */
  ghost function Poll(st: State): Outcome {
    var crashed := set j | j in st && st[j] == Crashed;
    var cancelled := set j | j in st && st[j] == Cancelled;
    var pending := set j | j in st && (st[j] == Waiting || st[j] == Released);
    if |crashed| != 0 || |cancelled| != 0 then Failed
    else if |st| != 0 && |pending| == 0 then Succeeded
    else StillPending
  }

  predicate HasFailed(st: State, j: JobId) {
    j in st && st[j] in {Crashed, Cancelled}
  }

  lemma PollSucceedsIff(st: State)
    ensures Poll(st) == Succeeded <==> st != map[] && AllFinished(st)
    ensures Poll(st) == Failed <==> exists j :: HasFailed(st, j)
  {
    var crashed := set j | j in st && st[j] == Crashed;
    var cancelled := set j | j in st && st[j] == Cancelled;
    var pending := set j | j in st && (st[j] == Waiting || st[j] == Released);
    if j :| HasFailed(st, j) {
      assert j in crashed || j in cancelled;
    }
    if AllFinished(st) {
      assert crashed == {} && cancelled == {} && pending == {};
    } else {
      var j :| j in st && st[j] != Finished;
      assert j in crashed || j in cancelled || j in pending;
    }
    if Poll(st) == Failed {
      var j :| j in crashed || j in cancelled;
      assert HasFailed(st, j);
    }
  }

  /** A delete takes a False answer back if and only if it takes the only failed row. */
  lemma PollForgetsIff(st: State, u: JobId)
    requires u in st && Poll(st) == Failed
    ensures Poll(st - {u}) != Failed <==> forall j :: HasFailed(st, j) ==> j == u
  {
    PollSucceedsIff(st);
    PollSucceedsIff(st - {u});
    forall j ensures HasFailed(st - {u}, j) <==> HasFailed(st, j) && j != u {
    }
  }

  ghost predicate NoRetry(events: seq<Event>) {
    forall i :: 0 <= i < |events| ==> !events[i].Retry?
  }

  /** Without a retry a failed row stays as it is or is deleted, but never finishes. */
  lemma {:induction false} FailedNeverFinishes(rows: Rows, st: State, events: seq<Event>, st': State, c: JobId)
    requires st.Keys <= rows.Keys && (c in st ==> HasFailed(st, c)) && NoRetry(events) && Run(rows, st, events, st')
    ensures c !in DoneBy(events) && (c in st' ==> HasFailed(st', c))
    decreases |events|
  {
    if events != [] {
      assert !events[0].Retry?;
      assert NoRetry(events[1..]) by {
        forall i | 0 <= i < |events[1..]| ensures !events[1..][i].Retry? {
          assert events[1..][i] == events[i + 1];
        }
      }
      FailedNeverFinishes(rows, After(rows, st, events[0]), events[1..], st', c);
    }
  }

  /** On a chain of waits, a member of the group that the one before it waits for was lost. */
  ghost predicate LostOnTheWay(rows: Rows, p: seq<JobId>, lost: set<JobId>, i: int) {
    1 <= i < |p| && p[i] in lost && MemberFor(rows, p[i - 1], p[i])
  }

  /** What has finished has everything up its chain finished, up to the first member that was lost. */
  lemma {:induction false} DoneUpstream(rows: Rows, st: State, done: set<JobId>, lost: set<JobId>, p: seq<JobId>) returns (i: nat)
    requires OneWait(rows) && Accounted(rows, st, done, lost)
    requires Walk(JobGraph(rows), p) && p[0] in done && p[|p| - 1] !in done
    ensures LostOnTheWay(rows, p, lost, i)
    decreases |p|
  {
    assert Edge(JobGraph(rows), p[0], p[1]);
    assert Covered(rows, done, lost, p[0]);
    if p[1] in done {
      var q := p[1..];
      forall k | 0 <= k < |q| - 1 ensures Edge(JobGraph(rows), q[k], q[k + 1]) {
        assert Edge(JobGraph(rows), p[k + 1], p[k + 2]);
      }
      i := DoneUpstream(rows, st, done, lost, q);
      i := i + 1;
    } else {
      i := 1;
    }
  }

  /**
   After a False answer and without a retry, a failed job never finishes, and whatever waits
   on it through some chain finishes only if a member of a group on that chain is deleted
   before it has finished.
   */
  lemma FailureIsFinalButForDeletes(rows: Rows, before: seq<Event>, st: State, events: seq<Event>, st': State, p: seq<JobId>)
    requires OneWait(rows) && st.Keys <= rows.Keys && Run(rows, Initial(rows), before, st)
    requires Run(rows, st, events, st') && NoRetry(events)
    requires Walk(JobGraph(rows), p) && HasFailed(st, p[|p| - 1])
    ensures p[|p| - 1] !in DoneBy(before) + DoneBy(events)
    ensures p[0] in DoneBy(before) + DoneBy(events) ==>
      exists i :: LostOnTheWay(rows, p, Lost(rows, Initial(rows), before) + Lost(rows, st, events), i)
  {
    var c := p[|p| - 1];
    FromTheStart(rows, before, st);
    FailedNeverFinishes(rows, st, events, st', c);
    RunAccounts(rows, st, events, st', DoneBy(before), Lost(rows, Initial(rows), before));
    if p[0] in DoneBy(before) + DoneBy(events) {
      var i := DoneUpstream(rows, st', DoneBy(before) + DoneBy(events), Lost(rows, Initial(rows), before) + Lost(rows, st, events), p);
    }
  }

  /** In particular, when only finished rows are deleted, a False answer is final. */
  lemma FailureIsFinal(rows: Rows, before: seq<Event>, st: State, events: seq<Event>, st': State, c: JobId, x: JobId)
    requires OneWait(rows) && st.Keys <= rows.Keys && Run(rows, Initial(rows), before, st)
    requires Run(rows, st, events, st') && NoRetry(events)
    requires HasFailed(st, c) && Reaches(JobGraph(rows), x, c)
    requires Lost(rows, Initial(rows), before) + Lost(rows, st, events) == {}
    ensures x !in DoneBy(before) + DoneBy(events) && (x in st' ==> st'[x] != Finished)
  {
    var p: seq<JobId> :| WalkFromTo(JobGraph(rows), p, x, c);
    FailureIsFinalButForDeletes(rows, before, st, events, st', p);
    FromTheStart(rows, before, st);
    RunAccounts(rows, st, events, st', DoneBy(before), Lost(rows, Initial(rows), before));
  }

  // ------------------------------------------------------------------------- three inputs

  const A: JobId := JobId(0)
  const B: JobId := JobId(1)
  const W: JobId := JobId(2)

  /** As execute() writes a fan-in w(a, b): the group carries the id of the member created first. */
  function FanInRows(): Rows {
    map[A := Row(NodeId(0), None, None, Some(A)), B := Row(NodeId(1), None, None, Some(A)), W := Row(NodeId(2), None, Some(A), None)]
  }

  function Standing(a: Status, b: Status, w: Status): State {
    map[A := a, B := b, W := w]
  }

  function WithoutB(a: Status, w: Status): State {
    map[A := a, W := w]
  }

  lemma Extend(rows: Rows, st: State, events: seq<Event>, mid: State, e: Event, st': State)
    requires st.Keys <= rows.Keys && mid.Keys <= rows.Keys && Run(rows, st, events, mid)
    requires Enabled(rows, mid, e) && After(rows, mid, e) == st'
    ensures Run(rows, st, events + [e], st')
  {
    AppendRun(rows, st, events, mid, e);
  }

  lemma WithoutBIsDue(w: Status)
    ensures Satisfied(FanInRows(), WithoutB(Finished, w), W)
  {
    assert A in WithoutB(Finished, w);
  }

  /** From a finished and b standing in the way, whatever b's state: delete b, and w is released. */
  lemma DeleteThenWake(b: Status)
    ensures Run(FanInRows(), Standing(Finished, b, Waiting), [Delete(B), Wake(W)], WithoutB(Finished, Released))
  {
    var rows, st := FanInRows(), Standing(Finished, b, Waiting);
    assert st - {B} == WithoutB(Finished, Waiting);
    WithoutBIsDue(Waiting);
    OneStep(rows, st, Delete(B));
    Extend(rows, st, [Delete(B)], WithoutB(Finished, Waiting), Wake(W), WithoutB(Finished, Released));
    assert [Delete(B)] + [Wake(W)] == [Delete(B), Wake(W)];
  }

  lemma AFinishes()
    ensures Run(FanInRows(), Initial(FanInRows()), [Finish(A)], Standing(Finished, Released, Waiting))
  {
    assert Initial(FanInRows()) == Standing(Released, Released, Waiting);
    OneStep(FanInRows(), Initial(FanInRows()), Finish(A));
  }

  lemma BCrashes()
    ensures Run(FanInRows(), Initial(FanInRows()), [Finish(A), Crash(B)], Standing(Finished, Crashed, Waiting))
  {
    AFinishes();
    Extend(FanInRows(), Initial(FanInRows()), [Finish(A)], Standing(Finished, Released, Waiting), Crash(B),
           Standing(Finished, Crashed, Waiting));
    assert [Finish(A)] + [Crash(B)] == [Finish(A), Crash(B)];
  }

  /** b is deleted before it has finished, a has finished, and w is queued all the same. */
  lemma QueuedOverADeletedMember() returns (events: seq<Event>, st: State)
    ensures events == [Finish(A), Delete(B), Wake(W)] && Run(FanInRows(), Initial(FanInRows()), events, st)
    ensures W in st && st[W] == Released && WaitsFor(FanInRows(), W, B) && B !in DoneBy(events)
  {
    var rows := FanInRows();
    AFinishes();
    DeleteThenWake(Released);
    events, st := [Finish(A), Delete(B), Wake(W)], WithoutB(Finished, Released);
    assert After(rows, Initial(rows), Finish(A)) == Standing(Finished, Released, Waiting);
    PrependRun(rows, Initial(rows), Finish(A), [Delete(B), Wake(W)], st);
    assert [Finish(A)] + [Delete(B), Wake(W)] == events;
    DoneByMeans(events, B);
  }

  /** wait_for_dag() answers False over the crashed b; b is deleted, w runs, and the next poll answers True. */
  lemma FalseThenTrue() returns (st: State, st': State)
    ensures st.Keys <= FanInRows().Keys && Run(FanInRows(), Initial(FanInRows()), [Finish(A), Crash(B)], st)
    ensures Run(FanInRows(), st, [Delete(B), Wake(W), Finish(W)], st')
    ensures Poll(st) == Failed && Poll(st') == Succeeded
  {
    var rows := FanInRows();
    BCrashes();
    st, st' := Standing(Finished, Crashed, Waiting), WithoutB(Finished, Finished);
    DeleteThenWake(Crashed);
    Extend(rows, st, [Delete(B), Wake(W)], WithoutB(Finished, Released), Finish(W), st');
    assert [Delete(B), Wake(W)] + [Finish(W)] == [Delete(B), Wake(W), Finish(W)];
    assert HasFailed(st, B);
    PollSucceedsIff(st);
    PollSucceedsIff(st');
  }

  lemma WCancelled()
    ensures Run(FanInRows(), Initial(FanInRows()), [Finish(A), Crash(B), Cancel(W)], Standing(Finished, Crashed, Cancelled))
  {
    BCrashes();
    Extend(FanInRows(), Initial(FanInRows()), [Finish(A), Crash(B)], Standing(Finished, Crashed, Waiting), Cancel(W),
           Standing(Finished, Crashed, Cancelled));
    assert [Finish(A), Crash(B)] + [Cancel(W)] == [Finish(A), Crash(B), Cancel(W)];
  }

  lemma RetryThenWake()
    ensures Run(FanInRows(), WithoutB(Finished, Cancelled), [Retry(W), Wake(W)], WithoutB(Finished, Released))
  {
    var st := WithoutB(Finished, Cancelled);
    WithoutBIsDue(Waiting);
    OneStep(FanInRows(), st, Retry(W));
    Extend(FanInRows(), st, [Retry(W)], WithoutB(Finished, Waiting), Wake(W), WithoutB(Finished, Released));
    assert [Retry(W)] + [Wake(W)] == [Retry(W), Wake(W)];
  }

  /** Retention takes the crashed b while w is cancelled; an operator retries w, and it runs. */
  lemma RetriedAfterRetention() returns (st: State, st': State)
    ensures st.Keys <= FanInRows().Keys && Run(FanInRows(), Initial(FanInRows()), [Finish(A), Crash(B), Cancel(W)], st)
    ensures MayExpire(FanInRows(), st, B) && Run(FanInRows(), st, [Delete(B), Retry(W), Wake(W)], st')
    ensures W in st' && st'[W] == Released && WaitsFor(FanInRows(), W, B)
    ensures B !in DoneBy([Finish(A), Crash(B), Cancel(W)]) + DoneBy([Delete(B), Retry(W), Wake(W)])
  {
    var rows := FanInRows();
    WCancelled();
    RetryThenWake();
    st, st' := Standing(Finished, Crashed, Cancelled), WithoutB(Finished, Released);
    assert After(rows, st, Delete(B)) == WithoutB(Finished, Cancelled);
    PrependRun(rows, st, Delete(B), [Retry(W), Wake(W)], st');
    assert [Delete(B)] + [Retry(W), Wake(W)] == [Delete(B), Retry(W), Wake(W)];
    DoneByMeans([Finish(A), Crash(B), Cancel(W)], B);
    DoneByMeans([Delete(B), Retry(W), Wake(W)], B);
  }
}
