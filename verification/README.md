# pyjobby, verified

pyjobby is a job queue kept in PostgreSQL. This project models the parts of it whose
correctness is not visible in any one function, and proves what they promise.

* **The DAG compiler** (`Digraph`, `DagModel`, `CycleSearch`, `Levels`, `UnionFind`,
  `Downstreams`, `Groups`, `WaitGraphs`, `Lowering`, `Execution`, `DagRuns`, `DagDeletes`,
  `DagWitness`).
  `DAGBuilder` turns a dependency graph into job rows that can each wait for one job or for
  one group. The source's loops are methods and classes here: the recursive cycle search,
  Kahn peeling, union-find with its compression, the downstream closure, the deadlock check
  and the wiring loop of `execute()`. On top of them stands a run semantics of the emitted
  rows, with wakes, crashes, cancels, retries and deletes.
* **The two speculative-enqueue protocols** (`Speculation`, `Identity`, `Debounce`), as state
  machines over interleaved callers, workers, operators and deletes. A statement is a
  snapshot event and a later conflict-resolution event.
* **The claim and its explainers** (`Claims`, `RateWindow`, `Explain`): the claim's
  eligibility and order, caps per queue or per lane, the sliding rate window, and the two
  diagnosers that have to agree with it.
* **The durable stream reader and the wait loop** (`Streams`, `Wakeup`).
* **Cron catch-up, machine declarations and the job lifecycle** (`Cron`, `Fsm`, `Lifecycle`).

Datetimes are integers. An SQL statement is one atomic step, or two where the source's
comments say that its snapshot and its effect are separate instants. `Wrappers` and `Sets`
hold the few definitions that everything else shares.

## Findings

Some promises do not hold as they are written. Each has a witness here, next to the
condition under which the promise does hold.

* `validate()` accepts graphs whose jobs can never all finish (`pyjobby/dag.py:297-310`
  looks at one merged group at a time). `DagWitness.ValidationDoesNotPreventWedging` is such
  a graph. `DagRuns.CompletesIff` and `DagRuns.WedgeFreeIff` give the exact condition: no
  circle of fan-ins, each held up by the next. `WaitGraphs.OneWidenedGroupIsSafe` gives one
  that is easy to check first.
* The verbs that delete jobs do not look at dependents (`pyjobby/client.py:3059-3088`,
  `pyjobby/client.py:3167-3190`, `pyjobby/admin_api.py:1634-1686`), and a group wake asks only
  about the members that are left. So a fan-in can start over a dependency that never
  finished, and an answer of False from `wait_for_dag` can turn into True without a retry
  (`DagDeletes.QueuedOverADeletedMember`, `FalseThenTrue` and, by way of retention,
  `RetriedAfterRetention`). The exact condition at the delete is `DagDeletes.DeleteReleasesIff`;
  what every run keeps is `OrderButForDeletes` and `FailureIsFinalButForDeletes`.
* On a partitioned queue with a `max_concurrency` of zero or less, `explain_job` reports a
  lane at its cap while the claim admits a first job into it
  (`Claims.ConcurrencyVerdictAgrees`, `Claims.ZeroCapAdmitsOnePerLane`). The column has no
  CHECK, and a lane without rows makes no group in the claim's count.
* `explain_job` counts the priority, capability and version gates over the fleet one by one,
  so `claimable` may be the answer about a job that no live worker can take
  (`Explain.ClaimableYetOutOfReach`); it is within reach exactly of the workers that pass all
  three gates (`Explain.ClaimableNeedsOneWorkerForAllGates`).
* Every other answer is sound, except about a lane at a limit that counts no row: a cap or a
  `rate_limit` of zero or less on a partitioned queue (`Explain.NotClaimableIsOutOfReach` is
  the exact condition, `Explain.LimitedYetInReach` the witness, `Claims.RateVerdictAgrees`
  the rate limit's half).
* A row may be enqueued to wait for the group it is a member of (`pyjobby/client.py:1701-1702`
  refuses only two waits at once). `explain_job` answers `waiting_on_group` and no finish can
  release it: `Explain.WaitingAnswersSayWhatItTakes` has the exact condition.
* A later `debounce` call's cap is not supposed to change the window it joins
  (`pyjobby/client.py:1268-1274`), but it bounds the call's own `run_after` before the bounce
  (`pyjobby/client.py:1331-1332`) and so can pull the job in: `Debounce.BurstOfTwo` is such a
  run, `Debounce.LaterCapMattersIff` the exact condition.
* Purging jobs that are still inside their rate period lets a window admit more than
  `rate_limit` (`RateWindow.DeletionBreaksTheBound`), but never by more than were purged
  (`RateWindow.RateHoldsButForPurges`). A delete lets a held-back claim through exactly when
  the window is just full and the deleted row inside its period
  (`RateWindow.PurgeReopensIff`, `RateWindow.PurgeAdmitsIff`).
* `validate` of a machine refuses states that no transition reaches, but accepts states that
  only reach each other (`Fsm.IslandIsAccepted`). Every declared state can be got to if and
  only if every cycle can be entered from the initial one (`Fsm.ReachableIff`).
* `missed_cron_runs` with an `until` that carries the schedule's very own zone object compares
  wall-clock times, so one in the second pass of a repeated hour ends the walk early
  (`Cron.RepeatedHourEndsEarly`); `Cron.StopMeans` is the exact condition. The scheduler passes
  the database's clock or `utcnow()`, where `Cron.OrdinaryUntilIsAnInstant` applies.
* A `read_stream` that was given a negative offset cannot be resumed by counting
  (`Streams.ResumeLosesNothing`).

Where code and comments disagree the code is followed. The comment at
`pyjobby/client.py:2430-2437` says that `compact()` clears `awaited`; the statement that
compacts keeps it (`pyjobby/dxe.py:372-388`), so the latch never falls here. The comment at
`pyjobby/sql/schema/90_notify.sql:247-254` says that no row lock orders a publish against a
registration; `SET_EVENT_SQL` and `STREAM_APPEND_SQL` take the job row FOR SHARE, so it is
ordered, and `Wakeup.WithoutTheLockAWakeupIsLost` shows what would happen if it were not.
The listing `unclaimable_jobs` shares its reasons with `explain_job` only on a queue that is
not paused (`Explain.PauseHidesSweepReasons`).

## Model

| member | source | states |
|---|---|---|
| CycleSearch.Search.HasCycle | pyjobby/dag.py:182-194 | the recursive search answers true only if the graph has a directed cycle, and otherwise leaves the node visited, the recursion stack as it found it and a dependencies-first order of everything it finished |
| CycleSearch.FindCycle | pyjobby/dag.py:178-198 | validate()'s cycle test fires if and only if the graph has a directed cycle |
| CycleSearch.ClosesCycle | pyjobby/dag.py:191-192 | a dependency that is still on the recursion stack closes a real cycle |
| Levels.InDegrees | pyjobby/dag.py:220-224 | the counters start at the length of each depends_on list |
| Levels.RetireOne | pyjobby/dag.py:238-245 | placing a node lowers the counter of exactly the remaining nodes that list it |
| Levels.PeelLevel | pyjobby/dag.py:230-245 | an empty level means that no remaining node is ready; a non-empty one is exactly the ready nodes, and peeling goes on with fewer |
| Levels.TopologicalSort | pyjobby/dag.py:203-247 | succeeds if and only if every dependency is in the graph, no node lists one twice and the graph is acyclic; the levels then hold exactly the nodes |
| Levels.LevelsDisjoint | pyjobby/dag.py:220-247 | no node is in two levels |
| Levels.DependencyIsLower | pyjobby/dag.py:220-247 | every dependency sits at a strictly lower level than its dependent |
| Levels.LevelIsLongestChain | pyjobby/dag.py:203-247 | a node's level is the length of its longest dependency chain |
| UnionFind.DisjointSets.Find | pyjobby/dag.py:276-281 | terminates, returns the class's root, adds an unknown node as its own class, and its compression changes no class |
| UnionFind.DisjointSets.Union | pyjobby/dag.py:283-286 | exactly the two classes become one, under the first one's root |
| Groups.MergeFanIns | pyjobby/dag.py:273-286 | the union loop computes the finest partition that keeps each fan-in's dependencies together |
| Groups.FileMembers | pyjobby/dag.py:288-291 | every dependency of a fan-in is filed under its own class, and nothing under another |
| Groups.InDagOrder | pyjobby/dag.py:292-295 | each class is listed as the DAG lists its nodes |
| Groups.MeetsDownstream | pyjobby/dag.py:297-310 | the check fires if and only if some fan-in's group meets that fan-in's downstream set |
| Groups.DependencyGroups | pyjobby/dag.py:249-312 | returns the grouping, or the deadlock error exactly when some group holds a node downstream of its waiter |
| Groups.GroupingIsUnique | pyjobby/dag.py:249-312 | a graph has one grouping, whatever order the unions are made in |
| Groups.GroupHoldsDependencies | pyjobby/dag.py:249-312 | a waiter's group holds all its dependencies, each once, and only nodes of the DAG |
| Groups.GroupMembersAreNeeded | pyjobby/dag.py:249-312 | every member of a group is a dependency of a fan-in that waits for that group |
| Groups.GroupsAreDisjoint | pyjobby/dag.py:249-312 | two waiters that share a member share the whole group |
| Groups.SelectKeepsOrder | pyjobby/dag.py:292-295 | the members are distinct and in DAG order |
| Downstreams.Dependents | pyjobby/dag.py:316-320 | the reversed adjacency lists exactly the nodes that name a node in depends_on |
| Downstreams.DownstreamSets | pyjobby/dag.py:314-331 | for every node, exactly itself and the nodes that depend on it through some chain |
| WaitGraphs.WaitsForDependencies | pyjobby/dag.py:249-265 | sharing a group makes a node wait for more than it depends on, never for less |
| WaitGraphs.RejectedHasWaitCycle | pyjobby/dag.py:297-310 | every DAG the deadlock check rejects has a genuine cycle of waits |
| WaitGraphs.CheckSeesOnlySelfLoops | pyjobby/dag.py:297-310 | the check finds fan-ins that hold up themselves, and no longer circles |
| WaitGraphs.WaitCycleCrossesGroups | pyjobby/dag.py:297-310 | in an accepted DAG no wait cycle has all its merge-added edges pointing into one group |
| WaitGraphs.DeadlockFreeIff | pyjobby/dag.py:249-312 | the waits are acyclic if and only if no circle of fan-ins, each held up by the next, exists |
| WaitGraphs.OneWidenedGroupIsSafe | pyjobby/dag.py:249-312 | an accepted DAG in which at most one group is wider than some waiter's own dependencies has no cycle of waits |
| Lowering.GroupKeys | pyjobby/dag.py:361-366 | every member of every group is keyed by its group's first member, and nothing else is |
| Lowering.WaitOptions | pyjobby/dag.py:391-399 | a node with one dependency waits for that job, a fan-in for its group's id, and the id is always there |
| Lowering.AddKeepsWired | pyjobby/dag.py:390-412 | one pass of the wiring loop keeps rows, dictionaries and edges consistent |
| Lowering.WireNodes | pyjobby/dag.py:389-412 | the loops over levels and nodes write one row a node, each waiting for what its dependencies call for |
| Lowering.StampGroups | pyjobby/dag.py:420-425 | each member of a group gets its group's run_group, and no other row any |
| Execution.RunGroupsAreDistinct | pyjobby/dag.py:361-412 | two fan-ins wait for one run_group exactly when they share a group |
| Execution.EdgesLower | pyjobby/dag.py:407-431 | the edges written are exactly the depends_on relation, each once |
| Execution.LowersAll | pyjobby/dag.py:389-425 | in the written rows, job n waits for job m exactly when m is in n's wait set |
| Execution.Validate | pyjobby/dag.py:151-201 | accepts exactly the graphs without identities, foreign dependencies, cycles and blocked groups; each error means what it says, and a blocked group is a genuine cycle of waits |
| Execution.DAGBuilder.Add | pyjobby/dag.py:107-149 | appends one node whose dependencies are the listed ones, each once and in the order of their first mention, refuses a node with an identity_key, and leaves every other node alone |
| Execution.DAGBuilder.Execute | pyjobby/dag.py:333-439 | writes rows if and only if the graph is valid and repeats no dependency; the rows wait for exactly what the grouping says and the edges are the dependencies |
| DagRuns.AlwaysRunnable | pyjobby/pj.py:321-362 | while the waits are acyclic and nothing has failed, some job can finish or be woken until all have finished |
| DagRuns.StepsAreCounted | pyjobby/pj.py:321-362 | every finish step finishes one more job and every wake releases one more waiter |
| DagRuns.RunToTheEnd | pyjobby/pj.py:321-362 | from every clean state a crash-free run leads to the end |
| DagRuns.CycleNeverRuns | pyjobby/monitor.py:657-674 | until a row is deleted, jobs on a cycle of waits never start, whatever is woken, crashed, cancelled or retried |
| DagRuns.CompletesIff | pyjobby/dag.py:297-310 | the exact condition: some run of an executed DAG leaves every job finished if and only if no circle of fan-ins holds itself up |
| DagRuns.NeverWedges | pyjobby/dag.py:249-312 | without such a circle every crash-free run always has a next step until all have finished, in exactly as many finish steps as nodes |
| DagRuns.WedgeFreeIff | pyjobby/dag.py:297-310 | and only without one: crash-free runs never stop short if and only if no circle of fan-ins holds itself up |
| DagRuns.RecoversIff | pyjobby/db.py:300-323 | from any state of any run without deletes, whatever crashed or was cancelled, retries and workers can still finish every job, if and only if no circle of fan-ins exists |
| DagRuns.AcceptedDagNeverWedges | pyjobby/dag.py:249-312 | the same promise for graphs that are easy to tell beforehand: accepted, with at most one group wider than some waiter's own dependencies |
| DagDeletes.RunAccounts | pyjobby/pj.py:321-362 | every run keeps the accounts: each row is there, deleted after it finished, or lost, and every start was covered |
| DagDeletes.OrderButForDeletes | pyjobby/dag.py:357-431 | in every run, deletes included, a node that has started has each declared dependency finished, but for a fan-in's dependency deleted before it had, with another member of the group finished |
| DagDeletes.LoweringPreservesOrder | pyjobby/dag.py:357-431 | in every run that deletes only finished rows, no node leaves waiting before every dependency it declared has finished |
| DagDeletes.DeleteReleasesIff | pyjobby/pj.py:321-362 | a delete releases a waiter that is not due if and only if the deleted row is the last unfinished one of several members of its group |
| DagDeletes.GuardedDeleteBreaksOrder | pyjobby/client.py:3167-3190 | under that condition one wake starts the waiter, and what it waited for never finishes |
| DagDeletes.RetentionReleasesNobody | pyjobby/monitor.py:262-283 | the retention sweep's refusals keep it from releasing a row that is waiting at the time |
| DagDeletes.ExpiryRefusesIff | pyjobby/monitor.py:262-283 | retention takes exactly the finished, crashed and cancelled rows that nothing unfinished waits for |
| DagDeletes.PollSucceedsIff | pyjobby/dag.py:536-553 | wait_for_dag answers True exactly when rows are left and all of them have finished, False exactly when one has crashed or been cancelled |
| DagDeletes.PollForgetsIff | pyjobby/dag.py:536-553 | a delete takes a False answer back if and only if it takes the only failed row |
| DagDeletes.FailureIsFinalButForDeletes | pyjobby/dag.py:536-546 | after a False answer and without a retry the failed job never finishes, and what waits on it through a chain finishes only if a group member on that chain is deleted before it has finished |
| DagDeletes.FailureIsFinal | pyjobby/dag.py:536-546 | with deletes of finished rows only, neither the failed job nor anything that waits on it ever finishes |
| DagDeletes.QueuedOverADeletedMember | pyjobby/client.py:3167-3190 | fan-in w(a, b): b is deleted unfinished, a has finished, and w is queued |
| DagDeletes.FalseThenTrue | pyjobby/dag.py:536-553 | b crashes and the answer is False; b is deleted, w runs, and the next answer is True, with no retry |
| DagDeletes.RetriedAfterRetention | pyjobby/monitor.py:262-283 | retention takes the crashed b while w is cancelled; w is retried and runs |
| DagWitness.ItIsAccepted | pyjobby/dag.py:151-201 | the two-group graph passes every check of validate() |
| DagWitness.ItWaitsInACircle | pyjobby/dag.py:389-425 | its lowered waits form a cycle through both groups |
| DagWitness.ValidationDoesNotPreventWedging | pyjobby/dag.py:297-310 | accepted and executed, and no run of its rows, deletes included, leaves every job finished |
| Identity.AtMostOneHolder | pyjobby/client.py:148-203 | in every reachable interleaving at most one row holds a key |
| Identity.SnapshotWasTrue | pyjobby/client.py:148-181 | what a statement's snapshot showed was so at an instant inside the call |
| Identity.EveryCallWasBegun | pyjobby/client.py:1583-1614 | a call is begun once, and asks for the key and the class it was begun with ever after |
| Identity.ReturnsLinearize | pyjobby/client.py:1583-1640 | every returning call has an instant inside it at which it inserted the only row of a free key, with the class it was begun with, or the returned id held the key as a row of that class |
| Identity.RefusalsLinearize | pyjobby/client.py:1614-1626 | a refusal is about a row that held the key during the call for another class than the call was begun with |
| Identity.AgreedKeysAreNotRefused | pyjobby/client.py:1608-1626 | callers that agree about a key's class are never refused it, unless the table held it for another class to begin with |
| Identity.CreatedOncePerRow | pyjobby/client.py:182-203 | created=True is handed out exactly once for each row ever created |
| Identity.ExhaustionMeansFiveRivals | pyjobby/client.py:346-368 | with fresh snapshots the budget runs out only if five distinct rows of the key were created by others during the call |
| Identity.ReusedSnapshotNeverSees | pyjobby/client.py:1602-1606 | a call that reuses a snapshot showing nothing neither inserts nor names the row while anyone holds the key |
| Identity.OneRivalExhaustsReusedSnapshot | pyjobby/client.py:1602-1606 | with one reused snapshot the loop fails although a single row sits there throughout |
| Debounce.AlwaysSound | pyjobby/client.py:205-297 | in every reachable interleaving a key has at most one open window, and no open window's run_after is past its ceiling |
| Debounce.CeilingIsFixed | pyjobby/client.py:241-260 | nothing rewrites an open window's ceiling or class |
| Debounce.EveryCallWasBegun | pyjobby/client.py:1300-1332 | a call is begun once with a positive period and cap, and its run_after is the earlier of now + period and now + cap, which lies ahead |
| Debounce.OpeningParks | pyjobby/client.py:1320-1340 | a call that opens a window parks the row at the earlier of now + period and now + cap, under the deadline now + cap |
| Debounce.LastCallDecides | pyjobby/client.py:205-260 | as long as a window is open its run_after is the earliest of now + period and now + cap of the call that wrote it last and now + cap of the call that opened it, and its arguments are the last call's |
| Debounce.LaterCapMattersIff | pyjobby/client.py:1326-1332 | the cap of the call that wrote a window last pulls its run_after in if and only if it is shorter than that call's period and ends before the window's ceiling |
| Debounce.BurstOfTwo | pyjobby/client.py:1326-1332 | a run: begun at 100 with period 30 and cap 50 the row is parked at 130; bounced at 120 with period 40 it is parked at 150, or at 125 if the second call has a cap of 5 |
| Debounce.FirstCallsCeilingHolds | pyjobby/client.py:1325-1340 | run_after never exceeds the first call's now + cap while its window is open |
| Debounce.BounceTouchesOnlyTheWindow | pyjobby/client.py:241-260 | a bounce changes no row that has been claimed, is not queued or is of another class |
| Debounce.MovesNameTheirEvents | pyjobby/lifecycle.py:141-189 | a row goes to work exactly by a claim from the queue, leaves it by completing, leaves the queue otherwise exactly by a cancel and comes back exactly by a requeue, without its key and its ceiling; run_count counts the claims |
| Debounce.ClaimFreezesKwargs | pyjobby/client.py:205-240 | once a row has been claimed its arguments never change |
| Debounce.LastWriterWins | pyjobby/client.py:205-240 | a row always carries the arguments of its last successful bounce, or of its insert |
| Debounce.WindowsAreConserved | pyjobby/client.py:262-297 | windows opened equal windows departed (claimed, cancelled, deleted) and the one that is open: at most one more than departures |
| Debounce.ReturnsLinearize | pyjobby/client.py:1371-1394 | every returning call bounced the open window, or opened the only one, at an instant inside the call, with the run_after, deadline and arguments that follow from what the call was begun with |
| Debounce.RefusalsLinearize | pyjobby/client.py:1375-1390 | a refusal is about a window that was open during the call for another class than the call was begun with |
| Debounce.ConflictIsNewer | pyjobby/client.py:262-281 | the window an insert conflicts with was not open when the attempt's snapshot was taken |
| Debounce.ExhaustionMeansFiveRivals | pyjobby/client.py:346-368 | with fresh snapshots the budget runs out only if others opened five distinct windows of the key during the call |
| Debounce.ReusedSnapshotNeverBounces | pyjobby/client.py:1397-1408 | a call that reuses a snapshot showing nothing neither bounces nor opens while anyone has the window |
| Debounce.OneWindowExhaustsReusedSnapshot | pyjobby/client.py:1397-1408 | and it can exhaust its budget against one window that nothing touches |
| Claims.SplitLosesNothing | pyjobby/sql/schema/30_claim.sql:116-129 | a key array and a flag for NULL hold exactly the lanes they were split from |
| Claims.HavingMeans | pyjobby/bench.py:1989-1995 | the grouped count yields exactly the lanes with a row and at least the limit of them |
| Claims.BlockedMeans | pyjobby/sql/schema/30_claim.sql:189-219 | the claim passes over exactly the lanes at a limit by a count that is not of nothing |
| Claims.ConcurrencyVerdictAgrees | pyjobby/admin_api.py:1296-1340 | explain_job's concurrency verdict and the claim's blocked set agree about a row if and only if the cap is positive or its lane has work in flight |
| Claims.RateVerdictAgrees | pyjobby/admin_api.py:1342-1386 | the rate verdict and the claim's blocked set agree about a row if and only if the limit is positive or its lane has an admission in the period |
| Claims.ReachMeans | pyjobby/sql/schema/30_claim.sql:132-289 | for every control, a claim ranges over a row if and only if the queue is not paused, the worker is eligible and the limits do not hold the row back |
| Claims.ClaimTakesTheMostUrgent | pyjobby/sql/schema/30_claim.sql:261-289 | a claim takes a due queued row within the worker's ceiling, capabilities and version, and no other such row it may take has a smaller prio, or the same prio and an earlier run_after |
| Claims.ClaimAnswers | pyjobby/bench.py:1956-1966 | a served claim always has an answer: a row that nothing eligible sorts before, or none |
| Claims.EmptyMeansSaturated | pyjobby/bench.py:2003-2018 | a partitioned claim returns nothing if and only if every eligible free row is in a saturated lane |
| Claims.OpenLaneIsServed | pyjobby/bench.py:2003-2018 | a lane with headroom is never starved: the claim returns a row of an unsaturated lane whose prio is no larger, and at equal prio whose run_after is no later, than any of its own |
| Claims.BacklogIsInvisible | pyjobby/sql/schema/30_claim.sql:223-289 | queued work of saturated lanes, however much, does not change which rows a claim may return |
| Claims.CapHolds | pyjobby/sql/schema/30_claim.sql:144-219 | with serialised claims and a cap that is never lowered, in-flight work never exceeds it in any reachable state, per queue or per lane with NULL as its own |
| Claims.ZeroCapAdmitsOnePerLane | pyjobby/bench.py:1989-1995 | a partitioned cap of zero admits one job into an empty lane |
| Claims.ClaimAdvances | pyjobby/bench.py:1956-1966 | a claim takes a row ahead of the job if there is one, and otherwise the job |
| Claims.JobsAheadCounts | pyjobby/admin_api.py:1399-1414 | jobs_ahead is the number, up to a thousand, of rows that are due on the queue with a smaller prio, or an equal one and an earlier run_after |
| Claims.PositionIsExact | pyjobby/admin_api.py:1388-1421 | a job reported with k jobs ahead is taken by exactly the (k+1)th claim, and the k before take exactly the due rows with a smaller prio, or the same prio and an earlier run_after |
| Claims.UrgentFirst | pyjobby/sql/schema/30_claim.sql:303-314 | of two due rows of prio 5 and 0 the claims take the second and then the first, which was told that one is ahead |
| Claims.OnlyClaimsAdmit | pyjobby/sql/schema/30_claim.sql:294-316 | a row goes in flight exactly when a claim takes it, from the queue and with only its state and its stamp changed, and runs exactly when a claimed one is started |
| Claims.ControlIsWhatWasSet | pyjobby/sql/schema/30_claim.sql:130-142 | a queue's control is what was set last; a queue without a row is neither paused nor limited |
| RateWindow.AdmissionHadRoom | pyjobby/sql/schema/30_claim.sql:165-171 | an admission finds fewer than the limit stamped in the trailing period |
| RateWindow.PurgedMeans | pyjobby/client.py:3080-3088 | a row counts as purged from a window exactly when some delete took it while it was of the scope and stamped no earlier than the window's start |
| RateWindow.WindowAdmitsAtMostTheLimit | pyjobby/admin_api.py:1342-1386 | in every run whose stamps do not go back, a window of the period's length admits at most rate_limit distinct jobs and one more for each row purged from it |
| RateWindow.RateHoldsButForPurges | pyjobby/admin_api.py:162-164 | under a monotone clock every window admits at most the limit and as many more as were purged from it |
| RateWindow.RateHolds | pyjobby/admin_api.py:162-164 | under a monotone clock a window is within the limit, wherever it starts, unless a row was purged from it |
| RateWindow.AdmissionsAreBounded | pyjobby/admin_api.py:1342-1386 | admissions are bounded in the same way when no job is re-admitted inside the window |
| RateWindow.PurgeReopensIff | pyjobby/client.py:3080-3088 | where the limit holds claims back, a delete lets one through if and only if the row is counted (in scope, inside its period) and the window is exactly full |
| RateWindow.PurgeAdmitsIff | pyjobby/client.py:3080-3088 | with the window full and nothing else against it, deleting a row puts another within the claim's reach exactly when the deleted one was inside its period |
| RateWindow.DeletionBreaksTheBound | pyjobby/client.py:3080-3088 | the bound is attained: one row purged inside its period, two jobs admitted against a limit of one |
| Explain.AnswersNameTheState | pyjobby/admin_api.py:814-823 | the state decides which arm answers; each terminal and each in-flight answer is given for exactly its state, a waiting answer for exactly the waiting rows |
| Explain.HeadlineIsTheFirst | pyjobby/admin_api.py:752-764 | a queued row is answered with the first condition in the documented order that declines it, each stated on the row, the control and the fleet, and with claimable exactly when none does |
| Explain.WaitingAnswersNameTheWake | pyjobby/admin_api.py:133-138 | waiting_on_job: the finish of that job releases the row, and no other does; waiting_on_group: the finish of the group's last unfinished member, and no other; waiting_unblocked: nothing |
| Explain.WaitingAnswersSayWhatItTakes | pyjobby/admin_api.py:969-1055 | over all tables: one job's finish is enough exactly for waiting_on_job, no single one for waiting_on_group, and none helps waiting_unblocked; the exceptions are rows that wait for themselves or for a group they are in |
| Explain.SweepRepeatsTheWakes | pyjobby/monitor.py:595-676 | the stranded-waiter sweep releases exactly what one of the two wake statements would, but for the waiters of a group without rows |
| Explain.MaxCeiling | pyjobby/admin_api.py:234 | the aggregate is a ceiling some live worker has and none exceeds |
| Explain.AggregatesAreCounts | pyjobby/admin_api.py:226-248 | the sweep's three aggregates and explain_job's three counts say the same about a job |
| Explain.SweepAgreesWithExplain | pyjobby/admin_api.py:249-308 | on a queue that is not paused the sweep lists a row under a reason if and only if explain_job headlines it |
| Explain.PauseHidesSweepReasons | pyjobby/admin_api.py:1140-1151 | on a paused queue explain_job answers queue_paused for what the sweep goes on listing, and the sweep's reason once it is resumed |
| Explain.ArmsAreDisjoint | pyjobby/admin_api.py:206-212 | no row is listed under two reasons |
| Explain.ListedIsRefusedByAll | pyjobby/admin_api.py:1453-1466 | every listed row is refused by the claim predicate of every live worker of its queue |
| Explain.NotClaimableIsOutOfReach | pyjobby/admin_api.py:126-168 | with any answer but claimable, a live worker's claim ranges over the row if and only if the worker is eligible and the limit the answer is about counts no row at all |
| Explain.OnlyLimitsOfNothing | pyjobby/admin_api.py:1296-1386 | a limit that counts no row is a cap or a rate limit of zero or less |
| Explain.LimitedYetInReach | pyjobby/admin_api.py:1296-1386 | both limit answers can be wrong in that way, for the first job of a lane |
| Explain.ClaimableNeedsOneWorkerForAllGates | pyjobby/admin_api.py:1156-1180 | with the answer claimable, whatever the limits, a worker's claim ranges over the row if and only if that worker passes all three gates |
| Explain.TakenMeansClaimable | pyjobby/admin_api.py:165-167 | a row that a claim takes was claimable to explain_job the instant before, if and only if no limit counted nothing |
| Explain.ClaimableYetOutOfReach | pyjobby/admin_api.py:1156-1180 | the three counts may be met by three workers, so claimable does not imply that anyone can take the row |
| Streams.RunsAreHistories | pyjobby/dxe.py:303-329 | any two instants of any run of appends, a terminal transition and a delete are ordered as the reader relies on |
| Streams.WhatIsReadIsWhatWasSent | pyjobby/dxe.py:281-330 | on a stream that starts empty, what there is to read is what was written up to the close, in that order and each once, until the job is deleted |
| Streams.Page | pyjobby/client.py:2783-2787 | a page is the stretch of rows from its offset, and a short one is all there was |
| Streams.ValuesArePositions | pyjobby/client.py:2792-2808 | the values read are those of consecutive positions up to the first closing marker |
| Streams.ReadOut | pyjobby/client.py:2853-2857 | reading rows out yields the values before the first marker, and whether there was one |
| Streams.Fetch | pyjobby/client.py:2846-2862 | one fetch extends what was read by exactly the next values, for every batch size |
| Streams.ReadStream | pyjobby/client.py:2834-2882 | against every interleaving the output is a prefix of the contiguous values from offset, complete when the marker or the terminal state ends it, and the reader does not wait for what cannot come |
| Streams.ReadersAgree | pyjobby/client.py:2884-2909 | read_stream from 0 yields a prefix of get_stream's values, and all of them when it has ended |
| Streams.ResumeLosesNothing | pyjobby/client.py:2800-2803 | of any rows, the first k values and those from offset + k are the values from offset, if and only if the offset was not negative (or nothing was read) |
| Streams.ReadInTwo | pyjobby/client.py:2789-2882 | a read stopped after k values and one from offset + k over whatever came later yield, together, a prefix of the contiguous values, and all of them when the second ends |
| Wakeup.StepKeepsDemand | pyjobby/client.py:2445-2490 | once registered, a waiter's demand stays on record, and no writer still open has missed it |
| Wakeup.AlwaysSound | pyjobby/client.py:2445-2574 | every reachable state: a waiter that has looked at an old version has been told, or is about to be |
| Wakeup.NoLostWakeup | pyjobby/client.py:2513-2574 | a waiter parked with its flag clear and nothing in flight has already checked a snapshot with every change, if and only if the job is still there |
| Wakeup.RemovalWakesNobody | pyjobby/sql/schema/90_notify.sql:222-226 | removing the job's row is the one change that sends nothing: any sleeping waiter sleeps on |
| Wakeup.StaleWaiterIsWoken | pyjobby/client.py:2401-2424 | a waiter that missed a change has a delivery coming, and that delivery sets its flag |
| Wakeup.FlagMeansNews | pyjobby/client.py:2513-2574 | a waiter's flag is set if and only if a delivery has found it on the dispatch list since it last cleared the flag |
| Wakeup.SilentUntilAwaited | pyjobby/sql/schema/90_notify.sql:206-221 | until somebody registers, no change of the job sends anything to anyone |
| Wakeup.MessagesAreConserved | pyjobby/sql/schema/90_notify.sql:206-226 | each commit whose gate saw demand is one message to every listening client, delivered once or still on its way |
| Wakeup.WithoutTheLockAWakeupIsLost | pyjobby/sql/schema/90_notify.sql:206-221 | if registering did not wait for the writers holding the row, a wakeup could be lost |
| Cron.FireSeries.Next | pyjobby/cron.py:99-118 | yields the next tick that the fall-back rule does not skip, and skips none other |
| Cron.FiresAreThoseInTheInterval | pyjobby/cron.py:138-146 | a tick is among the fires of (after, until] exactly when it is in that interval and is not skipped |
| Cron.HourFieldDecides | pyjobby/cron.py:51-73 | with fewer than five fields or a * in the second one an expression fires at every tick, folds included; otherwise at exactly the ticks that are not in a second pass |
| Cron.SameHoursSameFires | pyjobby/cron.py:69-73 | two expressions of five or more fields with the same hour field and the same ticks have the same fires |
| Cron.FallBackRule | pyjobby/cron.py:88-92 | of the two passes through a wall-clock time the first always fires, and the second exactly for an expression that does not name its hours |
| Cron.TwoSchedulesAcrossFallBack | pyjobby/cron.py:54-65 | "0,30 * * * *" fires in the repeated hour, "0,30 0-23 * * *" does not |
| Cron.Collect | pyjobby/cron.py:171-181 | one step of the evicting window keeps the report right: what is evicted or not kept is dropped |
| Cron.MissedCronRuns | pyjobby/cron.py:135-188 | one pass reports the last keep of the fires up to the first that is past until, the count of the others, and the first and last of those, None if there are none |
| Cron.StopMeans | pyjobby/cron.py:171-173 | the fires it reads are those of (after, until] if and only if until compares as an instant, up to it and at the first fire after it |
| Cron.MissedIsOverTheInterval | pyjobby/cron.py:138-144 | and then the report is the one over (after, until] |
| Cron.OrdinaryUntilIsAnInstant | pyjobby/cron.py:138-144 | which it does in another zone, and in the same one when the wall clock puts every fire on its side of until |
| Cron.RepeatedHourEndsEarly | pyjobby/cron.py:171-173 | an until in the second pass of a repeated hour, of the very same zone, ends the walk in the first pass |
| Cron.ReportIsUnique | pyjobby/cron.py:121-132 | the simple specification determines the result |
| Cron.ReportAscends | pyjobby/cron.py:121-132 | kept and dropped add up, kept ascends, and everything dropped is older than everything kept |
| Cron.FiresBetweenSplit | pyjobby/cron.py:144-146 | fires of (a, b] and of (b, c] are those of (a, c], none twice |
| Cron.CatchUpCombines | pyjobby/cron.py:135-188 | results over (a, b] and (b, c] combine to the result over (a, c] |
| Cron.NextCronRun | pyjobby/cron.py:76-96 | the first fire strictly after `after`; a catch-up from there starts with it or is empty |
| Fsm.Normalize | pyjobby/fsm.py:72-86 | every edge of the declaration, and nothing else, with the target and action its shape stands for |
| Fsm.NormalFormIsUnique | pyjobby/fsm.py:72-86 | a declaration has one normal form |
| Fsm.Validate | pyjobby/fsm.py:110-169 | accepts exactly the declarations without a problem and otherwise names a genuine one |
| Fsm.NoUnknownTarget | pyjobby/fsm.py:147-152 | the branch for a target that is no state never fires |
| Fsm.RunsStayWithinStates | pyjobby/statemachine.py:263-309 | a run from the initial state stays within the declared states and leaves events unread only in a final one |
| Fsm.MovesExactlyWhenMay | pyjobby/fsm.py:99-107 | an accepted machine takes a step exactly when may says so, and none in a final state |
| Fsm.GettingThereIsReaching | pyjobby/fsm.py:89-107 | the states that runs get to are those the declaration's graph reaches |
| Fsm.UnreachedHaveACycle | pyjobby/fsm.py:163-169 | if an accepted table has states no run gets to, some of those states form a cycle |
| Fsm.ReachableIff | pyjobby/fsm.py:163-169 | an accepted machine can get to every declared state if and only if every cycle of its declaration can be entered from the initial state |
| Fsm.AcyclicMeansReachable | pyjobby/fsm.py:163-169 | in particular in an accepted table without cycles every state can be got to |
| Fsm.IslandIsAccepted | pyjobby/fsm.py:163-169 | two states that only reach each other pass every check |
| Lifecycle.TableIsWhatStatementsDo | pyjobby/lifecycle.py:134-189 | the table declares exactly the moves that some state-changing statement can make, each with its own guard and targets: none is undeclared and no entry is idle |
| Lifecycle.OriginIsAnInsert | pyjobby/lifecycle.py:137-140 | the origin leads exactly to an insert, or to an insert read together with the claim, and the start, that followed it |
| Lifecycle.TerminalLeavesByRequeue | pyjobby/lifecycle.py:174-189 | no statement but the requeue moves a terminal job, and it moves it only to queued or waiting |
| Lifecycle.ClaimsAreAccountedFor | pyjobby/lifecycle.py:136-189 | claims, and a start read with the insert, equal completions, claims given back and the one in flight |
| Lifecycle.CompletionsNeverOutnumberClaims | pyjobby/lifecycle.py:136-189 | entries to finished or crashed never outnumber claims, but by one when the origin enters running directly |
| Lifecycle.OneCompletionWithoutAClaim | pyjobby/lifecycle.py:137-140 | that exception is real |
| Lifecycle.CompletionsAreSeparatedByClaims | pyjobby/lifecycle.py:136-189 | any two entries to finished or crashed are separated by a claim |
| Lifecycle.BackToWorkByQueuedThenClaimed | pyjobby/lifecycle.py:141-189 | a job not in flight gets back to work only by being queued and then claimed |

## Left out

- DAGs: duplicate `node_id`s in a hand-built `nodes` list, Python's recursion limit in the cycle search, the `dag_id` stamp and `visualize()`.
- DAGs: jobs outside the DAG that carry its group's number in `run_group`, and `waitfor_*` or `run_group` options that a caller sets on a node by hand.
- `dependency_groups()` on a graph with foreign dependencies, where the source raises KeyError.
- DagRuns.LoweringPreservesOrder: a retry puts a row back to waiting, but reruns of jobs that have finished are not modelled, because the promise is about one execution.
- Levels.TopologicalSort: the order of nodes inside one level, which the source leaves to the iteration of a set.
- Enqueue: the validation of options in `build_enqueue_row` (it would only add easy members), the `deadline_key`, serialization failures at REPEATABLE READ, back-off sleeps and message texts.
- Identity.ReturnsLinearize: the row may have been deleted by the time the call returns; nothing is said about it being live then.
- Claims: NULL elements in a worker's capability array, and what a claimer does when the 50 ms wait for the queue lock times out (it leaves everything as it was).
- Claims.CapHolds: the in-flight bound is about queues whose cap is never lowered during the run; lowering it stops admissions and evicts nothing.
- Claims.PositionIsExact: past the limit at which the count of jobs ahead stops, the report says so and nothing is claimed about it.
- RateWindow.RateHolds: is about runs during which the queue's limit, period and scope stay as they are and the clock does not go back.
- `unclaimable_jobs`: the caps on scanned and sampled rows and the details of each report; `set_queue_control`, `queue_stats` and the other admin queries.
- `explain_job`: summaries and details, and the in-flight arm's look at the worker's heartbeat.
- Explain.WaitingAnswersNameTheWake: a `run_group` or `waitfor_*` of 0, which Python takes for none and SQL for a number, does not occur here.
- Streams.RunsAreHistories: a requeue that puts a terminal job back to work is not an event; the reader takes a terminal state for the end, so it does not see what such an attempt appends.
- Streams: the registration of demand around `read_stream` (the wait loop is modelled on its own), and values as anything but opaque.
- Wakeup: pool-only clients, the two-second fallback poll (a wake may come at any time here), and a LISTEN connection that drops.
- Cron: parsing of expressions, time zones and croniter's arithmetic, which are an ascending series of ticks here; `validate_cron` and `resolve_timezone`.
- Machines: actions' effects, checkpoints and the mailbox; `to_mermaid`.
- Lifecycle: the complement table, the SQL lists that are built from the state sets, and the epochs that fence the statements.
- `pyjobby/cli.py`, `pyjobby/configloader.py`, metrics, logging, web views and the synchronous client.
