/**
 Debounce: concurrent calls that bounce the open collapse window of a key or open one,
 racing workers that claim it, operators that cancel it, requeues and deletes.

 An attempt is three events. `Look` fixes what DEBOUNCE_BOUNCE_SQL's snapshot shows.
 `Bounce` is its UPDATE, whose quals are checked again on the version of the row that is
 current then. `Insert` is ENQUEUE_DEBOUNCED_SQL past its conflict: it goes in, or it
 finds an open window and answers nothing, and the next attempt begins.
 */
module Debounce {
  import opened Speculation
  import opened Wrappers

  type Kwargs = string

  datatype Status = Queued | InFlight | Terminal

  datatype Row = Row(key: Option<Key>, jobClass: JobClass, status: Status, runCount: nat,
                     runAfter: int, deadline: Option<int>, kwargs: Kwargs)

  datatype Phase =
    | Ready(attempt: nat)
    | Looked(attempt: nat, seen: Seen)
    | Inserting(attempt: nat, seen: Seen)
    | Returned(id: RowId, created: bool)
    | Refused(id: RowId)
    | Exhausted

  datatype Call = Call(key: Key, jobClass: JobClass, firesAt: int, deadline: Option<int>, kwargs: Kwargs, phase: Phase)

  datatype State = State(rows: map<RowId, Row>, nextId: nat, calls: map<CallId, Call>)

  datatype Event =
    | Begin(call: CallId, key: Key, jobClass: JobClass, kwargs: Kwargs, now: int, period: int, cap: Option<int>)
    | Look(call: CallId)
    | Bounce(call: CallId)
    | Insert(call: CallId)
    | Claim(row: RowId)
    | Cancel(row: RowId)
    | Complete(row: RowId)
    | Requeue(row: RowId, runAfter: int)
    | Delete(row: RowId)

  /** jorb_debounce_idx's predicate: the row holds this key's open window. */
  predicate Open(row: Row, key: Key) {
    row.key == Some(key) && row.status == Queued && row.runCount == 0
  }

  predicate HasOpen(rows: map<RowId, Row>, id: RowId, key: Key) {
    id in rows && Open(rows[id], key)
  }

  ghost predicate Free(rows: map<RowId, Row>, key: Key) {
    forall id :: id in rows ==> !Open(rows[id], key)
  }

  ghost predicate Shows(rows: map<RowId, Row>, key: Key, seen: Seen) {
    match seen
    case Nothing => Free(rows, key)
    case Held(id, jobClass) => HasOpen(rows, id, key) && rows[id].jobClass == jobClass
  }

  function Min(a: int, b: int): int {
    if a < b then a else b
  }

  /** LEAST(new run_after, COALESCE(debounce_deadline, 'infinity')) */
  function Clamp(firesAt: int, deadline: Option<int>): int {
    match deadline
    case None => firesAt
    case Some(d) => Min(firesAt, d)
  }

  /** debounce()'s one clock: a cap below the period already bounds the first parking. */
  function NewCall(e: Event): Call
    requires e.Begin?
  {
    var deadline := if e.cap.Some? then Some(e.now + e.cap.value) else None;
    Call(e.key, e.jobClass, Clamp(e.now + e.period, deadline), deadline, e.kwargs, Ready(0))
  }

  /** The UPDATE's quals, on the row as it is now. */
  predicate Bounces(rows: map<RowId, Row>, call: Call) {
    && call.phase.Looked? && call.phase.seen.Held?
    && HasOpen(rows, call.phase.seen.id, call.key)
    && rows[call.phase.seen.id].jobClass == call.jobClass
  }

  function NotBounced(call: Call): Call
    requires call.phase.Looked?
  {
    match call.phase.seen
    case Held(id, jobClass) =>
      call.(phase := if jobClass != call.jobClass then Refused(id) else Inserting(call.phase.attempt, call.phase.seen))
    case Nothing =>
      call.(phase := Inserting(call.phase.attempt, Nothing))
  }

  function InsertConflicted(iso: Isolation, call: Call): Call
    requires call.phase.Inserting?
  {
    var next := call.phase.attempt + 1;
    call.(phase := if next >= ATTEMPTS then Exhausted
                   else if iso.ReadCommitted? then Ready(next)
                   else Looked(next, call.phase.seen))
  }

  function NewRow(call: Call): Row {
    Row(Some(call.key), call.jobClass, Queued, 0, call.firesAt, call.deadline, call.kwargs)
  }

  function SetPhase(s: State, c: CallId, phase: Phase): map<CallId, Call>
    requires c in s.calls
  {
    s.calls[c := s.calls[c].(phase := phase)]
  }

  ghost predicate Next(iso: Isolation, s: State, e: Event, s': State) {
    match e
    case Begin(c, _, _, _, _, period, cap) =>
      && c !in s.calls && period > 0 && (cap.Some? ==> cap.value > 0)
      && s' == s.(calls := s.calls[c := NewCall(e)])
    case Look(c) =>
      && c in s.calls && s.calls[c].phase.Ready?
      && s'.rows == s.rows && s'.nextId == s.nextId
      && exists seen :: Shows(s.rows, s.calls[c].key, seen)
           && s'.calls == SetPhase(s, c, Looked(s.calls[c].phase.attempt, seen))
    case Bounce(c) =>
      && c in s.calls && s.calls[c].phase.Looked?
      && var call := s.calls[c];
         if Bounces(s.rows, call) then
           var id := call.phase.seen.id;
           s' == s.(rows := s.rows[id := s.rows[id].(runAfter := Clamp(call.firesAt, s.rows[id].deadline), kwargs := call.kwargs)],
                    calls := SetPhase(s, c, Returned(id, false)))
         else
           s' == s.(calls := s.calls[c := NotBounced(call)])
    case Insert(c) =>
      && c in s.calls && s.calls[c].phase.Inserting?
      && var call := s.calls[c];
         if Free(s.rows, call.key) then
           && s'.nextId > s.nextId
           && var id := s'.nextId - 1;
              s'.rows == s.rows[id := NewRow(call)] && s'.calls == SetPhase(s, c, Returned(id, true))
         else
           s' == s.(calls := s.calls[c := InsertConflicted(iso, call)])
    case Claim(id) =>
      && id in s.rows && s.rows[id].status == Queued
      && s' == s.(rows := s.rows[id := s.rows[id].(status := InFlight, runCount := s.rows[id].runCount + 1)])
    case Cancel(id) =>
      && id in s.rows && s.rows[id].status == Queued
      && s' == s.(rows := s.rows[id := s.rows[id].(status := Terminal)])
    case Complete(id) =>
      && id in s.rows && s.rows[id].status == InFlight
      && s' == s.(rows := s.rows[id := s.rows[id].(status := Terminal)])
    case Requeue(id, runAfter) =>
      // to 'queued' a row returns without its key and its deadline
      && id in s.rows && s.rows[id].status != Queued
      && s' == s.(rows := s.rows[id := s.rows[id].(status := Queued, runAfter := runAfter, key := None, deadline := None)])
    case Delete(id) =>
      && id in s.rows
      && s' == s.(rows := s.rows - {id})
  }

  /** jorb_debounce_idx */
  ghost predicate OneWindow(rows: map<RowId, Row>) {
    forall a, b, key :: HasOpen(rows, a, key) && HasOpen(rows, b, key) ==> a == b
  }

  /** The unique index, the id sequence, and the ceiling on every open window. */
  ghost predicate Sound(s: State) {
    && OneWindow(s.rows)
    && (forall a :: a in s.rows ==> a < s.nextId)
    && (forall a :: a in s.rows ==> WithinCeiling(s.rows[a]))
    && (forall c :: c in s.calls ==> s.calls[c].firesAt == Clamp(s.calls[c].firesAt, s.calls[c].deadline))
  }

  predicate WithinCeiling(row: Row) {
    row.key.Some? && Open(row, row.key.value) ==> InTime(row)
  }

  predicate InTime(row: Row) {
    row.deadline.Some? ==> row.runAfter <= row.deadline.value
  }

  ghost predicate Behavior(iso: Isolation, tr: seq<State>, es: seq<Event>) {
    && |tr| == |es| + 1
    && Sound(tr[0]) && tr[0].calls == map[]
    && forall i :: 0 <= i < |es| ==> Next(iso, tr[i], es[i], tr[i + 1])
  }

  // ------------------------------------------------------------- what every state keeps

  lemma StepKeepsOneWindow(iso: Isolation, s: State, e: Event, s': State)
    requires OneWindow(s.rows) && Next(iso, s, e, s')
    ensures OneWindow(s'.rows)
  {
    forall a: RowId, b: RowId, key | HasOpen(s'.rows, a, key) && HasOpen(s'.rows, b, key) ensures a == b {
      WasOpenOrInserted(iso, s, e, s', a, key);
      WasOpenOrInserted(iso, s, e, s', b, key);
    }
  }

  /** A window that is open was open before, unless this step is the insert that found the key free. */
  lemma WasOpenOrInserted(iso: Isolation, s: State, e: Event, s': State, id: RowId, key: Key)
    requires Next(iso, s, e, s') && HasOpen(s'.rows, id, key)
    ensures HasOpen(s.rows, id, key) || (e.Insert? && id == s'.nextId - 1 && id >= s.nextId && Free(s.rows, key))
  {
  }

  lemma StepKeepsSound(iso: Isolation, s: State, e: Event, s': State)
    requires Sound(s) && Next(iso, s, e, s')
    ensures Sound(s') && s.nextId <= s'.nextId
  {
    StepKeepsOneWindow(iso, s, e, s');
  }

  /** One open window per key at most, and run_after never past the window's ceiling. */
  lemma {:induction false} AlwaysSound(iso: Isolation, tr: seq<State>, es: seq<Event>, n: nat)
    requires Behavior(iso, tr, es) && n < |tr|
    ensures Sound(tr[n])
    ensures forall a, b, key :: HasOpen(tr[n].rows, a, key) && HasOpen(tr[n].rows, b, key) ==> a == b
    ensures forall a, key :: HasOpen(tr[n].rows, a, key) ==> InTime(tr[n].rows[a])
  {
    if n > 0 {
      AlwaysSound(iso, tr, es, n - 1);
      StepKeepsSound(iso, tr[n - 1], es[n - 1], tr[n]);
    }
  }

  lemma {:induction false} IdsGrow(iso: Isolation, tr: seq<State>, es: seq<Event>, m: nat, n: nat)
    requires Behavior(iso, tr, es) && m <= n < |tr|
    ensures tr[m].nextId <= tr[n].nextId
  {
    if m < n {
      IdsGrow(iso, tr, es, m, n - 1);
      AlwaysSound(iso, tr, es, n - 1);
      StepKeepsSound(iso, tr[n - 1], es[n - 1], tr[n]);
    }
  }

  // ---------------------------------------------------------------------- bounce safety

  /** Nothing rewrites a window's ceiling while the window is open. */
  lemma CeilingIsFixed(iso: Isolation, s: State, e: Event, s': State, id: RowId, key: Key)
    requires Next(iso, s, e, s') && id < s.nextId && HasOpen(s.rows, id, key) && HasOpen(s'.rows, id, key)
    ensures s'.rows[id].deadline == s.rows[id].deadline && s'.rows[id].jobClass == s.rows[id].jobClass
  {
  }

  /** A bounce touches no row that has been claimed, is not queued, or is of another class or key. */
  lemma BounceTouchesOnlyTheWindow(iso: Isolation, s: State, c: CallId, s': State, id: RowId)
    requires Next(iso, s, Bounce(c), s') && id in s.rows && c in s.calls
    requires !Open(s.rows[id], s.calls[c].key) || s.rows[id].jobClass != s.calls[c].jobClass
    ensures s'.rows.Keys == s.rows.Keys && s'.rows[id] == s.rows[id]
  {
  }

  /**
   The lifecycle as this protocol sees it: a row goes to work by a claim and only from the
   queue, leaves it by completing, leaves the queue otherwise only by a cancel, and comes
   back to it by a requeue; run_count counts the claims, and a row back in the queue has lost
   its key and its ceiling.
   */
  lemma MovesNameTheirEvents(iso: Isolation, s: State, e: Event, s': State, id: RowId)
    requires Sound(s) && Next(iso, s, e, s') && id in s.rows && id in s'.rows
    ensures var from, to := s.rows[id], s'.rows[id];
      && (e == Claim(id) <==> from.status == Queued && to.status == InFlight)
      && (e == Cancel(id) <==> from.status == Queued && to.status == Terminal)
      && (e == Complete(id) <==> from.status == InFlight && to.status == Terminal)
      && ((e.Requeue? && e.row == id) <==> from.status != Queued && to.status == Queued)
      && (from.status == Terminal ==> to.status != InFlight)
      && to.runCount == from.runCount + (if e == Claim(id) then 1 else 0)
      && (from.status != Queued && to.status == Queued ==> to.key == None && to.deadline == None && to.runAfter == e.runAfter)
      && (from.key != to.key || from.deadline != to.deadline ==> e.Requeue?)
  {
  }

  /** Once a worker has claimed a row its arguments never change again. */
  lemma {:induction false} ClaimFreezesKwargs(iso: Isolation, tr: seq<State>, es: seq<Event>, m: nat, n: nat, id: RowId)
    requires Behavior(iso, tr, es) && m <= n < |tr| && id in tr[m].rows && tr[m].rows[id].runCount > 0
    requires id in tr[n].rows
    ensures tr[n].rows[id].kwargs == tr[m].rows[id].kwargs && tr[n].rows[id].runCount > 0
  {
    if m < n {
      assert Next(iso, tr[n - 1], es[n - 1], tr[n]);
      AlwaysSound(iso, tr, es, m);
      IdsGrow(iso, tr, es, m, n - 1);
      assert id in tr[n - 1].rows;
      ClaimFreezesKwargs(iso, tr, es, m, n - 1, id);
    }
  }

  /** Step e writes row id's kwargs on behalf of a call: a successful bounce, or the insert. */
  ghost predicate Writes(s: State, e: Event, s': State, id: RowId) {
    && (e.Bounce? || e.Insert?) && e.call in s.calls && e.call in s'.calls
    && s'.calls[e.call].phase == Returned(id, e.Insert?)
  }

  /** The arguments of the last call whose bounce or insert of row id succeeded. */
  ghost function LastWrite(tr: seq<State>, es: seq<Event>, n: nat, id: RowId): Kwargs
    requires n < |tr| && |tr| == |es| + 1
    decreases n
  {
    if n == 0 then (if id in tr[0].rows then tr[0].rows[id].kwargs else "")
    else if Writes(tr[n - 1], es[n - 1], tr[n], id) then tr[n - 1].calls[es[n - 1].call].kwargs
    else LastWrite(tr, es, n - 1, id)
  }

  /** Last writer wins: a row always carries the arguments of its last successful bounce. */
  lemma {:induction false} LastWriterWins(iso: Isolation, tr: seq<State>, es: seq<Event>, n: nat, id: RowId)
    requires Behavior(iso, tr, es) && n < |tr| && id in tr[n].rows
    ensures tr[n].rows[id].kwargs == LastWrite(tr, es, n, id)
  {
    if n > 0 {
      assert Next(iso, tr[n - 1], es[n - 1], tr[n]);
      AlwaysSound(iso, tr, es, n - 1);
      if Writes(tr[n - 1], es[n - 1], tr[n], id) {
        assert tr[n].rows[id].kwargs == tr[n - 1].calls[es[n - 1].call].kwargs;
      } else {
        assert id in tr[n - 1].rows && tr[n].rows[id].kwargs == tr[n - 1].rows[id].kwargs;
        LastWriterWins(iso, tr, es, n - 1, id);
      }
    }
  }

  // ------------------------------------------------------------------ counting the windows

  predicate OpensWindow(s: State, e: Event, s': State, key: Key) {
    && e.Insert? && e.call in s.calls && e.call in s'.calls
    && s.calls[e.call].key == key && s'.calls[e.call].phase.Returned?
  }

  /** A claim, a cancel or a delete of the key's open window. */
  predicate ClosesWindow(s: State, e: Event, key: Key) {
    (e.Claim? || e.Cancel? || e.Delete?) && HasOpen(s.rows, e.row, key)
  }

  function Opened(tr: seq<State>, es: seq<Event>, n: nat, key: Key): nat
    requires n < |tr| && |tr| == |es| + 1
  {
    if n == 0 then 0
    else Opened(tr, es, n - 1, key) + if OpensWindow(tr[n - 1], es[n - 1], tr[n], key) then 1 else 0
  }

  function Departed(tr: seq<State>, es: seq<Event>, n: nat, key: Key): nat
    requires n < |tr| && |tr| == |es| + 1
  {
    if n == 0 then 0
    else Departed(tr, es, n - 1, key) + if ClosesWindow(tr[n - 1], es[n - 1], key) then 1 else 0
  }

  ghost function OpenCount(s: State, key: Key): nat {
    if Free(s.rows, key) then 0 else 1
  }

  lemma WindowStep(iso: Isolation, s: State, e: Event, s': State, key: Key)
    requires Sound(s) && Next(iso, s, e, s')
    ensures OpenCount(s', key) == OpenCount(s, key)
      + (if OpensWindow(s, e, s', key) then 1 else 0) - (if ClosesWindow(s, e, key) then 1 else 0)
  {
    if !Free(s.rows, key) {
      var w :| w in s.rows && Open(s.rows[w], key);
      assert HasOpen(s.rows, w, key);
      if ClosesWindow(s, e, key) && e.row == w {
        forall id: RowId | id in s'.rows ensures !Open(s'.rows[id], key) {
          if HasOpen(s'.rows, id, key) {
            WasOpenOrInserted(iso, s, e, s', id, key);
          }
        }
      } else {
        assert HasOpen(s'.rows, w, key);
      }
    } else if e.Insert? && s.calls[e.call].key == key {
      assert HasOpen(s'.rows, s'.nextId - 1, key);
    } else {
      forall id: RowId | id in s'.rows ensures !Open(s'.rows[id], key) {
        if HasOpen(s'.rows, id, key) {
          WasOpenOrInserted(iso, s, e, s', id, key);
          assert Free(s.rows, key);
        }
      }
    }
  }

  /** Windows opened and windows departed differ by the one that is open: conservation. */
  lemma {:induction false} WindowsAreConserved(iso: Isolation, tr: seq<State>, es: seq<Event>, n: nat, key: Key)
    requires Behavior(iso, tr, es) && n < |tr|
    ensures OpenCount(tr[0], key) + Opened(tr, es, n, key) == Departed(tr, es, n, key) + OpenCount(tr[n], key)
    ensures Opened(tr, es, n, key) <= 1 + Departed(tr, es, n, key)
  {
    if n > 0 {
      WindowsAreConserved(iso, tr, es, n - 1, key);
      AlwaysSound(iso, tr, es, n - 1);
      assert Next(iso, tr[n - 1], es[n - 1], tr[n]);
      WindowStep(iso, tr[n - 1], es[n - 1], tr[n], key);
    }
  }

  // ------------------------------------------------------------------------- histories

  /** A closed window never opens again: a row open at n that existed at m was open at m. */
  lemma {:induction false} WasOpenBefore(iso: Isolation, tr: seq<State>, es: seq<Event>, m: nat, n: nat, id: RowId, key: Key)
    requires Behavior(iso, tr, es) && m <= n < |tr| && HasOpen(tr[n].rows, id, key) && id < tr[m].nextId
    ensures HasOpen(tr[m].rows, id, key)
  {
    if m < n {
      assert Next(iso, tr[n - 1], es[n - 1], tr[n]);
      IdsGrow(iso, tr, es, m, n - 1);
      WasOpenOrInserted(iso, tr[n - 1], es[n - 1], tr[n], id, key);
      WasOpenBefore(iso, tr, es, m, n - 1, id, key);
    }
  }

  /** The instant a call opened its window, the row carries exactly what the call asked for. */
  lemma InsertWrites(iso: Isolation, s: State, c: CallId, s': State, id: RowId)
    requires Next(iso, s, Insert(c), s') && c in s.calls && c in s'.calls && s'.calls[c].phase == Returned(id, true)
    ensures id == s'.nextId - 1 && id in s'.rows && s'.rows[id] == NewRow(s.calls[c])
  {
  }

  lemma {:induction false} CeilingStays(iso: Isolation, tr: seq<State>, es: seq<Event>, m: nat, n: nat, id: RowId, key: Key)
    requires Behavior(iso, tr, es) && m <= n < |tr| && HasOpen(tr[m].rows, id, key) && HasOpen(tr[n].rows, id, key)
    ensures tr[n].rows[id].deadline == tr[m].rows[id].deadline && tr[n].rows[id].jobClass == tr[m].rows[id].jobClass
  {
    if m < n {
      AlwaysSound(iso, tr, es, m);
      IdsGrow(iso, tr, es, m, n - 1);
      WasOpenBefore(iso, tr, es, n - 1, n, id, key);
      CeilingIsFixed(iso, tr[n - 1], es[n - 1], tr[n], id, key);
      CeilingStays(iso, tr, es, m, n - 1, id, key);
    }
  }

  predicate InProgress(s: State, c: CallId) {
    c in s.calls && (s.calls[c].phase.Ready? || s.calls[c].phase.Looked? || s.calls[c].phase.Inserting?)
  }

  /** What a call asked for never changes; its phase only by its own events. */
  lemma CallStep(iso: Isolation, s: State, e: Event, s': State, c: CallId)
    requires Next(iso, s, e, s') && c in s.calls
    ensures c in s'.calls && s'.calls[c].(phase := s.calls[c].phase) == s.calls[c]
    ensures e != Look(c) && e != Bounce(c) && e != Insert(c) ==> s'.calls[c] == s.calls[c]
    ensures !InProgress(s, c) ==> s'.calls[c] == s.calls[c]
  {
  }

  // ------------------------------------------------------------- what the caller asked for

  predicate BegunAt(es: seq<Event>, b: int, c: CallId) {
    0 <= b < |es| && es[b].Begin? && es[b].call == c
  }

  /** The instant is the earlier of the two, and no later than the ceiling if there is one. */
  predicate Earliest(at: int, quiet: int, cap: Option<int>, ceiling: Option<int>) {
    && at <= quiet && (cap.Some? ==> at <= cap.value) && (ceiling.Some? ==> at <= ceiling.value)
    && (at == quiet || Some(at) == cap || Some(at) == ceiling)
  }

  /** That says which instant it is. */
  lemma OneEarliest(quiet: int, cap: Option<int>, ceiling: Option<int>, at: int, other: int)
    ensures Earliest(at, quiet, cap, ceiling) && Earliest(other, quiet, cap, ceiling) ==> at == other
    ensures Earliest(quiet, quiet, cap, ceiling) <==> (cap.Some? ==> quiet <= cap.value) && (ceiling.Some? ==> quiet <= ceiling.value)
  {
  }

  /** now + cap, for the call that began with this event. */
  function CapOf(e: Event): Option<int>
    requires e.Begin?
  {
    if e.cap.Some? then Some(e.now + e.cap.value) else None
  }

  lemma {:induction false} NotBegunBefore(iso: Isolation, tr: seq<State>, es: seq<Event>, n: nat, c: CallId)
    requires Behavior(iso, tr, es) && n < |tr| && c !in tr[n].calls
    ensures forall k :: 0 <= k < n ==> !BegunAt(es, k, c)
  {
    if n > 0 {
      assert Next(iso, tr[n - 1], es[n - 1], tr[n]);
      NotBegunBefore(iso, tr, es, n - 1, c);
    }
  }

  /** A call is begun once, with a period and a cap that lie ahead, and asks for that ever after. */
  lemma {:induction false} EveryCallWasBegun(iso: Isolation, tr: seq<State>, es: seq<Event>, n: nat, c: CallId) returns (b: nat)
    requires Behavior(iso, tr, es) && n < |tr| && c in tr[n].calls
    ensures b < n && BegunAt(es, b, c) && forall k :: 0 <= k < n && BegunAt(es, k, c) ==> k == b
    ensures var call, e := tr[n].calls[c], es[b];
      && call.key == e.key && call.jobClass == e.jobClass && call.kwargs == e.kwargs
      && call.deadline == CapOf(e) && Earliest(call.firesAt, e.now + e.period, CapOf(e), None)
      && call.firesAt > e.now
  {
    assert Next(iso, tr[n - 1], es[n - 1], tr[n]);
    if c in tr[n - 1].calls {
      CallStep(iso, tr[n - 1], es[n - 1], tr[n], c);
      b := EveryCallWasBegun(iso, tr, es, n - 1, c);
    } else {
      b := n - 1;
      NotBegunBefore(iso, tr, es, n - 1, c);
    }
  }

  /** Step i opened window id on behalf of the call that began at b. */
  ghost predicate Opens(tr: seq<State>, es: seq<Event>, i: int, b: int, c: CallId, id: RowId) {
    && 0 <= b < i < |es| && |tr| == |es| + 1 && BegunAt(es, b, c) && es[i] == Insert(c)
    && c in tr[i + 1].calls && tr[i + 1].calls[c].phase == Returned(id, true)
  }

  /** Step j, which may be that very step, is the last before n to have written the row, for the call that began at b. */
  ghost predicate LastWrites(tr: seq<State>, es: seq<Event>, j: int, n: int, b: int, c: CallId, id: RowId) {
    && 0 <= b < j < n < |tr| == |es| + 1 && BegunAt(es, b, c) && es[j] in {Insert(c), Bounce(c)}
    && Writes(tr[j], es[j], tr[j + 1], id)
    && Unwritten(tr, es, j + 1, n, id)
  }

  ghost predicate Unwritten(tr: seq<State>, es: seq<Event>, m: int, n: int, id: RowId)
    requires 0 <= m && n < |tr| == |es| + 1
  {
    forall k {:trigger es[k]} :: m <= k < n ==> !Writes(tr[k], es[k], tr[k + 1], id)
  }

  /** A call that opens a window parks the row at the earlier of now + period and now + cap, which lies ahead, under the deadline now + cap. */
  lemma OpeningParks(iso: Isolation, tr: seq<State>, es: seq<Event>, i: nat, b: nat, c: CallId, id: RowId)
    requires Behavior(iso, tr, es) && Opens(tr, es, i, b, c, id)
    ensures id in tr[i + 1].rows
    ensures var row, e := tr[i + 1].rows[id], es[b];
      && row.key == Some(e.key) && row.jobClass == e.jobClass && row.kwargs == e.kwargs
      && row.status == Queued && row.runCount == 0
      && Earliest(row.runAfter, e.now + e.period, CapOf(e), None) && row.runAfter > e.now
      && row.deadline == CapOf(e)
  {
    assert Next(iso, tr[i], es[i], tr[i + 1]);
    InsertWrites(iso, tr[i], c, tr[i + 1], id);
    var begun := EveryCallWasBegun(iso, tr, es, i, c);
    var same := EveryCallWasBegun(iso, tr, es, i + 1, c);
    assert b == begun == same;
  }

  /** The first call's now + cap bounds run_after for as long as the window is open. */
  lemma FirstCallsCeilingHolds(iso: Isolation, tr: seq<State>, es: seq<Event>, i: nat, n: nat, b: nat, c: CallId, id: RowId)
    requires Behavior(iso, tr, es) && Opens(tr, es, i, b, c, id) && i < n < |tr| && HasOpen(tr[n].rows, id, es[b].key)
    ensures tr[n].rows[id].deadline == CapOf(es[b])
    ensures es[b].cap.Some? ==> tr[n].rows[id].runAfter <= es[b].now + es[b].cap.value
  {
    OpeningParks(iso, tr, es, i, b, c, id);
    CeilingStays(iso, tr, es, i + 1, n, id, es[b].key);
    AlwaysSound(iso, tr, es, n);
    assert WithinCeiling(tr[n].rows[id]);
  }

  /** An open window that no call writes stays as it is. */
  lemma UnwrittenStays(iso: Isolation, s: State, e: Event, s': State, id: RowId, key: Key)
    requires Sound(s) && Next(iso, s, e, s') && HasOpen(s.rows, id, key) && HasOpen(s'.rows, id, key)
    requires !Writes(s, e, s', id)
    ensures s'.rows[id] == s.rows[id]
  {
  }

  lemma {:induction false} UnwrittenStaysLong(iso: Isolation, tr: seq<State>, es: seq<Event>, m: nat, n: nat, id: RowId, key: Key)
    requires Behavior(iso, tr, es) && m <= n < |tr| && Unwritten(tr, es, m, n, id)
    requires id < tr[m].nextId && HasOpen(tr[n].rows, id, key)
    ensures HasOpen(tr[m].rows, id, key) && tr[n].rows[id] == tr[m].rows[id]
  {
    if m < n {
      LastStepUnwritten(iso, tr, es, m, n, id, key);
      UnwrittenStaysLong(iso, tr, es, m, n - 1, id, key);
    }
  }

  lemma LastStepUnwritten(iso: Isolation, tr: seq<State>, es: seq<Event>, m: nat, n: nat, id: RowId, key: Key)
    requires Behavior(iso, tr, es) && m < n < |tr| && Unwritten(tr, es, m, n, id)
    requires id < tr[m].nextId && HasOpen(tr[n].rows, id, key)
    ensures HasOpen(tr[n - 1].rows, id, key) && tr[n].rows[id] == tr[n - 1].rows[id]
  {
    IdsGrow(iso, tr, es, m, n - 1);
    WasOpenBefore(iso, tr, es, n - 1, n, id, key);
    AlwaysSound(iso, tr, es, n - 1);
    UnwrittenStays(iso, tr[n - 1], es[n - 1], tr[n], id, key);
  }

  lemma OldRowsAreBounced(iso: Isolation, s: State, e: Event, s': State, id: RowId)
    requires Next(iso, s, e, s') && id < s.nextId && Writes(s, e, s', id)
    ensures e.Bounce?
  {
  }

  /** What a bounce leaves behind, in terms of the event its call began with. */
  lemma BounceParks(iso: Isolation, tr: seq<State>, es: seq<Event>, j: nat, b: nat, c: CallId, id: RowId, n: nat)
    requires Behavior(iso, tr, es) && LastWrites(tr, es, j, n, b, c, id) && es[j] == Bounce(c)
    ensures id in tr[j].rows && id in tr[j + 1].rows && HasOpen(tr[j].rows, id, es[b].key)
    ensures var row, was, e := tr[j + 1].rows[id], tr[j].rows[id], es[b];
      && row.deadline == was.deadline && row.jobClass == was.jobClass == e.jobClass && row.kwargs == e.kwargs
      && Earliest(row.runAfter, e.now + e.period, CapOf(e), was.deadline)
  {
    assert Next(iso, tr[j], es[j], tr[j + 1]);
    var begun := EveryCallWasBegun(iso, tr, es, j, c);
    assert b == begun;
  }

  lemma LastBounce(iso: Isolation, tr: seq<State>, es: seq<Event>, i: nat, first: nat, opener: CallId,
                   j: nat, last: nat, writer: CallId, n: nat, id: RowId)
    requires Behavior(iso, tr, es) && Opens(tr, es, i, first, opener, id) && i < j
    requires LastWrites(tr, es, j, n, last, writer, id) && HasOpen(tr[j + 1].rows, id, es[first].key)
    ensures id in tr[j].rows && es[last].key == es[first].key
    ensures var row := tr[j + 1].rows[id];
      && row.deadline == CapOf(es[first]) && row.jobClass == es[first].jobClass == es[last].jobClass
      && row.kwargs == es[last].kwargs
      && Earliest(row.runAfter, es[last].now + es[last].period, CapOf(es[last]), CapOf(es[first]))
  {
    OpeningParks(iso, tr, es, i, first, opener, id);
    AlwaysSound(iso, tr, es, i + 1);
    IdsGrow(iso, tr, es, i + 1, j);
    WasOpenBefore(iso, tr, es, j, j + 1, id, es[first].key);
    CeilingStays(iso, tr, es, i + 1, j, id, es[first].key);
    OldRowsAreBounced(iso, tr[j], es[j], tr[j + 1], id);
    BounceParks(iso, tr, es, j, last, writer, id, n);
  }

  /**
   As long as the window is open, its run_after is the earliest of now + period and now + cap
   of the call that wrote it last, whether that is a bounce or the opening itself, and
   now + cap of the call that opened it; and its arguments are those of the call that wrote it last.
   */
  lemma LastCallDecides(iso: Isolation, tr: seq<State>, es: seq<Event>, i: nat, first: nat, opener: CallId,
                        j: nat, last: nat, writer: CallId, n: nat, id: RowId)
    requires Behavior(iso, tr, es) && Opens(tr, es, i, first, opener, id) && i <= j
    requires LastWrites(tr, es, j, n, last, writer, id) && HasOpen(tr[n].rows, id, es[first].key)
    ensures var row := tr[n].rows[id];
      && row.deadline == CapOf(es[first]) && row.jobClass == es[first].jobClass == es[last].jobClass
      && row.kwargs == es[last].kwargs && es[last].key == es[first].key
      && Earliest(row.runAfter, es[last].now + es[last].period, CapOf(es[last]), CapOf(es[first]))
  {
    OpeningParks(iso, tr, es, i, first, opener, id);
    AlwaysSound(iso, tr, es, i + 1);
    IdsGrow(iso, tr, es, i + 1, j + 1);
    WasOpenBefore(iso, tr, es, j + 1, n, id, es[first].key);
    UnwrittenStaysLong(iso, tr, es, j + 1, n, id, es[first].key);
    if j == i {
      var begun := EveryCallWasBegun(iso, tr, es, j, writer);
      assert last == begun == first;
    } else {
      LastBounce(iso, tr, es, i, first, opener, j, last, writer, n, id);
    }
  }

  /** Step i, inside the call begun by e, moved the key's open window and gave it this call's arguments. */
  ghost predicate BouncedAt(tr: seq<State>, es: seq<Event>, i: int, c: CallId, e: Event, id: RowId)
    requires e.Begin?
  {
    && 0 <= i < |es| && |tr| == |es| + 1 && es[i] == Bounce(c) && InProgress(tr[i], c)
    && HasOpen(tr[i].rows, id, e.key) && tr[i].rows[id].jobClass == e.jobClass
    && HasOpen(tr[i + 1].rows, id, e.key) && tr[i + 1].rows[id].kwargs == e.kwargs
    && Earliest(tr[i + 1].rows[id].runAfter, e.now + e.period, CapOf(e), tr[i].rows[id].deadline)
  }

  /** Step i, inside the call begun by e, opened the window as the key's only one. */
  ghost predicate OpenedAt(tr: seq<State>, es: seq<Event>, i: int, c: CallId, e: Event, id: RowId)
    requires e.Begin?
  {
    && 0 <= i < |es| && |tr| == |es| + 1 && es[i] == Insert(c) && InProgress(tr[i], c)
    && Free(tr[i].rows, e.key) && id !in tr[i].rows
    && HasOpen(tr[i + 1].rows, id, e.key) && tr[i + 1].rows[id].jobClass == e.jobClass
    && tr[i + 1].rows[id].kwargs == e.kwargs && tr[i + 1].rows[id].deadline == CapOf(e)
    && Earliest(tr[i + 1].rows[id].runAfter, e.now + e.period, CapOf(e), None)
  }

  lemma ReturningStep(iso: Isolation, tr: seq<State>, es: seq<Event>, i: nat, b: nat, c: CallId)
    requires Behavior(iso, tr, es) && b < i < |es| && BegunAt(es, b, c)
    requires (es[i] == Insert(c) || es[i] == Bounce(c)) && c in tr[i + 1].calls && tr[i + 1].calls[c].phase.Returned?
    ensures var phase := tr[i + 1].calls[c].phase;
      if phase.created then OpenedAt(tr, es, i, c, es[b], phase.id) else BouncedAt(tr, es, i, c, es[b], phase.id)
  {
    assert Next(iso, tr[i], es[i], tr[i + 1]);
    AlwaysSound(iso, tr, es, i);
    var begun := EveryCallWasBegun(iso, tr, es, i, c);
    assert b == begun;
  }

  /** Every call that returns bounced the open window, or opened it, at an instant inside the call. */
  lemma {:induction false} ReturnsLinearize(iso: Isolation, tr: seq<State>, es: seq<Event>, n: nat, c: CallId, b: nat) returns (i: nat)
    requires Behavior(iso, tr, es) && b < n < |tr| && BegunAt(es, b, c)
    requires c in tr[n].calls && tr[n].calls[c].phase.Returned?
    ensures var phase := tr[n].calls[c].phase;
      && b < i < n
      && (phase.created ==> OpenedAt(tr, es, i, c, es[b], phase.id))
      && (!phase.created ==> BouncedAt(tr, es, i, c, es[b], phase.id))
  {
    assert Next(iso, tr[n - 1], es[n - 1], tr[n]);
    if es[n - 1] == Insert(c) || es[n - 1] == Bounce(c) {
      i := n - 1;
      ReturningStep(iso, tr, es, i, b, c);
    } else {
      assert c in tr[n - 1].calls;
      CallStep(iso, tr[n - 1], es[n - 1], tr[n], c);
      i := ReturnsLinearize(iso, tr, es, n - 1, c, b);
    }
  }

  /** The snapshot of the attempt a call is in, taken inside the call and true when taken. */
  lemma {:induction false} LookWasTrue(tr: seq<State>, es: seq<Event>, n: nat, c: CallId) returns (i: nat)
    requires Behavior(ReadCommitted, tr, es) && n < |tr| && c in tr[n].calls && tr[n].calls[c].phase.Looked?
    ensures i < n && c in tr[i].calls && Shows(tr[i].rows, tr[n].calls[c].key, tr[n].calls[c].phase.seen)
    ensures tr[i].calls[c] == tr[n].calls[c].(phase := Ready(tr[n].calls[c].phase.attempt))
    ensures forall k :: i <= k <= n ==> InProgress(tr[k], c)
  {
    assert Next(ReadCommitted, tr[n - 1], es[n - 1], tr[n]);
    if es[n - 1] == Look(c) {
      i := n - 1;
    } else {
      assert c in tr[n - 1].calls;
      CallStep(ReadCommitted, tr[n - 1], es[n - 1], tr[n], c);
      i := LookWasTrue(tr, es, n - 1, c);
    }
  }

  /** A refusal is about a window that was open inside the call for another class than it was begun with. */
  lemma RefusalsLinearize(tr: seq<State>, es: seq<Event>, n: nat, c: CallId, b: nat) returns (i: nat)
    requires Behavior(ReadCommitted, tr, es) && b < n < |tr| && BegunAt(es, b, c)
    requires c in tr[n].calls && tr[n].calls[c].phase.Refused?
    ensures b < i < n && InProgress(tr[i], c) && HasOpen(tr[i].rows, tr[n].calls[c].phase.id, es[b].key)
    ensures tr[i].rows[tr[n].calls[c].phase.id].jobClass != es[b].jobClass
  {
    var begun := EveryCallWasBegun(ReadCommitted, tr, es, n, c);
    i := RefusedAt(tr, es, n, c);
    var earlier := EveryCallWasBegun(ReadCommitted, tr, es, i, c);
    assert b == begun == earlier;
  }

  lemma {:induction false} RefusedAt(tr: seq<State>, es: seq<Event>, n: nat, c: CallId) returns (i: nat)
    requires Behavior(ReadCommitted, tr, es) && n < |tr| && c in tr[n].calls && tr[n].calls[c].phase.Refused?
    ensures i < n && InProgress(tr[i], c) && HasOpen(tr[i].rows, tr[n].calls[c].phase.id, tr[n].calls[c].key)
    ensures tr[i].rows[tr[n].calls[c].phase.id].jobClass != tr[n].calls[c].jobClass
  {
    assert Next(ReadCommitted, tr[n - 1], es[n - 1], tr[n]);
    if es[n - 1] == Bounce(c) {
      i := LookWasTrue(tr, es, n - 1, c);
    } else {
      assert c in tr[n - 1].calls;
      CallStep(ReadCommitted, tr[n - 1], es[n - 1], tr[n], c);
      i := RefusedAt(tr, es, n - 1, c);
    }
  }

  // ------------------------------------------------------------------- the retry budget

  /** The attempt a call is inserting for: its look at s, its unsuccessful bounce at u. */
  lemma {:induction false} InsertingMeans(tr: seq<State>, es: seq<Event>, n: nat, c: CallId) returns (s: nat, u: nat)
    requires Behavior(ReadCommitted, tr, es) && n < |tr| && c in tr[n].calls && tr[n].calls[c].phase.Inserting?
    ensures s < u < n && es[u] == Bounce(c) && c in tr[s].calls && c in tr[u].calls
    ensures Shows(tr[s].rows, tr[n].calls[c].key, tr[n].calls[c].phase.seen)
    ensures tr[s].calls[c] == tr[n].calls[c].(phase := Ready(tr[n].calls[c].phase.attempt))
    ensures tr[u].calls[c] == tr[n].calls[c].(phase := Looked(tr[n].calls[c].phase.attempt, tr[n].calls[c].phase.seen))
    ensures !Bounces(tr[u].rows, tr[u].calls[c])
    ensures tr[n].calls[c].phase.seen.Held? ==> tr[n].calls[c].phase.seen.jobClass == tr[n].calls[c].jobClass
    ensures forall k :: s <= k <= n ==> InProgress(tr[k], c)
  {
    assert Next(ReadCommitted, tr[n - 1], es[n - 1], tr[n]);
    if es[n - 1] == Bounce(c) {
      u := n - 1;
      s := LookWasTrue(tr, es, n - 1, c);
    } else {
      assert c in tr[n - 1].calls;
      CallStep(ReadCommitted, tr[n - 1], es[n - 1], tr[n], c);
      s, u := InsertingMeans(tr, es, n - 1, c);
    }
  }

  /** Step i opened window id of the key for a call other than c, while c was in progress. */
  ghost predicate OtherOpened(tr: seq<State>, es: seq<Event>, i: int, id: RowId, key: Key, c: CallId) {
    && 0 <= i < |es| && |tr| == |es| + 1 && InProgress(tr[i], c)
    && es[i].Insert? && es[i].call != c
    && id !in tr[i].rows && HasOpen(tr[i + 1].rows, id, key)
  }

  ghost predicate OthersOpened(tr: seq<State>, es: seq<Event>, id: RowId, key: Key, c: CallId) {
    exists i :: OtherOpened(tr, es, i, id, key, c)
  }

  lemma {:induction false} WindowHasBirth(iso: Isolation, tr: seq<State>, es: seq<Event>, m: nat, n: nat, id: RowId, key: Key)
    returns (i: nat)
    requires Behavior(iso, tr, es) && m <= n < |tr| && HasOpen(tr[n].rows, id, key) && !HasOpen(tr[m].rows, id, key)
    ensures m <= i < n && id !in tr[i].rows && HasOpen(tr[i + 1].rows, id, key) && es[i].Insert?
    ensures id >= tr[i].nextId
  {
    assert Next(iso, tr[n - 1], es[n - 1], tr[n]);
    AlwaysSound(iso, tr, es, n - 1);
    if HasOpen(tr[n - 1].rows, id, key) {
      i := WindowHasBirth(iso, tr, es, m, n - 1, id, key);
    } else {
      WasOpenOrInserted(iso, tr[n - 1], es[n - 1], tr[n], id, key);
      i := n - 1;
    }
  }

  /** The window that makes an insert fail was not open when the attempt began. */
  lemma ConflictIsNewer(tr: seq<State>, es: seq<Event>, n: nat, c: CallId, w: RowId) returns (s: nat)
    requires Behavior(ReadCommitted, tr, es) && n < |tr| && c in tr[n].calls && tr[n].calls[c].phase.Inserting?
    requires HasOpen(tr[n].rows, w, tr[n].calls[c].key)
    ensures s < n && c in tr[s].calls && tr[s].calls[c] == tr[n].calls[c].(phase := Ready(tr[n].calls[c].phase.attempt))
    ensures !HasOpen(tr[s].rows, w, tr[n].calls[c].key)
    ensures forall k :: s <= k <= n ==> InProgress(tr[k], c)
  {
    var call := tr[n].calls[c];
    var u;
    s, u := InsertingMeans(tr, es, n, c);
    AlwaysSound(ReadCommitted, tr, es, s);
    if HasOpen(tr[s].rows, w, call.key) {
      assert call.phase.seen.Held? && call.phase.seen.id == w;
      IdsGrow(ReadCommitted, tr, es, s, u);
      WasOpenBefore(ReadCommitted, tr, es, u, n, w, call.key);
      CeilingStays(ReadCommitted, tr, es, s, u, w, call.key);
      assert false;
    }
  }

  lemma LostAttempt(tr: seq<State>, es: seq<Event>, n: nat, c: CallId) returns (w: RowId, s: nat)
    requires Behavior(ReadCommitted, tr, es) && n < |tr| && c in tr[n].calls && tr[n].calls[c].phase.Inserting?
    requires !Free(tr[n].rows, tr[n].calls[c].key)
    ensures s < n && c in tr[s].calls && tr[s].calls[c] == tr[n].calls[c].(phase := Ready(tr[n].calls[c].phase.attempt))
    ensures tr[s].nextId <= w < tr[n].nextId && OthersOpened(tr, es, w, tr[n].calls[c].key, c)
  {
    var key := tr[n].calls[c].key;
    w :| w in tr[n].rows && Open(tr[n].rows[w], key);
    s := ConflictIsNewer(tr, es, n, c, w);
    var i := WindowHasBirth(ReadCommitted, tr, es, s, n, w, key);
    IdsGrow(ReadCommitted, tr, es, s, i);
    AlwaysSound(ReadCommitted, tr, es, n);
    assert Next(ReadCommitted, tr[i], es[i], tr[i + 1]);
    assert InProgress(tr[i], c) && InProgress(tr[i + 1], c);
    assert OtherOpened(tr, es, i, w, key, c);
  }

  /** One rival window per attempt used up, in the order they were opened. */
  ghost predicate BeatenBy(tr: seq<State>, es: seq<Event>, n: nat, c: CallId, ws: seq<RowId>)
    requires n < |tr| && c in tr[n].calls
  {
    && Increasing(ws)
    && (forall k :: 0 <= k < |ws| ==> ws[k] < tr[n].nextId && OthersOpened(tr, es, ws[k], tr[n].calls[c].key, c))
    && (tr[n].calls[c].phase.Ready? ==> |ws| == tr[n].calls[c].phase.attempt < ATTEMPTS)
    && (tr[n].calls[c].phase.Exhausted? ==> |ws| == ATTEMPTS)
  }

  lemma {:induction false} CountBeats(tr: seq<State>, es: seq<Event>, n: nat, c: CallId) returns (ws: seq<RowId>)
    requires Behavior(ReadCommitted, tr, es) && n < |tr| && c in tr[n].calls
    requires tr[n].calls[c].phase.Ready? || tr[n].calls[c].phase.Exhausted?
    ensures BeatenBy(tr, es, n, c, ws)
    decreases n
  {
    assert Next(ReadCommitted, tr[n - 1], es[n - 1], tr[n]);
    if es[n - 1].Begin? && es[n - 1].call == c {
      ws := [];
    } else {
      assert c in tr[n - 1].calls;
      CallStep(ReadCommitted, tr[n - 1], es[n - 1], tr[n], c);
      IdsGrow(ReadCommitted, tr, es, n - 1, n);
      if es[n - 1] == Insert(c) {
        var w, s := LostAttempt(tr, es, n - 1, c);
        var earlier := CountBeats(tr, es, s, c);
        ws := earlier + [w];
      } else {
        ws := CountBeats(tr, es, n - 1, c);
      }
    }
  }

  /** The budget runs out only if others opened five distinct windows of the key during the call. */
  lemma ExhaustionMeansFiveRivals(tr: seq<State>, es: seq<Event>, n: nat, c: CallId) returns (ws: seq<RowId>)
    requires Behavior(ReadCommitted, tr, es) && n < |tr| && c in tr[n].calls && tr[n].calls[c].phase == Exhausted
    ensures |ws| == 5 && forall j, k :: 0 <= j < k < 5 ==> ws[j] != ws[k]
    ensures forall k :: 0 <= k < 5 ==> OthersOpened(tr, es, ws[k], tr[n].calls[c].key, c)
  {
    ws := CountBeats(tr, es, n, c);
  }

  /** Reusing a snapshot that showed nothing, a call neither bounces nor opens while anyone has the window. */
  lemma {:induction false} ReusedSnapshotNeverBounces(tr: seq<State>, es: seq<Event>, m: nat, n: nat, c: CallId)
    requires Behavior(RepeatableRead, tr, es) && m <= n < |tr| && c in tr[m].calls
    requires tr[m].calls[c].phase.Looked? && tr[m].calls[c].phase.seen == Nothing
    requires forall k :: m <= k <= n ==> !Free(tr[k].rows, tr[m].calls[c].key)
    ensures c in tr[n].calls && tr[n].calls[c].key == tr[m].calls[c].key
    ensures var phase := tr[n].calls[c].phase;
      phase == Exhausted || (phase.Looked? && phase.seen == Nothing) || (phase.Inserting? && phase.seen == Nothing)
  {
    if m < n {
      ReusedSnapshotNeverBounces(tr, es, m, n - 1, c);
      assert Next(RepeatableRead, tr[n - 1], es[n - 1], tr[n]);
      CallStep(RepeatableRead, tr[n - 1], es[n - 1], tr[n], c);
    }
  }

  /** c's two statements of one attempt, run against a window that its reused snapshot does not show. */
  lemma LostRound(s: State, c: CallId) returns (mid: State, s': State)
    requires c in s.calls && s.calls[c].phase.Looked? && s.calls[c].phase.seen == Nothing
    requires !Free(s.rows, s.calls[c].key)
    ensures Next(RepeatableRead, s, Bounce(c), mid) && Next(RepeatableRead, mid, Insert(c), s')
    ensures mid.rows == s.rows && s'.rows == s.rows
    ensures var next := s.calls[c].phase.attempt + 1;
      c in s'.calls && s'.calls[c] == s.calls[c].(phase := if next >= ATTEMPTS then Exhausted else Looked(next, Nothing))
  {
    mid := s.(calls := s.calls[c := NotBounced(s.calls[c])]);
    s' := mid.(calls := mid.calls[c := InsertConflicted(RepeatableRead, mid.calls[c])]);
  }

  /** So a call can exhaust its budget although one window sits there, untouched, throughout. */
  lemma {:induction false} OneWindowExhaustsReusedSnapshot(s: State, c: CallId) returns (tr: seq<State>, es: seq<Event>)
    requires c in s.calls && s.calls[c].phase.Looked? && s.calls[c].phase.seen == Nothing
    requires s.calls[c].phase.attempt < ATTEMPTS && !Free(s.rows, s.calls[c].key)
    ensures |tr| == |es| + 1 && tr[0] == s
    ensures forall i :: 0 <= i < |es| ==> Next(RepeatableRead, tr[i], es[i], tr[i + 1])
    ensures forall i :: 0 <= i < |tr| ==> tr[i].rows == s.rows
    ensures c in tr[|es|].calls && tr[|es|].calls[c].phase == Exhausted
    decreases ATTEMPTS - s.calls[c].phase.attempt
  {
    var mid, s' := LostRound(s, c);
    if s'.calls[c].phase == Exhausted {
      tr, es := [s, mid, s'], [Bounce(c), Insert(c)];
    } else {
      var rest, events := OneWindowExhaustsReusedSnapshot(s', c);
      tr, es := [s, mid] + rest, [Bounce(c), Insert(c)] + events;
      forall i | 0 <= i < |es| ensures Next(RepeatableRead, tr[i], es[i], tr[i + 1]) {
        if i >= 2 {
          assert tr[i] == rest[i - 2] && es[i] == events[i - 2] && tr[i + 1] == rest[i - 1];
        }
      }
    }
  }

  /**
   The cap of a later call is not written to the window, but it bounds that call's own
   run_after before the bounce, so it can pull the job in: it does exactly if it is shorter
   than its period and ends before the window's ceiling.
   */
  lemma LaterCapMattersIff(iso: Isolation, tr: seq<State>, es: seq<Event>, i: nat, first: nat, opener: CallId,
                           j: nat, last: nat, writer: CallId, n: nat, id: RowId)
    requires Behavior(iso, tr, es) && Opens(tr, es, i, first, opener, id) && i <= j
    requires LastWrites(tr, es, j, n, last, writer, id) && HasOpen(tr[n].rows, id, es[first].key)
    ensures !Earliest(tr[n].rows[id].runAfter, es[last].now + es[last].period, None, CapOf(es[first])) <==>
      && es[last].cap.Some? && es[last].cap.value < es[last].period
      && (es[first].cap.Some? ==> es[last].now + es[last].cap.value < es[first].now + es[first].cap.value)
  {
    LastCallDecides(iso, tr, es, i, first, opener, j, last, writer, n, id);
  }

  // ----------------------------------------------------------------- a burst of two calls

  function Parked(runAfter: int, deadline: Option<int>, kwargs: Kwargs): map<RowId, Row> {
    map[0 := Row(Some("k"), "job", Queued, 0, runAfter, deadline, kwargs)]
  }

  function First(phase: Phase): Call {
    Call("k", "job", 130, Some(150), "x", phase)
  }

  function Second(cap: Option<int>, phase: Phase): Call {
    NewCall(Begin(1, "k", "job", "y", 120, 40, cap)).(phase := phase)
  }

  function BurstStates(cap: Option<int>): seq<State> {
    var one := map[0 := First(Returned(0, true))];
    [State(map[], 0, map[]),
     State(map[], 0, map[0 := First(Ready(0))]),
     State(map[], 0, map[0 := First(Looked(0, Nothing))]),
     State(map[], 0, map[0 := First(Inserting(0, Nothing))]),
     State(Parked(130, Some(150), "x"), 1, one),
     State(Parked(130, Some(150), "x"), 1, one[1 := Second(cap, Ready(0))]),
     State(Parked(130, Some(150), "x"), 1, one[1 := Second(cap, Looked(0, Held(0, "job")))]),
     State(Parked(if cap == Some(5) then 125 else 150, Some(150), "y"), 1, one[1 := Second(cap, Returned(0, false))])]
  }

  function BurstEvents(cap: Option<int>): seq<Event> {
    [Begin(0, "k", "job", "x", 100, 30, Some(50)), Look(0), Bounce(0), Insert(0),
     Begin(1, "k", "job", "y", 120, 40, cap), Look(1), Bounce(1)]
  }

  lemma BurstStep(cap: Option<int>, i: nat)
    requires i < 7 && (cap == None || cap == Some(5))
    ensures Next(ReadCommitted, BurstStates(cap)[i], BurstEvents(cap)[i], BurstStates(cap)[i + 1])
  {
    var tr := BurstStates(cap);
    if i == 1 {
      assert Shows(tr[1].rows, "k", Nothing);
    } else if i == 5 {
      assert Shows(tr[5].rows, "k", Held(0, "job"));
    }
  }

  /**
   Begun at 100 with a period of 30 and a cap of 50 the job is parked at 130. Bounced at 120
   with a period of 40 it is parked at 150, the first call's ceiling; but at 125 if the
   second call has a cap of 5.
   */
  lemma BurstOfTwo(cap: Option<int>)
    requires cap == None || cap == Some(5)
    ensures var tr, es := BurstStates(cap), BurstEvents(cap);
      && Behavior(ReadCommitted, tr, es)
      && Opens(tr, es, 3, 0, 0, 0) && tr[4].rows[0].runAfter == 130
      && LastWrites(tr, es, 6, 7, 4, 1, 0) && tr[7].rows[0].kwargs == "y"
      && tr[7].rows[0].runAfter == (if cap == None then 150 else 125)
  {
    forall i | 0 <= i < 7 ensures Next(ReadCommitted, BurstStates(cap)[i], BurstEvents(cap)[i], BurstStates(cap)[i + 1]) {
      BurstStep(cap, i);
    }
  }
}
