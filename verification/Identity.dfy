/**
 Identified enqueue: any number of concurrent calls running ENQUEUE_IDENTIFIED_SQL
 against one table with a unique index on identity_key, workers and operators changing
 the rows' states, and retention deleting rows.

 One statement is two events. `Snapshot` fixes what its SELECT branch can see. `Resolve`
 is where ON CONFLICT has waited out any uncommitted holder: the key is free and the row
 goes in, or it is not and the answer is whatever the snapshot showed, possibly nothing.
 Nothing means the statement is run again, five times at most.
 */
module Identity {
  import opened Speculation

  /** A live row with an identity_key. Its state plays no part in holding the key. */
  datatype Row = Row(key: Key, jobClass: JobClass, state: string)

  datatype Phase =
    | Ready(attempt: nat)
    | Snapped(attempt: nat, seen: Seen)
    | Returned(id: RowId, created: bool)
    | Refused(id: RowId)
    | Exhausted

  datatype Call = Call(key: Key, jobClass: JobClass, phase: Phase)

  datatype State = State(rows: map<RowId, Row>, nextId: nat, calls: map<CallId, Call>)

  datatype Event =
    | Begin(call: CallId, key: Key, jobClass: JobClass)
    | Snapshot(call: CallId)
    | Resolve(call: CallId)
    | Work(row: RowId, state: string)
    | Delete(row: RowId)

  predicate Holds(rows: map<RowId, Row>, id: RowId, key: Key) {
    id in rows && rows[id].key == key
  }

  ghost predicate Free(rows: map<RowId, Row>, key: Key) {
    forall id :: id in rows ==> rows[id].key != key
  }

  /** `seen` is what a snapshot of these rows shows for the key. */
  ghost predicate Shows(rows: map<RowId, Row>, key: Key, seen: Seen) {
    match seen
    case Nothing => Free(rows, key)
    case Held(id, jobClass) => Holds(rows, id, key) && rows[id].jobClass == jobClass
  }

  /** What one call does at its conflict resolution when the key is taken. */
  function Conflicted(iso: Isolation, call: Call): Call
    requires call.phase.Snapped?
  {
    match call.phase.seen
    case Held(id, jobClass) =>
      call.(phase := if jobClass == call.jobClass then Returned(id, false) else Refused(id))
    case Nothing =>
      var next := call.phase.attempt + 1;
      call.(phase := if next >= ATTEMPTS then Exhausted
                     else if iso.ReadCommitted? then Ready(next)
                     else Snapped(next, Nothing))
  }

  ghost predicate Next(iso: Isolation, s: State, e: Event, s': State) {
    match e
    case Begin(c, key, jobClass) =>
      && c !in s.calls
      && s' == s.(calls := s.calls[c := Call(key, jobClass, Ready(0))])
    case Snapshot(c) =>
      && c in s.calls && s.calls[c].phase.Ready?
      && s'.rows == s.rows && s'.nextId == s.nextId
      && exists seen :: Shows(s.rows, s.calls[c].key, seen)
           && s'.calls == s.calls[c := s.calls[c].(phase := Snapped(s.calls[c].phase.attempt, seen))]
    case Resolve(c) =>
      && c in s.calls && s.calls[c].phase.Snapped?
      && if Free(s.rows, s.calls[c].key) then
           // ids come from a sequence, which may skip numbers
           && s'.nextId > s.nextId
           && var id := s'.nextId - 1;
              && (exists state :: s'.rows == s.rows[id := Row(s.calls[c].key, s.calls[c].jobClass, state)])
              && s'.calls == s.calls[c := s.calls[c].(phase := Returned(id, true))]
         else
           s' == s.(calls := s.calls[c := Conflicted(iso, s.calls[c])])
    case Work(id, state) =>
      && id in s.rows
      && s' == s.(rows := s.rows[id := s.rows[id].(state := state)])
    case Delete(id) =>
      && id in s.rows
      && s' == s.(rows := s.rows - {id})
  }

  /** The unique index, and the id sequence ahead of every row. */
  ghost predicate Sound(s: State) {
    && (forall a, b :: a in s.rows && b in s.rows && s.rows[a].key == s.rows[b].key ==> a == b)
    && (forall a :: a in s.rows ==> a < s.nextId)
  }

  /** A run: the table may start with any rows that respect the index, and no calls. */
  ghost predicate Behavior(iso: Isolation, tr: seq<State>, es: seq<Event>) {
    && |tr| == |es| + 1
    && Sound(tr[0]) && tr[0].calls == map[]
    && forall i :: 0 <= i < |es| ==> Next(iso, tr[i], es[i], tr[i + 1])
  }

  // ------------------------------------------------------------------ one row per key

  lemma StepKeepsSound(iso: Isolation, s: State, e: Event, s': State)
    requires Sound(s) && Next(iso, s, e, s')
    ensures Sound(s') && s.nextId <= s'.nextId
  {
  }

  /** In every reachable interleaving at most one row holds a key. */
  lemma {:induction false} AtMostOneHolder(iso: Isolation, tr: seq<State>, es: seq<Event>, n: nat)
    requires Behavior(iso, tr, es) && n < |tr|
    ensures Sound(tr[n])
    ensures forall a, b :: a in tr[n].rows && b in tr[n].rows && tr[n].rows[a].key == tr[n].rows[b].key ==> a == b
  {
    if n > 0 {
      AtMostOneHolder(iso, tr, es, n - 1);
      StepKeepsSound(iso, tr[n - 1], es[n - 1], tr[n]);
    }
  }

  lemma {:induction false} IdsGrow(iso: Isolation, tr: seq<State>, es: seq<Event>, m: nat, n: nat)
    requires Behavior(iso, tr, es) && m <= n < |tr|
    ensures tr[m].nextId <= tr[n].nextId
  {
    if m < n {
      IdsGrow(iso, tr, es, m, n - 1);
      AtMostOneHolder(iso, tr, es, n - 1);
      StepKeepsSound(iso, tr[n - 1], es[n - 1], tr[n]);
    }
  }

  // --------------------------------------------------------------------- linearization

  predicate InProgress(s: State, c: CallId) {
    c in s.calls && (s.calls[c].phase.Ready? || s.calls[c].phase.Snapped?)
  }

  /** At instant i, inside the call, its answer was the truth. */
  ghost predicate TrueAt(tr: seq<State>, i: int, c: CallId, key: Key, jobClass: JobClass, id: RowId) {
    && 0 <= i < |tr| && InProgress(tr[i], c)
    && Holds(tr[i].rows, id, key) && tr[i].rows[id].jobClass == jobClass
  }

  ghost predicate OnlyHolder(rows: map<RowId, Row>, key: Key, id: RowId) {
    forall other :: other in rows && rows[other].key == key ==> other == id
  }

  /** Step i, inside the call, put in the only row for a key that was free, as a row of this class. */
  ghost predicate InsertedAt(tr: seq<State>, es: seq<Event>, i: int, c: CallId, key: Key, jobClass: JobClass, id: RowId) {
    && 0 <= i < |es| && |tr| == |es| + 1 && es[i] == Resolve(c) && InProgress(tr[i], c)
    && Free(tr[i].rows, key) && id !in tr[i].rows && Holds(tr[i + 1].rows, id, key)
    && tr[i + 1].rows[id].jobClass == jobClass && OnlyHolder(tr[i + 1].rows, key, id)
    && forall other :: other in tr[i].rows ==> other in tr[i + 1].rows && tr[i + 1].rows[other] == tr[i].rows[other]
  }

  /** A call keeps its key and class, and a finished call keeps its outcome. */
  lemma CallStep(iso: Isolation, s: State, e: Event, s': State, c: CallId)
    requires Next(iso, s, e, s') && c in s.calls
    ensures c in s'.calls && s'.calls[c].key == s.calls[c].key && s'.calls[c].jobClass == s.calls[c].jobClass
    ensures e != Snapshot(c) && e != Resolve(c) ==> s'.calls[c] == s.calls[c]
    ensures !InProgress(s, c) ==> s'.calls[c] == s.calls[c]
  {
  }

  /** The step a call began with, and that it asks for what it was begun with. */
  ghost predicate BegunAt(es: seq<Event>, b: int, c: CallId, key: Key, jobClass: JobClass) {
    0 <= b < |es| && es[b] == Begin(c, key, jobClass)
  }

  lemma {:induction false} EveryCallWasBegun(iso: Isolation, tr: seq<State>, es: seq<Event>, n: nat, c: CallId) returns (b: nat)
    requires Behavior(iso, tr, es) && n < |tr| && c in tr[n].calls
    ensures b < n && BegunAt(es, b, c, tr[n].calls[c].key, tr[n].calls[c].jobClass) && c !in tr[b].calls
    ensures forall k :: 0 <= k < n && es[k].Begin? && es[k].call == c ==> k == b
  {
    assert Next(iso, tr[n - 1], es[n - 1], tr[n]);
    if c in tr[n - 1].calls {
      CallStep(iso, tr[n - 1], es[n - 1], tr[n], c);
      b := EveryCallWasBegun(iso, tr, es, n - 1, c);
    } else {
      b := n - 1;
      NotBegunBefore(iso, tr, es, n - 1, c);
    }
  }

  lemma {:induction false} NotBegunBefore(iso: Isolation, tr: seq<State>, es: seq<Event>, n: nat, c: CallId)
    requires Behavior(iso, tr, es) && n < |tr| && c !in tr[n].calls
    ensures forall k :: 0 <= k < n ==> !(es[k].Begin? && es[k].call == c)
  {
    if n > 0 {
      assert Next(iso, tr[n - 1], es[n - 1], tr[n]);
      NotBegunBefore(iso, tr, es, n - 1, c);
    }
  }

  /** What a statement's snapshot showed was so when it was taken, inside the call. */
  lemma {:induction false} SnapshotWasTrue(tr: seq<State>, es: seq<Event>, n: nat, c: CallId) returns (i: nat)
    requires Behavior(ReadCommitted, tr, es) && n < |tr| && c in tr[n].calls
    requires tr[n].calls[c].phase.Snapped?
    ensures i < n && InProgress(tr[i], c) && Shows(tr[i].rows, tr[n].calls[c].key, tr[n].calls[c].phase.seen)
    ensures tr[i].calls[c] == tr[n].calls[c].(phase := Ready(tr[n].calls[c].phase.attempt))
    ensures forall k :: i < k <= n ==> c in tr[k].calls && tr[k].calls[c] == tr[n].calls[c]
  {
    assert Next(ReadCommitted, tr[n - 1], es[n - 1], tr[n]);
    if es[n - 1] == Snapshot(c) {
      i := n - 1;
    } else {
      assert c in tr[n - 1].calls;
      CallStep(ReadCommitted, tr[n - 1], es[n - 1], tr[n], c);
      assert es[n - 1] != Resolve(c);
      i := SnapshotWasTrue(tr, es, n - 1, c);
    }
  }

  /**
   Every call that returns has an instant inside it at which it inserted the only row for a
   free key, of the class it was begun with, or at which the id it returns held the key as a
   row of that class. The row may have been deleted by the time the call returns.
   */
  lemma ReturnsLinearize(tr: seq<State>, es: seq<Event>, n: nat, c: CallId, b: nat, key: Key, jobClass: JobClass) returns (i: nat)
    requires Behavior(ReadCommitted, tr, es) && b < n < |tr| && BegunAt(es, b, c, key, jobClass)
    requires c in tr[n].calls && tr[n].calls[c].phase.Returned?
    ensures var phase := tr[n].calls[c].phase;
      && b < i < n
      && (phase.created ==> InsertedAt(tr, es, i, c, key, jobClass, phase.id))
      && (!phase.created ==> TrueAt(tr, i, c, key, jobClass, phase.id))
  {
    var begun := EveryCallWasBegun(ReadCommitted, tr, es, n, c);
    i := ReturnedAt(tr, es, n, c);
    var earlier := EveryCallWasBegun(ReadCommitted, tr, es, i, c);
    assert b == begun == earlier;
  }

  lemma {:induction false} ReturnedAt(tr: seq<State>, es: seq<Event>, n: nat, c: CallId) returns (i: nat)
    requires Behavior(ReadCommitted, tr, es) && n < |tr| && c in tr[n].calls && tr[n].calls[c].phase.Returned?
    ensures var call := tr[n].calls[c];
      && i < n
      && (call.phase.created ==> InsertedAt(tr, es, i, c, call.key, call.jobClass, call.phase.id))
      && (!call.phase.created ==> TrueAt(tr, i, c, call.key, call.jobClass, call.phase.id))
  {
    assert Next(ReadCommitted, tr[n - 1], es[n - 1], tr[n]);
    AtMostOneHolder(ReadCommitted, tr, es, n - 1);
    if es[n - 1] == Resolve(c) {
      if tr[n].calls[c].phase.created {
        i := n - 1;
      } else {
        i := SnapshotWasTrue(tr, es, n - 1, c);
      }
    } else {
      assert c in tr[n - 1].calls;
      CallStep(ReadCommitted, tr[n - 1], es[n - 1], tr[n], c);
      i := ReturnedAt(tr, es, n - 1, c);
    }
  }

  /** A refusal, too, is about a row that held the key during the call, for another class than the call was begun with. */
  lemma RefusalsLinearize(tr: seq<State>, es: seq<Event>, n: nat, c: CallId, b: nat, key: Key, jobClass: JobClass)
    returns (i: nat, held: JobClass)
    requires Behavior(ReadCommitted, tr, es) && b < n < |tr| && BegunAt(es, b, c, key, jobClass)
    requires c in tr[n].calls && tr[n].calls[c].phase.Refused?
    ensures b < i < n && held != jobClass && TrueAt(tr, i, c, key, held, tr[n].calls[c].phase.id)
  {
    var begun := EveryCallWasBegun(ReadCommitted, tr, es, n, c);
    i, held := RefusedAt(tr, es, n, c);
    var earlier := EveryCallWasBegun(ReadCommitted, tr, es, i, c);
    assert b == begun == earlier;
  }

  lemma {:induction false} RefusedAt(tr: seq<State>, es: seq<Event>, n: nat, c: CallId)
    returns (i: nat, jobClass: JobClass)
    requires Behavior(ReadCommitted, tr, es) && n < |tr| && c in tr[n].calls && tr[n].calls[c].phase.Refused?
    ensures i < n && jobClass != tr[n].calls[c].jobClass
    ensures TrueAt(tr, i, c, tr[n].calls[c].key, jobClass, tr[n].calls[c].phase.id)
  {
    assert Next(ReadCommitted, tr[n - 1], es[n - 1], tr[n]);
    if es[n - 1] == Resolve(c) {
      i := SnapshotWasTrue(tr, es, n - 1, c);
      jobClass := tr[n - 1].calls[c].phase.seen.jobClass;
    } else {
      assert c in tr[n - 1].calls;
      CallStep(ReadCommitted, tr[n - 1], es[n - 1], tr[n], c);
      i, jobClass := RefusedAt(tr, es, n - 1, c);
    }
  }

  // --------------------------------------------------------------- whose class a key has

  /** Every row that holds the key is of the class. */
  ghost predicate HeldFor(rows: map<RowId, Row>, key: Key, jobClass: JobClass) {
    forall id :: id in rows && rows[id].key == key ==> rows[id].jobClass == jobClass
  }

  /** Nobody asks for the key with another class. */
  ghost predicate OneClassAsked(es: seq<Event>, key: Key, jobClass: JobClass) {
    forall k :: 0 <= k < |es| && es[k].Begin? && es[k].key == key ==> es[k].jobClass == jobClass
  }

  lemma {:induction false} KeyKeepsItsClass(iso: Isolation, tr: seq<State>, es: seq<Event>, n: nat, key: Key, jobClass: JobClass)
    requires Behavior(iso, tr, es) && n < |tr| && OneClassAsked(es, key, jobClass) && HeldFor(tr[0].rows, key, jobClass)
    ensures HeldFor(tr[n].rows, key, jobClass)
  {
    if n > 0 {
      KeyKeepsItsClass(iso, tr, es, n - 1, key, jobClass);
      assert Next(iso, tr[n - 1], es[n - 1], tr[n]);
      if es[n - 1].Resolve? && tr[n - 1].calls[es[n - 1].call].key == key {
        var b := EveryCallWasBegun(iso, tr, es, n - 1, es[n - 1].call);
      }
    }
  }

  /** Callers that agree about a key's class are never refused it, unless the table held it for another to begin with. */
  lemma AgreedKeysAreNotRefused(tr: seq<State>, es: seq<Event>, n: nat, c: CallId, key: Key, jobClass: JobClass)
    requires Behavior(ReadCommitted, tr, es) && OneClassAsked(es, key, jobClass) && HeldFor(tr[0].rows, key, jobClass)
    requires n < |tr| && c in tr[n].calls && tr[n].calls[c].key == key
    ensures !tr[n].calls[c].phase.Refused?
  {
    if tr[n].calls[c].phase.Refused? {
      var b := EveryCallWasBegun(ReadCommitted, tr, es, n, c);
      var i, held := RefusedAt(tr, es, n, c);
      KeyKeepsItsClass(ReadCommitted, tr, es, i, key, jobClass);
    }
  }

  // --------------------------------------------------------- created, once for each row

  predicate IsCreator(s: State, c: CallId, id: RowId) {
    c in s.calls && s.calls[c].phase == Returned(id, true)
  }

  /** Every row numbered from `first` on has exactly one creator, for as long as anyone asks. */
  ghost predicate Credited(s: State, first: RowId) {
    && (forall c: CallId, id: RowId :: IsCreator(s, c, id) ==> first <= id < s.nextId)
    && (forall c: CallId, d: CallId, id: RowId :: IsCreator(s, c, id) && IsCreator(s, d, id) ==> c == d)
    && (forall id :: id in s.rows && id >= first ==> exists c :: IsCreator(s, c, id))
  }

  lemma CreditStep(iso: Isolation, s: State, e: Event, s': State, first: RowId)
    requires Sound(s) && Credited(s, first) && first <= s.nextId && Next(iso, s, e, s')
    ensures Credited(s', first)
    ensures forall c: CallId, id: RowId :: IsCreator(s, c, id) ==> IsCreator(s', c, id)
  {
    StepKeepsSound(iso, s, e, s');
    forall c: CallId, id: RowId | IsCreator(s, c, id) ensures IsCreator(s', c, id) {
      CallStep(iso, s, e, s', c);
    }
    forall c: CallId, id: RowId | IsCreator(s', c, id)
      ensures first <= id < s'.nextId
      ensures IsCreator(s, c, id) || (e == Resolve(c) && id >= s.nextId)
    {
      match e {
        case Begin(d, key, jobClass) =>
          assert c == d || s'.calls[c] == s.calls[c];
        case Snapshot(d) =>
          assert c == d || s'.calls[c] == s.calls[c];
        case Resolve(d) =>
          assert c == d || s'.calls[c] == s.calls[c];
          assert c == d ==> Free(s.rows, s.calls[d].key) && id == s'.nextId - 1;
        case _ =>
          assert s'.calls == s.calls;
      }
      if !IsCreator(s, c, id) {
        assert id == s'.nextId - 1;
      }
    }
    forall id | id in s'.rows && id >= first ensures exists c :: IsCreator(s', c, id) {
      if id in s.rows {
        var c :| IsCreator(s, c, id);
        assert IsCreator(s', c, id);
      } else {
        assert IsCreator(s', e.call, id);
      }
    }
  }

  lemma {:induction false} AlwaysCredited(iso: Isolation, tr: seq<State>, es: seq<Event>, n: nat)
    requires Behavior(iso, tr, es) && n < |tr|
    ensures Credited(tr[n], tr[0].nextId)
  {
    if n > 0 {
      AlwaysCredited(iso, tr, es, n - 1);
      AtMostOneHolder(iso, tr, es, n - 1);
      IdsGrow(iso, tr, es, 0, n - 1);
      CreditStep(iso, tr[n - 1], es[n - 1], tr[n], tr[0].nextId);
    }
  }

  /** created=True is handed out exactly once for each row the run created, deleted or not. */
  lemma {:induction false} CreatedOncePerRow(iso: Isolation, tr: seq<State>, es: seq<Event>, m: nat, n: nat, id: RowId)
    requires Behavior(iso, tr, es) && m <= n < |tr| && id in tr[m].rows && id !in tr[0].rows && id >= tr[0].nextId
    ensures exists c :: IsCreator(tr[n], c, id)
    ensures forall c, d :: IsCreator(tr[n], c, id) && IsCreator(tr[n], d, id) ==> c == d
  {
    AlwaysCredited(iso, tr, es, n);
    if m < n {
      CreatedOncePerRow(iso, tr, es, m, n - 1, id);
      var c :| IsCreator(tr[n - 1], c, id);
      CallStep(iso, tr[n - 1], es[n - 1], tr[n], c);
      assert IsCreator(tr[n], c, id);
    }
  }

  // ------------------------------------------------------------------ the retry budget

  /** Step i put row id, holding the key, into the table on behalf of a call other than c, during c. */
  ghost predicate OtherCreated(tr: seq<State>, es: seq<Event>, i: int, id: RowId, key: Key, c: CallId) {
    && 0 <= i < |es| && |tr| == |es| + 1 && InProgress(tr[i], c)
    && es[i].Resolve? && es[i].call != c
    && id !in tr[i].rows && Holds(tr[i + 1].rows, id, key)
  }

  ghost predicate OthersCreated(tr: seq<State>, es: seq<Event>, id: RowId, key: Key, c: CallId) {
    exists i :: OtherCreated(tr, es, i, id, key, c)
  }

  /** A row that holds the key now but did not at m was created in between. */
  lemma {:induction false} RowHasBirth(iso: Isolation, tr: seq<State>, es: seq<Event>, m: nat, n: nat, id: RowId, key: Key)
    returns (i: nat)
    requires Behavior(iso, tr, es) && m <= n < |tr| && Holds(tr[n].rows, id, key) && !Holds(tr[m].rows, id, key)
    ensures m <= i < n && id !in tr[i].rows && Holds(tr[i + 1].rows, id, key) && es[i].Resolve?
    ensures id >= tr[i].nextId
  {
    assert Next(iso, tr[n - 1], es[n - 1], tr[n]);
    AtMostOneHolder(iso, tr, es, n - 1);
    if Holds(tr[n - 1].rows, id, key) {
      i := RowHasBirth(iso, tr, es, m, n - 1, id, key);
    } else {
      i := n - 1;
    }
  }

  /** The rows that beat call c so far: one per attempt used up, all older than the latest snapshot. */
  ghost predicate BeatenBy(tr: seq<State>, es: seq<Event>, n: nat, c: CallId, ws: seq<RowId>, s: nat)
    requires n < |tr| && c in tr[n].calls
  {
    && s <= n && Increasing(ws)
    && (forall k :: 0 <= k < |ws| ==> ws[k] < tr[s].nextId && OthersCreated(tr, es, ws[k], tr[n].calls[c].key, c))
    && match tr[n].calls[c].phase
       case Ready(a) => |ws| == a < ATTEMPTS
       case Snapped(a, seen) => |ws| == a < ATTEMPTS
       case Exhausted => |ws| == ATTEMPTS
       case _ => true
  }

  /** One lost attempt: the snapshot showed nothing, yet the key is taken at the resolution. */
  lemma LostAttempt(tr: seq<State>, es: seq<Event>, n: nat, c: CallId) returns (w: RowId, s: nat)
    requires Behavior(ReadCommitted, tr, es) && n < |tr| && c in tr[n].calls
    requires tr[n].calls[c].phase.Snapped? && tr[n].calls[c].phase.seen == Nothing
    requires !Free(tr[n].rows, tr[n].calls[c].key)
    ensures s < n && c in tr[s].calls && tr[s].calls[c] == tr[n].calls[c].(phase := Ready(tr[n].calls[c].phase.attempt))
    ensures tr[s].nextId <= w < tr[n].nextId && OthersCreated(tr, es, w, tr[n].calls[c].key, c)
  {
    var key := tr[n].calls[c].key;
    s := SnapshotWasTrue(tr, es, n, c);
    w :| w in tr[n].rows && tr[n].rows[w].key == key;
    var i := RowHasBirth(ReadCommitted, tr, es, s, n, w, key);
    IdsGrow(ReadCommitted, tr, es, s, i);
    AtMostOneHolder(ReadCommitted, tr, es, n);
    assert Next(ReadCommitted, tr[i], es[i], tr[i + 1]);
    assert tr[i + 1].calls[c] == tr[n].calls[c];
    assert es[i].call != c;
    assert OtherCreated(tr, es, i, w, key, c);
  }

  lemma {:induction false} CountBeats(tr: seq<State>, es: seq<Event>, n: nat, c: CallId) returns (ws: seq<RowId>)
    requires Behavior(ReadCommitted, tr, es) && n < |tr| && c in tr[n].calls
    requires tr[n].calls[c].phase.Ready? || tr[n].calls[c].phase.Exhausted?
    ensures BeatenBy(tr, es, n, c, ws, n)
    decreases n
  {
    assert Next(ReadCommitted, tr[n - 1], es[n - 1], tr[n]);
    if es[n - 1].Begin? && es[n - 1].call == c {
      ws := [];
    } else {
      assert c in tr[n - 1].calls;
      CallStep(ReadCommitted, tr[n - 1], es[n - 1], tr[n], c);
      IdsGrow(ReadCommitted, tr, es, n - 1, n);
      if es[n - 1] == Resolve(c) {
        var w, s := LostAttempt(tr, es, n - 1, c);
        var earlier := CountBeats(tr, es, s, c);
        ws := earlier + [w];
      } else {
        ws := CountBeats(tr, es, n - 1, c);
      }
    }
  }

  /**
   With a fresh snapshot for each statement the budget runs out only if five distinct rows
   holding the key were created by other calls while this one was in progress.
   */
  lemma ExhaustionMeansFiveRivals(tr: seq<State>, es: seq<Event>, n: nat, c: CallId) returns (ws: seq<RowId>)
    requires Behavior(ReadCommitted, tr, es) && n < |tr| && c in tr[n].calls && tr[n].calls[c].phase == Exhausted
    ensures |ws| == 5 && forall j, k :: 0 <= j < k < 5 ==> ws[j] != ws[k]
    ensures forall k :: 0 <= k < 5 ==> OthersCreated(tr, es, ws[k], tr[n].calls[c].key, c)
  {
    ws := CountBeats(tr, es, n, c);
  }

  // -------------------------------------------------------------- with a reused snapshot

  /** A call that reuses a snapshot showing nothing is lost for as long as anyone holds the key. */
  lemma {:induction false} ReusedSnapshotNeverSees(tr: seq<State>, es: seq<Event>, m: nat, n: nat, c: CallId)
    requires Behavior(RepeatableRead, tr, es) && m <= n < |tr| && c in tr[m].calls
    requires tr[m].calls[c].phase.Snapped? && tr[m].calls[c].phase.seen == Nothing
    requires forall k :: m <= k <= n ==> !Free(tr[k].rows, tr[m].calls[c].key)
    ensures c in tr[n].calls && tr[n].calls[c].key == tr[m].calls[c].key
    ensures tr[n].calls[c].phase == Exhausted ||
            (tr[n].calls[c].phase.Snapped? && tr[n].calls[c].phase.seen == Nothing)
  {
    if m < n {
      ReusedSnapshotNeverSees(tr, es, m, n - 1, c);
      assert Next(RepeatableRead, tr[n - 1], es[n - 1], tr[n]);
      CallStep(RepeatableRead, tr[n - 1], es[n - 1], tr[n], c);
    }
  }

  function Loser(a: nat): Call {
    Call("k", "job", if a < ATTEMPTS then Snapped(a, Nothing) else Exhausted)
  }

  /** The table of the witness run: call 0 has inserted row 0, call 1 has lost `a` attempts. */
  function AfterLosing(a: nat): State {
    State(map[0 := Row("k", "job", "queued")], 1, map[0 := Call("k", "job", Returned(0, true)), 1 := Loser(a)])
  }

  function WitnessStates(): seq<State> {
    var both := map[1 := Call("k", "job", Ready(0)), 0 := Call("k", "job", Ready(0))];
    [State(map[], 0, map[]),
     State(map[], 0, map[1 := Call("k", "job", Ready(0))]),
     State(map[], 0, both),
     State(map[], 0, both[1 := Loser(0)]),
     State(map[], 0, both[1 := Loser(0)][0 := Loser(0)]),
     AfterLosing(0), AfterLosing(1), AfterLosing(2), AfterLosing(3), AfterLosing(4), AfterLosing(5)]
  }

  function WitnessEvents(): seq<Event> {
    [Begin(1, "k", "job"), Begin(0, "k", "job"), Snapshot(1), Snapshot(0), Resolve(0),
     Resolve(1), Resolve(1), Resolve(1), Resolve(1), Resolve(1)]
  }

  lemma LosingStep(a: nat)
    requires a < ATTEMPTS
    ensures Next(RepeatableRead, AfterLosing(a), Resolve(1), AfterLosing(a + 1))
  {
    var s := AfterLosing(a);
    assert 0 in s.rows && s.rows[0].key == "k";
  }

  lemma OpeningStep(i: nat)
    requires i < 5
    ensures Next(RepeatableRead, WitnessStates()[i], WitnessEvents()[i], WitnessStates()[i + 1])
  {
    var tr := WitnessStates();
    if i == 2 || i == 3 {
      assert Shows(tr[i].rows, "k", Nothing);
    } else if i == 4 {
      assert Free(tr[4].rows, "k");
      assert tr[5].rows == tr[4].rows[0 := Row("k", "job", "queued")];
    }
  }

  /** One rival row, there from the first conflict on, is enough to exhaust a reused snapshot. */
  lemma OneRivalExhaustsReusedSnapshot()
    ensures Behavior(RepeatableRead, WitnessStates(), WitnessEvents())
    ensures WitnessStates()[10].calls[1].phase == Exhausted
    ensures forall k :: 5 <= k <= 10 ==> WitnessStates()[k].rows == AfterLosing(0).rows
  {
    var tr, es := WitnessStates(), WitnessEvents();
    forall i | 0 <= i < |es| ensures Next(RepeatableRead, tr[i], es[i], tr[i + 1]) {
      if i >= 5 {
        LosingStep(i - 5);
      } else {
        OpeningStep(i);
      }
    }
  }
}
