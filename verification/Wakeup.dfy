/**
 The wait loop of one job: clients that register demand, check, park on a flag, wake and
 clear it, against writers whose commits notify only if the gate saw demand. NOTIFY
 delivery is asynchronous and in order on each client's LISTEN connection.

 A writer's change is two events. `Gate` is where the trigger reads `awaited`, with the
 job's row already locked by the write (the terminal UPDATE, or the FOR SHARE fence of an
 event or a stream row). `Commit` makes the change visible and sends. Registering updates
 that same row, so it waits out every writer between the two.
 */
module Wakeup {

  type ClientId = nat
  type WaiterId = nat
  type WriterId = nat

  datatype Phase =
    | Registering           // listening, demand not yet written
    | Registered            // demand committed, flag not yet on the dispatch list
    | Checking              // on the list, about to look at the job
    | Checked(version: nat) // looked, not there yet, about to wait
    | Parked(version: nat)  // asleep on the flag
    | Woken                 // awake, flag not yet cleared
    | Gone                  // answered, timed out or cancelled; off the list

  datatype Waiter = Waiter(client: ClientId, phase: Phase, flag: bool)

  /**
   `version` counts the job's committed changes; `pending` holds each open writer's gate
   decision; `removed` says that the job's row has been deleted, which notifies nobody.
   */
  datatype State = State(version: nat, awaited: bool, removed: bool, pending: map<WriterId, bool>,
                         inboxes: map<ClientId, seq<nat>>, waiters: map<WaiterId, Waiter>)

  datatype Event =
    | Listen(client: ClientId)
    | Enter(waiter: WaiterId, client: ClientId)
    | Register(waiter: WaiterId)
    | Enlist(waiter: WaiterId)
    | Check(waiter: WaiterId)
    | Park(waiter: WaiterId)
    | Wake(waiter: WaiterId)
    | Clear(waiter: WaiterId)
    | Leave(waiter: WaiterId)
    | Gate(writer: WriterId)
    | Commit(writer: WriterId)
    | Abort(writer: WriterId)
    | Deliver(client: ClientId)
    | Remove

  /** Whether a registration waits for the writers that hold the job's row. */
  datatype Locking = RowLocked | Unlocked

  predicate Enlisted(w: Waiter) {
    w.phase.Checking? || w.phase.Checked? || w.phase.Parked? || w.phase.Woken?
  }

  /** NOTIFY at commit: one message onto every listening connection. */
  function Broadcast(inboxes: map<ClientId, seq<nat>>, version: nat): map<ClientId, seq<nat>> {
    map c | c in inboxes :: inboxes[c] + [version]
  }

  /** The listener callback: set the flag of every waiter of this client that is on the list. */
  function Dispatch(waiters: map<WaiterId, Waiter>, client: ClientId): map<WaiterId, Waiter> {
    map w | w in waiters :: if waiters[w].client == client && Enlisted(waiters[w]) then waiters[w].(flag := true) else waiters[w]
  }

  function Move(s: State, w: WaiterId, phase: Phase): State
    requires w in s.waiters
  {
    s.(waiters := s.waiters[w := s.waiters[w].(phase := phase)])
  }

  predicate InPhase(s: State, w: WaiterId, phase: Phase) {
    w in s.waiters && s.waiters[w].phase == phase
  }

  predicate Next(locking: Locking, s: State, e: Event, s': State) {
    match e
    case Listen(c) =>
      c !in s.inboxes && s' == s.(inboxes := s.inboxes[c := []])
    case Enter(w, c) =>
      w !in s.waiters && c in s.inboxes && s' == s.(waiters := s.waiters[w := Waiter(c, Registering, false)])
    case Register(w) =>
      && InPhase(s, w, Registering)
      && (locking == RowLocked && !s.awaited ==> s.pending == map[])
      && s' == Move(s, w, Registered).(awaited := s.awaited || !s.removed)
    case Enlist(w) =>
      InPhase(s, w, Registered) && s' == Move(s, w, Checking)
    case Check(w) =>
      // a job that is not there ends the wait with an error
      InPhase(s, w, Checking) && s' == Move(s, w, if s.removed then Gone else Checked(s.version))
    case Park(w) =>
      && w in s.waiters && s.waiters[w].phase.Checked?
      && s' == Move(s, w, Parked(s.waiters[w].phase.version))
    case Wake(w) =>
      // the flag is set, or the fallback poll or the deadline came first
      && w in s.waiters && s.waiters[w].phase.Parked?
      && s' == Move(s, w, Woken)
    case Clear(w) =>
      && InPhase(s, w, Woken)
      && s' == s.(waiters := s.waiters[w := s.waiters[w].(phase := Checking, flag := false)])
    case Leave(w) =>
      w in s.waiters && s' == Move(s, w, Gone)
    case Gate(p) =>
      p !in s.pending && !s.removed && s' == s.(pending := s.pending[p := s.awaited])
    case Commit(p) =>
      && p in s.pending
      && s' == s.(version := s.version + 1, pending := s.pending - {p},
                  inboxes := if s.pending[p] then Broadcast(s.inboxes, s.version + 1) else s.inboxes)
    case Abort(p) =>
      p in s.pending && s' == s.(pending := s.pending - {p})
    case Deliver(c) =>
      && c in s.inboxes && s.inboxes[c] != []
      && s' == s.(inboxes := s.inboxes[c := s.inboxes[c][1..]], waiters := Dispatch(s.waiters, c))
    case Remove =>
      // a delete takes the row exclusively, so it waits out every open writer
      !s.removed && s.pending == map[] && s' == s.(removed := true)
  }

  predicate Init(s: State) {
    && !s.removed && s.inboxes == map[] && s.waiters == map[]
    && (s.awaited ==> forall p :: p in s.pending ==> s.pending[p])
  }

  ghost predicate Behavior(locking: Locking, tr: seq<State>, es: seq<Event>) {
    && |tr| == |es| + 1
    && Init(tr[0])
    && forall i :: 0 <= i < |es| ==> Next(locking, tr[i], es[i], tr[i + 1])
  }

  // ------------------------------------------------------------------------ the invariant

  /** Its demand is on record, from the moment it is registered. */
  predicate Counted(s: State, w: Waiter) {
    w.client in s.inboxes && (w.phase.Registering? || w.phase.Gone? || s.awaited || s.removed)
  }

  predicate HasLooked(w: Waiter) {
    w.phase.Checked? || w.phase.Parked?
  }

  /** If it has looked, and not at the newest version, it has been told or the news is on its way. */
  predicate WillHear(s: State, w: Waiter) {
    HasLooked(w) && w.client in s.inboxes ==>
      && w.phase.version <= s.version
      && (w.phase.version < s.version && !w.flag ==>
            s.inboxes[w.client] != [] && s.inboxes[w.client][|s.inboxes[w.client]| - 1] == s.version)
  }

  /** No open writer's gate missed demand that is now on record. */
  predicate GatesSaw(s: State) {
    && (s.awaited ==> forall p :: p in s.pending ==> s.pending[p])
    && (s.removed ==> s.pending == map[])
  }

  predicate Sound(s: State) {
    && GatesSaw(s)
    && (forall w :: w in s.waiters ==> Counted(s, s.waiters[w]))
    && (forall w :: w in s.waiters ==> WillHear(s, s.waiters[w]))
  }

  lemma StepKeepsDemand(s: State, e: Event, s': State)
    requires Sound(s) && Next(RowLocked, s, e, s')
    ensures GatesSaw(s') && (s.awaited ==> s'.awaited)
    ensures forall w :: w in s'.waiters ==> Counted(s', s'.waiters[w])
  {
    forall w: WaiterId | w in s'.waiters ensures Counted(s', s'.waiters[w]) {
      if w in s.waiters {
        assert Counted(s, s.waiters[w]);
      }
    }
  }

  lemma StepKeepsHearing(s: State, e: Event, s': State, w: WaiterId)
    requires Sound(s) && Next(RowLocked, s, e, s') && w in s'.waiters
    ensures WillHear(s', s'.waiters[w])
  {
    if w in s.waiters {
      assert Counted(s, s.waiters[w]) && WillHear(s, s.waiters[w]);
    }
  }

  lemma {:induction false} AlwaysSound(tr: seq<State>, es: seq<Event>, n: nat)
    requires Behavior(RowLocked, tr, es) && n < |tr|
    ensures Sound(tr[n])
  {
    if n > 0 {
      AlwaysSound(tr, es, n - 1);
      StepKeepsDemand(tr[n - 1], es[n - 1], tr[n]);
      forall w: WaiterId | w in tr[n].waiters ensures WillHear(tr[n], tr[n].waiters[w]) {
        StepKeepsHearing(tr[n - 1], es[n - 1], tr[n], w);
      }
    }
  }

  /** Parked with nothing to wake it: flag clear, and no message on the way to its client. */
  predicate Asleep(s: State, w: WaiterId) {
    && w in s.waiters && s.waiters[w].phase.Parked? && !s.waiters[w].flag
    && s.waiters[w].client in s.inboxes && s.inboxes[s.waiters[w].client] == []
  }

  /** The waiter has looked at the job as it is now. */
  predicate UpToDate(s: State, w: WaiterId) {
    w in s.waiters && s.waiters[w].phase.Parked? && s.waiters[w].phase.version == s.version && !s.removed
  }

  /**
   No lost wakeup: a waiter parked with its flag clear and nothing in flight to its client
   has already checked a snapshot that contains every change to the job, if and only if the
   job is still there. Its removal is the one change that sends nothing.
   */
  lemma NoLostWakeup(tr: seq<State>, es: seq<Event>, n: nat, w: WaiterId)
    requires Behavior(RowLocked, tr, es) && n < |tr| && Asleep(tr[n], w)
    ensures tr[n].waiters[w].phase.version == tr[n].version
    ensures UpToDate(tr[n], w) <==> !tr[n].removed
  {
    AlwaysSound(tr, es, n);
    assert WillHear(tr[n], tr[n].waiters[w]);
  }

  /** And that one it can sleep through: remove the job under any sleeping waiter, and it sleeps on. */
  lemma RemovalWakesNobody(tr: seq<State>, es: seq<Event>, w: WaiterId) returns (s': State)
    requires Behavior(RowLocked, tr, es) && Asleep(tr[|es|], w) && !tr[|es|].removed && tr[|es|].pending == map[]
    ensures Behavior(RowLocked, tr + [s'], es + [Remove]) && Asleep(s', w) && !UpToDate(s', w)
  {
    s' := tr[|es|].(removed := true);
    var more, events := tr + [s'], es + [Remove];
    forall i | 0 <= i < |events| ensures Next(RowLocked, more[i], events[i], more[i + 1]) {
      if i < |es| {
        assert more[i] == tr[i] && more[i + 1] == tr[i + 1] && events[i] == es[i];
      }
    }
  }

  /** And one that has missed a change is woken by the next delivery, which is there to be made. */
  lemma StaleWaiterIsWoken(tr: seq<State>, es: seq<Event>, n: nat, w: WaiterId) returns (s': State)
    requires Behavior(RowLocked, tr, es) && n < |tr| && w in tr[n].waiters && tr[n].waiters[w].phase.Parked?
    requires tr[n].waiters[w].phase.version < tr[n].version && !tr[n].waiters[w].flag
    ensures Next(RowLocked, tr[n], Deliver(tr[n].waiters[w].client), s')
    ensures w in s'.waiters && s'.waiters[w].flag && s'.waiters[w].phase == tr[n].waiters[w].phase
  {
    AlwaysSound(tr, es, n);
    var s, c := tr[n], tr[n].waiters[w].client;
    assert Counted(s, s.waiters[w]) && WillHear(s, s.waiters[w]);
    s' := s.(inboxes := s.inboxes[c := s.inboxes[c][1..]], waiters := Dispatch(s.waiters, c));
  }

  // ---------------------------------------------------------------- what sends a message

  /** Nobody has asked: no open writer's gate saw demand, and no client has been sent anything. */
  predicate Silent(s: State) {
    && (forall p :: p in s.pending ==> !s.pending[p])
    && (forall c :: c in s.inboxes ==> s.inboxes[c] == [])
  }

  /** Without demand a change sends nothing: until the first registration the job's channel is silent. */
  lemma {:induction false} SilentUntilAwaited(tr: seq<State>, es: seq<Event>, n: nat)
    requires Behavior(RowLocked, tr, es) && n < |tr| && !tr[n].awaited && forall p :: p in tr[0].pending ==> !tr[0].pending[p]
    ensures Silent(tr[n])
    ensures forall k :: 0 <= k < n && es[k].Register? ==> tr[k].removed
  {
    if n > 0 {
      assert Next(RowLocked, tr[n - 1], es[n - 1], tr[n]);
      SilentUntilAwaited(tr, es, n - 1);
    }
  }

  /** A commit whose gate saw demand, made while the client is listening. */
  predicate Notifies(s: State, e: Event, c: ClientId) {
    e.Commit? && c in s.inboxes && e.writer in s.pending && s.pending[e.writer]
  }

  function Notified(tr: seq<State>, es: seq<Event>, n: nat, c: ClientId): nat
    requires n <= |es| < |tr|
  {
    if n == 0 then 0 else Notified(tr, es, n - 1, c) + if Notifies(tr[n - 1], es[n - 1], c) then 1 else 0
  }

  function Delivered(es: seq<Event>, n: nat, c: ClientId): nat
    requires n <= |es|
  {
    if n == 0 then 0 else Delivered(es, n - 1, c) + if es[n - 1] == Deliver(c) then 1 else 0
  }

  /** Every such commit is one message to every listening client, delivered once or still on its way. */
  lemma {:induction false} MessagesAreConserved(tr: seq<State>, es: seq<Event>, n: nat, c: ClientId)
    requires Behavior(RowLocked, tr, es) && n <= |es|
    ensures c in tr[n].inboxes ==> Delivered(es, n, c) + |tr[n].inboxes[c]| == Notified(tr, es, n, c)
    ensures c !in tr[n].inboxes ==> Delivered(es, n, c) == 0 && Notified(tr, es, n, c) == 0
  {
    if n > 0 {
      assert Next(RowLocked, tr[n - 1], es[n - 1], tr[n]);
      MessagesAreConserved(tr, es, n - 1, c);
    }
  }

  /** A delivery that finds the waiter on the dispatch list. */
  predicate Rings(s: State, e: Event, w: WaiterId) {
    e.Deliver? && w in s.waiters && s.waiters[w].client == e.client && Enlisted(s.waiters[w])
  }

  /** A delivery has found it on the list, and it has not cleared its flag since. */
  ghost predicate RungSince(tr: seq<State>, es: seq<Event>, n: nat, w: WaiterId)
    requires n <= |es| < |tr|
  {
    exists i :: 0 <= i < n && Rings(tr[i], es[i], w) && forall k :: i < k < n ==> es[k] != Clear(w)
  }

  lemma RungStep(tr: seq<State>, es: seq<Event>, n: nat, w: WaiterId)
    requires n < |es| < |tr|
    ensures RungSince(tr, es, n + 1, w) <==> Rings(tr[n], es[n], w) || (RungSince(tr, es, n, w) && es[n] != Clear(w))
  {
  }

  lemma FlagStep(s: State, e: Event, s': State, w: WaiterId)
    requires Next(RowLocked, s, e, s') && w in s'.waiters
    ensures w !in s.waiters ==> !s'.waiters[w].flag
    ensures w in s.waiters ==> (s'.waiters[w].flag <==> Rings(s, e, w) || (s.waiters[w].flag && e != Clear(w)))
  {
  }

  /**
   A flag is set exactly when a delivery has found the waiter on the list since it last
   cleared the flag: it is not set early, not lost to the moves in between, and not left set.
   */
  lemma {:induction false} FlagMeansNews(tr: seq<State>, es: seq<Event>, n: nat, w: WaiterId)
    requires Behavior(RowLocked, tr, es) && n < |tr| && w in tr[n].waiters
    ensures tr[n].waiters[w].flag <==> RungSince(tr, es, n, w)
  {
    if n > 0 {
      FlagStep(tr[n - 1], es[n - 1], tr[n], w);
      RungStep(tr, es, n - 1, w);
      if w in tr[n - 1].waiters {
        FlagMeansNews(tr, es, n - 1, w);
      } else {
        NotThereBefore(tr, es, n - 1, w);
      }
    }
  }

  lemma {:induction false} NotThereBefore(tr: seq<State>, es: seq<Event>, n: nat, w: WaiterId)
    requires Behavior(RowLocked, tr, es) && n < |tr| && w !in tr[n].waiters
    ensures forall i :: 0 <= i <= n ==> w !in tr[i].waiters
  {
    if n > 0 {
      assert Next(RowLocked, tr[n - 1], es[n - 1], tr[n]);
      NotThereBefore(tr, es, n - 1, w);
    }
  }

  // ------------------------------------------------------------ why the row lock matters

  function Quiet(waiters: map<WaiterId, Waiter>, awaited: bool, pending: map<WriterId, bool>, version: nat): State {
    State(version, awaited, false, pending, map[0 := []], waiters)
  }

  function Only(phase: Phase): map<WaiterId, Waiter> {
    map[0 := Waiter(0, phase, false)]
  }

  function WitnessStates(): seq<State> {
    var before: map<WriterId, bool> := map[0 := false];
    [State(0, false, false, map[], map[], map[]), Quiet(map[], false, map[], 0),
     Quiet(Only(Registering), false, map[], 0), Quiet(Only(Registering), false, before, 0),
     Quiet(Only(Registered), true, before, 0), Quiet(Only(Checking), true, before, 0),
     Quiet(Only(Checked(0)), true, before, 0), Quiet(Only(Parked(0)), true, before, 0),
     Quiet(Only(Parked(0)), true, before - {0}, 1)]
  }

  function WitnessEvents(): seq<Event> {
    [Listen(0), Enter(0, 0), Gate(0), Register(0), Enlist(0), Check(0), Park(0), Commit(0)]
  }

  lemma OneMoves(phase: Phase, phase': Phase)
    ensures Only(phase)[0 := Only(phase)[0].(phase := phase')] == Only(phase')
  {
  }

  /**
   Let a registration slip between a writer's gate and its commit, as it could without the
   row lock, and the wakeup is lost: asleep, and the job has changed since the check.
   */
  lemma WithoutTheLockAWakeupIsLost()
    ensures Behavior(Unlocked, WitnessStates(), WitnessEvents())
    ensures Asleep(WitnessStates()[8], 0)
    ensures WitnessStates()[8].waiters[0].phase.version < WitnessStates()[8].version
  {
    var tr, es := WitnessStates(), WitnessEvents();
    forall i | 0 <= i < |es| ensures Next(Unlocked, tr[i], es[i], tr[i + 1]) {
      OneMoves(Registering, Registered);
      OneMoves(Registered, Checking);
      OneMoves(Checking, Checked(0));
      OneMoves(Checked(0), Parked(0));
    }
  }
}
