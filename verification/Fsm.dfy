/**
 Durable state machines: the declaration, its validator, and what an accepted declaration
 says about every run of the machine.
 */
module Fsm {
  import opened Digraph
  import opened Wrappers

  type StateName = string
  type EventName = string

  datatype Transition = Transition(target: StateName, action: Option<string>)

  /** An edge as it may be written: in full, as a pair, or as a bare target. */
  datatype EdgeSpec = Full(transition: Transition) | Pair(target: StateName, action: Option<string>) | Bare(name: StateName)

  type TransitionSpec = map<StateName, map<EventName, EdgeSpec>>
  type EdgeTable = map<StateName, map<EventName, Transition>>

  datatype Problem =
    | NoInitial
    | UnknownInitial(state: StateName)
    | UnknownFinal(state: StateName)
    | FinalWithEdges(state: StateName)
    | UnknownTarget(source: StateName, event: EventName)
    | UnknownAction(source: StateName, event: EventName)
    | NeverReached(state: StateName)

  datatype Machine = Machine(edges: EdgeTable, initial: StateName, final: set<StateName>)

  // --------------------------------------------------------------------------- normalize

  /** The target and action an edge spec stands for, whichever shape it is written in. */
  predicate MeansEdge(spec: EdgeSpec, edge: Transition) {
    match spec
    case Full(t) => edge == t
    case Pair(target, action) => edge.target == target && edge.action == action
    case Bare(name) => edge.target == name && edge.action == None
  }

  ghost predicate RowMeans(spec: map<EventName, EdgeSpec>, row: map<EventName, Transition>, done: set<EventName>) {
    row.Keys == done && done <= spec.Keys && forall e :: e in done ==> MeansEdge(spec[e], row[e])
  }

  ghost predicate TableMeans(spec: TransitionSpec, table: EdgeTable, done: set<StateName>) {
    table.Keys == done && done <= spec.Keys && forall s :: s in done ==> RowMeans(spec[s], table[s], spec[s].Keys)
  }

  method NormalizeRow(spec: map<EventName, EdgeSpec>) returns (row: map<EventName, Transition>)
    ensures RowMeans(spec, row, spec.Keys)
  {
    row := map[];
    var left := spec.Keys;
    while left != {}
      invariant left <= spec.Keys && RowMeans(spec, row, spec.Keys - left)
    {
      var event :| event in left;
      match spec[event] {
        case Full(transition) => row := row[event := transition];
        case Bare(name) => row := row[event := Transition(name, None)];
        case Pair(target, action) => row := row[event := Transition(target, action)];
      }
      left := left - {event};
    }
  }

  /** Every edge of the declaration, and nothing else, in the one resolved form. */
  method Normalize(spec: TransitionSpec) returns (table: EdgeTable)
    ensures TableMeans(spec, table, spec.Keys)
  {
    table := map[];
    var left := spec.Keys;
    while left != {}
      invariant left <= spec.Keys && TableMeans(spec, table, spec.Keys - left)
    {
      var source :| source in left;
      var row := NormalizeRow(spec[source]);
      table := table[source := row];
      left := left - {source};
    }
  }

  /** The meaning leaves no choice: two tables that resolve one declaration are the same table. */
  lemma NormalFormIsUnique(spec: TransitionSpec, one: EdgeTable, other: EdgeTable)
    requires TableMeans(spec, one, spec.Keys) && TableMeans(spec, other, spec.Keys)
    ensures one == other
  {
    forall s | s in spec ensures one[s] == other[s] {
      assert RowMeans(spec[s], one[s], spec[s].Keys) && RowMeans(spec[s], other[s], spec[s].Keys);
      forall e | e in spec[s] ensures one[s][e] == other[s][e] {
        assert MeansEdge(spec[s][e], one[s][e]) && MeansEdge(spec[s][e], other[s][e]);
      }
    }
  }

  // ---------------------------------------------------------------------- states and may

  function Targets(edges: EdgeTable): set<StateName> {
    set s, e | s in edges && e in edges[s] :: edges[s][e].target
  }

  function States(edges: EdgeTable): set<StateName> {
    edges.Keys + Targets(edges)
  }

  predicate May(edges: EdgeTable, state: StateName, event: EventName) {
    state in edges && event in edges[state]
  }

  // ---------------------------------------------------------------------------- validate

  /** The problem is there to be seen in the declaration. */
  predicate Genuine(m: Machine, actions: set<string>, problem: Problem) {
    match problem
    case NoInitial => m.initial == ""
    case UnknownInitial(s) => s == m.initial && s !in States(m.edges)
    case UnknownFinal(s) => s in m.final && s !in States(m.edges)
    case FinalWithEdges(s) => s in m.final && s in m.edges
    case UnknownTarget(s, e) => May(m.edges, s, e) && m.edges[s][e].target !in States(m.edges)
    case UnknownAction(s, e) => May(m.edges, s, e) && m.edges[s][e].action.Some? && m.edges[s][e].action.value !in actions
    case NeverReached(s) => s in States(m.edges) && s != m.initial && s !in Targets(m.edges)
  }

  /** An empty table is accepted whatever else is declared; any other has to be free of problems. */
  ghost predicate Accepted(m: Machine, actions: set<string>) {
    m.edges == map[] || forall p :: !Genuine(m, actions, p)
  }

  /** The pass over one state's edges. */
  method ValidateRow(m: Machine, actions: set<string>, known: set<StateName>, source: StateName) returns (r: Option<Problem>)
    requires source in m.edges && known == States(m.edges)
    ensures r.Some? ==> Genuine(m, actions, r.value)
    ensures r.None? ==> forall e :: !Genuine(m, actions, UnknownAction(source, e))
  {
    var events := m.edges[source].Keys;
    while events != {}
      invariant events <= m.edges[source].Keys
      invariant forall e :: e in m.edges[source] && e !in events ==> !Genuine(m, actions, UnknownAction(source, e))
    {
      var event :| event in events;
      var edge := m.edges[source][event];
      if edge.target !in known {
        return Some(UnknownTarget(source, event));
      }
      if edge.action.Some? && edge.action.value !in actions {
        return Some(UnknownAction(source, event));
      }
      events := events - {event};
    }
    r := None;
  }

  /** Accepts exactly the declarations without a problem, and names a genuine one otherwise. */
  method Validate(m: Machine, actions: set<string>) returns (r: Option<Problem>)
    ensures r.None? <==> Accepted(m, actions)
    ensures r.Some? ==> Genuine(m, actions, r.value)
  {
    if m.edges == map[] {
      return None;
    }
    if m.initial == "" {
      assert Genuine(m, actions, NoInitial);
      return Some(NoInitial);
    }
    var known := States(m.edges);
    if m.initial !in known {
      assert Genuine(m, actions, UnknownInitial(m.initial));
      return Some(UnknownInitial(m.initial));
    }
    if m.final - known != {} {
      var bad :| bad in m.final - known;
      assert Genuine(m, actions, UnknownFinal(bad));
      return Some(UnknownFinal(bad));
    }
    var sources := m.edges.Keys;
    while sources != {}
      invariant sources <= m.edges.Keys
      invariant forall s :: s in m.edges && s !in sources ==> s !in m.final
      invariant forall s, e :: s in m.edges && s !in sources ==> !Genuine(m, actions, UnknownAction(s, e))
    {
      var source :| source in sources;
      if source in m.final {
        assert Genuine(m, actions, FinalWithEdges(source));
        return Some(FinalWithEdges(source));
      }
      r := ValidateRow(m, actions, known, source);
      if r.Some? {
        return;
      }
      sources := sources - {source};
    }
    var unreachable := known - {m.initial} - Targets(m.edges);
    if unreachable != {} {
      var lost :| lost in unreachable;
      assert Genuine(m, actions, NeverReached(lost));
      return Some(NeverReached(lost));
    }
    NoUnknownTarget(m, actions);
    r := None;
  }

  /** The branch for a target that is no state never fires: a target is a state by being one. */
  lemma NoUnknownTarget(m: Machine, actions: set<string>)
    ensures forall s, e :: !Genuine(m, actions, UnknownTarget(s, e))
  {
  }

  // -------------------------------------------------------------------------------- runs

  datatype Run = Run(state: StateName, turns: nat, dropped: nat)

  /** One event taken out of the mailbox. A machine in a final state takes none. */
  function Turn(m: Machine, run: Run, event: EventName): Run {
    if run.state in m.final then run
    else if May(m.edges, run.state, event) then Run(m.edges[run.state][event].target, run.turns + 1, run.dropped)
    else run.(turns := run.turns + 1, dropped := run.dropped + 1)
  }

  function RunFrom(m: Machine, state: StateName, events: seq<EventName>): Run {
    if events == [] then Run(state, 0, 0) else Turn(m, RunFrom(m, state, events[..|events| - 1]), events[|events| - 1])
  }

  function GraphOf(edges: EdgeTable): Graph<StateName> {
    map s | s in edges :: set e | e in edges[s] :: edges[s][e].target
  }

  /** Accepted, and not by being empty. */
  ghost predicate Sound(m: Machine, actions: set<string>) {
    Accepted(m, actions) && m.edges != map[]
  }

  lemma SoundMeans(m: Machine, actions: set<string>)
    requires Sound(m, actions)
    ensures m.initial in States(m.edges) && m.final <= States(m.edges) && m.final !! m.edges.Keys
    ensures forall s :: s in States(m.edges) && s != m.initial ==> s in Targets(m.edges)
  {
    assert !Genuine(m, actions, UnknownInitial(m.initial));
    forall s | s in m.final ensures s in States(m.edges) && s !in m.edges {
      assert !Genuine(m, actions, UnknownFinal(s)) && !Genuine(m, actions, FinalWithEdges(s));
    }
    forall s | s in States(m.edges) && s != m.initial ensures s in Targets(m.edges) {
      assert !Genuine(m, actions, NeverReached(s));
    }
  }

  /** A run stays within the declared states, and leaves events unread only in a final one. */
  lemma {:induction false} RunsStayWithinStates(m: Machine, actions: set<string>, events: seq<EventName>)
    requires Sound(m, actions)
    ensures RunFrom(m, m.initial, events).state in States(m.edges)
    ensures RunFrom(m, m.initial, events).dropped <= RunFrom(m, m.initial, events).turns <= |events|
    ensures RunFrom(m, m.initial, events).turns < |events| ==> RunFrom(m, m.initial, events).state in m.final
  {
    SoundMeans(m, actions);
    if events != [] {
      RunsStayWithinStates(m, actions, events[..|events| - 1]);
    }
  }

  /** `may` is exact for an accepted machine: a final state accepts nothing, so the loop's own stop loses no move. */
  lemma MovesExactlyWhenMay(m: Machine, actions: set<string>, run: Run, event: EventName)
    requires Sound(m, actions)
    ensures Turn(m, run, event).dropped == run.dropped && Turn(m, run, event).turns > run.turns <==> May(m.edges, run.state, event)
    ensures run.state in m.final ==> Turn(m, run, event) == run && !May(m.edges, run.state, event)
  {
    SoundMeans(m, actions);
  }

  /** The states a machine can get to are the vertices its graph reaches. */
  lemma {:induction false} RunsReach(m: Machine, events: seq<EventName>)
    ensures Reaches(GraphOf(m.edges), m.initial, RunFrom(m, m.initial, events).state)
  {
    var g := GraphOf(m.edges);
    if events == [] {
      ReachesSelf(g, m.initial);
    } else {
      var before := events[..|events| - 1];
      RunsReach(m, before);
      var a, b := RunFrom(m, m.initial, before).state, RunFrom(m, m.initial, events).state;
      if a != b {
        var p: seq<StateName> :| WalkFromTo(g, p, m.initial, a);
        assert WalkFromTo(g, [a, b], a, b);
        JoinWalks(g, p, [a, b], m.initial, a, b);
      }
    }
  }

  lemma {:induction false} WalksAreRuns(m: Machine, actions: set<string>, p: seq<StateName>) returns (events: seq<EventName>)
    requires Sound(m, actions) && Walk(GraphOf(m.edges), p) && p[0] == m.initial
    ensures |events| == |p| - 1 && RunFrom(m, m.initial, events) == Run(p[|p| - 1], |p| - 1, 0)
  {
    if |p| == 1 {
      events := [];
    } else {
      var q := p[..|p| - 1];
      forall i | 0 <= i < |q| - 1 ensures Edge(GraphOf(m.edges), q[i], q[i + 1]) {
        assert Edge(GraphOf(m.edges), p[i], p[i + 1]);
      }
      var before := WalksAreRuns(m, actions, q);
      assert Edge(GraphOf(m.edges), p[|p| - 2], p[|p| - 1]);
      SoundMeans(m, actions);
      var event :| event in m.edges[p[|p| - 2]] && m.edges[p[|p| - 2]][event].target == p[|p| - 1];
      events := before + [event];
      assert events[..|events| - 1] == before;
    }
  }

  /** Some events bring the machine there. */
  ghost predicate CanGetTo(m: Machine, s: StateName) {
    exists events :: RunFrom(m, m.initial, events).state == s
  }

  lemma GettingThereIsReaching(m: Machine, actions: set<string>, s: StateName)
    requires Sound(m, actions)
    ensures CanGetTo(m, s) <==> Reaches(GraphOf(m.edges), m.initial, s)
  {
    if CanGetTo(m, s) {
      var events :| RunFrom(m, m.initial, events).state == s;
      RunsReach(m, events);
    }
    if Reaches(GraphOf(m.edges), m.initial, s) {
      var p: seq<StateName> :| WalkFromTo(GraphOf(m.edges), p, m.initial, s);
      var events := WalksAreRuns(m, actions, p);
      assert RunFrom(m, m.initial, events).state == s;
    }
  }

  // ------------------------------------------------------------------------ reachability

  function Reversed(edges: EdgeTable): Graph<StateName> {
    map s | s in States(edges) :: set t | t in edges && s in GraphOf(edges)[t]
  }

  lemma ReverseCycle(edges: EdgeTable, c: seq<StateName>) returns (d: seq<StateName>)
    requires Cycle(Reversed(edges), c)
    ensures Cycle(GraphOf(edges), d) && |d| == |c| && forall i :: 0 <= i < |d| ==> d[i] == c[|c| - 1 - i]
  {
    d := seq(|c|, i requires 0 <= i < |c| => c[|c| - 1 - i]);
    forall i | 0 <= i < |d| - 1 ensures Edge(GraphOf(edges), d[i], d[i + 1]) {
      assert Edge(Reversed(edges), c[|c| - 2 - i], c[|c| - 2 - i + 1]);
    }
  }

  ghost function Unreached(m: Machine): set<StateName> {
    set s | s in States(m.edges) && !Reaches(GraphOf(m.edges), m.initial, s)
  }

  lemma PredecessorUnreached(m: Machine, actions: set<string>, s: StateName) returns (t: StateName)
    requires Sound(m, actions) && s in Unreached(m)
    ensures t in Unreached(m) && Edge(GraphOf(m.edges), t, s)
  {
    SoundMeans(m, actions);
    var g := GraphOf(m.edges);
    ReachesSelf(g, m.initial);
    var source, event :| source in m.edges && event in m.edges[source] && m.edges[source][event].target == s;
    t := source;
    if Reaches(g, m.initial, t) {
      var p: seq<StateName> :| WalkFromTo(g, p, m.initial, t);
      assert WalkFromTo(g, [t, s], t, s);
      JoinWalks(g, p, [t, s], m.initial, t, s);
    }
  }

  /** If an accepted machine has states that no run gets to, some of them form a cycle. */
  lemma UnreachedHaveACycle(m: Machine, actions: set<string>) returns (c: seq<StateName>)
    requires Sound(m, actions) && Unreached(m) != {}
    ensures Cycle(GraphOf(m.edges), c) && forall i :: 0 <= i < |c| ==> c[i] in Unreached(m)
  {
    var lost := Unreached(m);
    forall s | s in lost ensures s in Reversed(m.edges) && Reversed(m.edges)[s] * lost != {} {
      var t := PredecessorUnreached(m, actions, s);
      assert t in Reversed(m.edges)[s] * lost;
    }
    assert Trapped(Reversed(m.edges), lost);
    var r := TrappedHasCycle(Reversed(m.edges), lost);
    c := ReverseCycle(m.edges, r);
  }

  /** Every cycle of the declaration can be entered from the initial state. */
  ghost predicate CyclesAreReached(m: Machine) {
    forall c: seq<StateName> :: Cycle(GraphOf(m.edges), c) ==> Reaches(GraphOf(m.edges), m.initial, c[0])
  }

  ghost predicate AllReachable(m: Machine) {
    forall s :: s in States(m.edges) ==> CanGetTo(m, s)
  }

  /** The exact condition: an accepted machine can get to every declared state if and only if it can get to its cycles. */
  lemma ReachableIff(m: Machine, actions: set<string>)
    requires Sound(m, actions)
    ensures AllReachable(m) <==> CyclesAreReached(m)
  {
    if AllReachable(m) {
      forall c: seq<StateName> | Cycle(GraphOf(m.edges), c) ensures Reaches(GraphOf(m.edges), m.initial, c[0]) {
        assert Edge(GraphOf(m.edges), c[0], c[1]);
        GettingThereIsReaching(m, actions, c[0]);
      }
    }
    if CyclesAreReached(m) {
      if Unreached(m) != {} {
        var c := UnreachedHaveACycle(m, actions);
      }
      forall s | s in States(m.edges) ensures CanGetTo(m, s) {
        assert s !in Unreached(m);
        GettingThereIsReaching(m, actions, s);
      }
    }
  }

  /** In particular, in an accepted table without cycles every state can be got to. */
  lemma AcyclicMeansReachable(m: Machine, actions: set<string>)
    requires Sound(m, actions) && Acyclic(GraphOf(m.edges))
    ensures AllReachable(m)
  {
    ReachableIff(m, actions);
  }

  function Island(): Machine {
    Machine(map["a" := map["go" := Transition("b", None)],
                "x" := map["go" := Transition("y", None)],
                "y" := map["go" := Transition("x", None)]], "a", {"b"})
  }

  lemma {:induction false} IslandRuns(events: seq<EventName>)
    ensures RunFrom(Island(), "a", events).state == "a" || RunFrom(Island(), "a", events).state == "b"
  {
    if events != [] {
      IslandRuns(events[..|events| - 1]);
    }
  }

  /** Two states that only reach each other pass every check, and no run gets to them. */
  lemma IslandIsAccepted()
    ensures Sound(Island(), {}) && "x" in States(Island().edges) && !CanGetTo(Island(), "x")
  {
    var m := Island();
    assert "a" in m.edges && "x" in m.edges && "y" in m.edges;
    assert m.edges["a"]["go"].target in Targets(m.edges) && m.edges["x"]["go"].target in Targets(m.edges)
        && m.edges["y"]["go"].target in Targets(m.edges);
    forall events ensures RunFrom(m, m.initial, events).state != "x" {
      IslandRuns(events);
    }
  }
}
