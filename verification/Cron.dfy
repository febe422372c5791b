/**
 Cron catch-up. croniter is an endless, strictly ascending series of ticks; the fire
 series walks it, skipping the second pass through a repeated hour for schedules anchored
 to the wall clock; missed runs are counted and bounded in one pass over that series.
 */
module Cron {
  import opened Wrappers

  /** An instant, and how the schedule's zone writes it: PEP 495's wall-clock time and fold. */
  datatype Tick = Tick(at: int, wall: int, fold: bool)

  /** An expression's fields, and the ticks croniter finds for it in the schedule's zone. */
  datatype Schedule = Schedule(fields: seq<string>, ticks: nat -> Tick)

  datatype MissedRuns = MissedRuns(kept: seq<Tick>, dropped: nat, window: Option<(Tick, Tick)>)

  ghost predicate Ascending(ticks: nat -> Tick) {
    forall i: nat, j: nat :: i < j ==> ticks(i).at < ticks(j).at
  }

  /** Named hours, not a wildcard or a step: the hour is the second field of any layout. */
  predicate IsWallClockAnchored(fields: seq<string>) {
    |fields| >= 5 && '*' !in fields[1]
  }

  predicate Yields(s: Schedule, i: nat) {
    !(s.ticks(i).fold && IsWallClockAnchored(s.fields))
  }

  ghost predicate YieldsAgain(s: Schedule, i: nat) {
    exists j: nat :: i <= j && Yields(s, j)
  }

  /** Cron expressions do not end, and no zone repeats its hours for ever. */
  ghost predicate Endless(s: Schedule) {
    Ascending(s.ticks) && forall i: nat :: YieldsAgain(s, i)
  }

  lemma TicksAscend(ticks: nat -> Tick, i: nat, j: nat)
    requires Ascending(ticks)
    ensures i <= j <==> ticks(i).at <= ticks(j).at
  {
  }

  /** The first tick from index i on that is strictly after t. */
  function FirstFrom(ticks: nat -> Tick, i: nat, t: int): (first: nat)
    requires Ascending(ticks)
    ensures i <= first && ticks(first).at > t && forall k: nat :: i <= k < first ==> ticks(k).at <= t
    decreases t - ticks(i).at
  {
    if ticks(i).at > t then i else FirstFrom(ticks, i + 1, t)
  }

  function FirstAfter(ticks: nat -> Tick, t: int): nat
    requires Ascending(ticks)
  {
    FirstFrom(ticks, 0, t)
  }

  /** The fires among ticks lo..hi, in order. */
  function FiresIn(s: Schedule, lo: nat, hi: nat): seq<Tick> {
    if lo >= hi then []
    else if Yields(s, hi - 1) then FiresIn(s, lo, hi - 1) + [s.ticks(hi - 1)]
    else FiresIn(s, lo, hi - 1)
  }

  /** The fires in (after, until]. */
  function FiresBetween(s: Schedule, after: int, until: int): seq<Tick>
    requires Ascending(s.ticks)
  {
    FiresIn(s, FirstAfter(s.ticks, after), FirstAfter(s.ticks, until))
  }

  /** _fire_series: the fires of a schedule, one by one, from wherever croniter stands. */
  class FireSeries {
    const schedule: Schedule
    var next: nat

    constructor (schedule: Schedule, after: int)
      requires Endless(schedule)
      ensures this.schedule == schedule && next == FirstAfter(schedule.ticks, after)
    {
      this.schedule := schedule;
      next := FirstAfter(schedule.ticks, after);
    }

    method Next() returns (fire: Tick)
      requires Endless(schedule)
      modifies this
      ensures old(next) < next && Yields(schedule, next - 1) && fire == schedule.ticks(next - 1)
      ensures FiresIn(schedule, old(next), next) == [fire]
    {
      assert YieldsAgain(schedule, next);
      ghost var bound: nat :| next <= bound && Yields(schedule, bound);
      ghost var from := next;
      while true
        invariant from <= next <= bound && FiresIn(schedule, from, next) == []
        decreases bound - next
      {
        fire := schedule.ticks(next);
        next := next + 1;
        if fire.fold && IsWallClockAnchored(schedule.fields) {
          continue;
        }
        return fire;
      }
    }
  }

  // -------------------------------------------------------------- what the series means

  /** A tick is among the fires of (after, until] exactly when it is in the interval and yielded. */
  lemma {:induction false} FiresAreTheTicks(s: Schedule, lo: nat, hi: nat, i: nat)
    requires Ascending(s.ticks)
    ensures s.ticks(i) in FiresIn(s, lo, hi) <==> lo <= i < hi && Yields(s, i)
  {
    if lo < hi {
      FiresAreTheTicks(s, lo, hi - 1, i);
      assert i != hi - 1 ==> s.ticks(i).at != s.ticks(hi - 1).at;
    }
  }

  lemma FiresAreThoseInTheInterval(s: Schedule, after: int, until: int, i: nat)
    requires Ascending(s.ticks)
    ensures s.ticks(i) in FiresBetween(s, after, until) <==> after < s.ticks(i).at <= until && Yields(s, i)
  {
    var lo, hi := FirstAfter(s.ticks, after), FirstAfter(s.ticks, until);
    FiresAreTheTicks(s, lo, hi, i);
    TicksAscend(s.ticks, lo, i);
    TicksAscend(s.ticks, hi, i);
  }

  lemma {:induction false} FiresAscend(s: Schedule, lo: nat, hi: nat)
    requires Ascending(s.ticks)
    ensures forall k :: 0 <= k < |FiresIn(s, lo, hi)| ==> FiresIn(s, lo, hi)[k].at < s.ticks(hi).at
    ensures forall j, k :: 0 <= j < k < |FiresIn(s, lo, hi)| ==> FiresIn(s, lo, hi)[j].at < FiresIn(s, lo, hi)[k].at
  {
    if lo < hi {
      FiresAscend(s, lo, hi - 1);
    }
  }

  lemma {:induction false} FiresSplit(s: Schedule, lo: nat, mid: nat, hi: nat)
    requires lo <= mid <= hi
    ensures FiresIn(s, lo, hi) == FiresIn(s, lo, mid) + FiresIn(s, mid, hi)
  {
    if mid < hi {
      FiresSplit(s, lo, mid, hi - 1);
    }
  }

  lemma FirstAfterGrows(ticks: nat -> Tick, a: int, b: int)
    requires Ascending(ticks) && a <= b
    ensures FirstAfter(ticks, a) <= FirstAfter(ticks, b)
  {
  }

  /** The intervals (a, b] and (b, c] make up (a, c]: nothing fires twice or falls between. */
  lemma FiresBetweenSplit(s: Schedule, a: int, b: int, c: int)
    requires Ascending(s.ticks) && a <= b <= c
    ensures FiresBetween(s, a, c) == FiresBetween(s, a, b) + FiresBetween(s, b, c)
  {
    FirstAfterGrows(s.ticks, a, b);
    FirstAfterGrows(s.ticks, b, c);
    FiresSplit(s, FirstAfter(s.ticks, a), FirstAfter(s.ticks, b), FirstAfter(s.ticks, c));
  }

  /** A wall-clock time and its fold name one instant (PEP 495). */
  ghost predicate WallTimesNameInstants(ticks: nat -> Tick) {
    forall i: nat, j: nat :: ticks(i).wall == ticks(j).wall && ticks(i).fold == ticks(j).fold ==> i == j
  }

  /**
   What a repeated hour does to an expression, by its hour field: with fewer than five
   fields, or a `*` anywhere in the second one, it fires at every tick; naming its hours, at
   every tick but those of the second pass.
   */
  lemma HourFieldDecides(s: Schedule, after: int, until: int, i: nat)
    requires Ascending(s.ticks)
    ensures Yields(s, i) <==> !s.ticks(i).fold || |s.fields| < 5 || exists k :: 0 <= k < |s.fields[1]| && s.fields[1][k] == '*'
    ensures s.ticks(i) in FiresBetween(s, after, until) <==>
      && after < s.ticks(i).at <= until
      && (!s.ticks(i).fold || |s.fields| < 5 || exists k :: 0 <= k < |s.fields[1]| && s.fields[1][k] == '*')
  {
    FiresAreThoseInTheInterval(s, after, until, i);
  }

  /** And by nothing else in it. */
  lemma {:induction false} OtherFieldsDoNotMatter(s: Schedule, s': Schedule, lo: nat, hi: nat)
    requires |s.fields| >= 5 && |s'.fields| >= 5 && s.fields[1] == s'.fields[1] && s.ticks == s'.ticks
    ensures FiresIn(s, lo, hi) == FiresIn(s', lo, hi)
  {
    if lo < hi {
      OtherFieldsDoNotMatter(s, s', lo, hi - 1);
    }
  }

  lemma SameHoursSameFires(s: Schedule, s': Schedule, after: int, until: int)
    requires |s.fields| >= 5 && |s'.fields| >= 5 && s.fields[1] == s'.fields[1] && s.ticks == s'.ticks
    requires Ascending(s.ticks)
    ensures FiresBetween(s, after, until) == FiresBetween(s', after, until)
  {
    OtherFieldsDoNotMatter(s, s', FirstAfter(s.ticks, after), FirstAfter(s.ticks, until));
  }

  /**
   So an expression that names its hours fires exactly once at a wall-clock time that comes
   twice, in the first pass, and one that does not fires in both.
   */
  lemma FallBackRule(s: Schedule, after: int, until: int, i: nat, j: nat)
    requires Ascending(s.ticks) && WallTimesNameInstants(s.ticks)
    requires after < s.ticks(i).at <= until && after < s.ticks(j).at <= until
    requires s.ticks(i).wall == s.ticks(j).wall && !s.ticks(i).fold && s.ticks(j).fold
    ensures s.ticks(i) in FiresBetween(s, after, until)
    ensures s.ticks(j) in FiresBetween(s, after, until) <==> |s.fields| < 5 || '*' in s.fields[1]
    ensures forall k: nat :: s.ticks(k) in FiresBetween(s, after, until) && s.ticks(k).wall == s.ticks(i).wall ==> k == i || k == j
  {
    forall k: nat ensures s.ticks(k) in FiresBetween(s, after, until) && s.ticks(k).wall == s.ticks(i).wall ==> k == i || k == j {
      assert s.ticks(k).fold == s.ticks(i).fold || s.ticks(k).fold == s.ticks(j).fold;
    }
    HourFieldDecides(s, after, until, i);
    HourFieldDecides(s, after, until, j);
  }

  // -------------------------------------------------------------------------- the window

  /** How many of n fires a window of size keep holds. */
  function Room(n: nat, keep: int): (k: nat)
    ensures k <= n
  {
    if keep <= 0 then 0 else if n <= keep then n else keep
  }

  /**
   The simple specification: `kept` is the last Room of the fires, in their order, `dropped`
   counts the others, and the window holds the first and the last of those.
   */
  ghost predicate Reports(m: MissedRuns, all: seq<Tick>, keep: int) {
    && |m.kept| == Room(|all|, keep) && m.dropped == |all| - |m.kept|
    && (forall i {:trigger m.kept[i]} :: 0 <= i < |m.kept| ==> m.kept[i] == all[m.dropped + i])
    && (m.window.None? <==> m.dropped == 0)
    && (m.window.Some? ==> m.window.value.0 == all[0] && m.window.value.1 == all[m.dropped - 1])
  }

  /** It leaves nothing open. */
  lemma ReportIsUnique(one: MissedRuns, other: MissedRuns, all: seq<Tick>, keep: int)
    requires Reports(one, all, keep) && Reports(other, all, keep)
    ensures one == other
  {
    forall i | 0 <= i < |one.kept| ensures one.kept[i] == other.kept[i] {
    }
    assert one.kept == other.kept;
  }

  /** The loop body: what the window cannot hold, or no longer, counts as dropped. */
  method Collect(m: MissedRuns, keep: int, fire: Tick, ghost seen: seq<Tick>) returns (m': MissedRuns)
    requires Reports(m, seen, keep)
    ensures Reports(m', seen + [fire], keep)
  {
    var kept, dropped, window := m.kept, m.dropped, m.window;
    if keep <= 0 {
      dropped, window := dropped + 1, Widen(window, fire);
    } else {
      if |kept| == keep {
        assert kept[0] == seen[dropped];
        dropped, window := dropped + 1, Widen(window, kept[0]);
        kept := kept[1..];
      }
      kept := kept + [fire];
    }
    m' := MissedRuns(kept, dropped, window);
  }

  /** drop(): the first dropped instant stays, the last one moves. */
  function Widen(window: Option<(Tick, Tick)>, fire: Tick): Option<(Tick, Tick)> {
    Some((if window.Some? then window.value.0 else fire, fire))
  }

  /**
   The end of the interval. `fire > until` compares instants, unless both carry the very
   same zone: Python then compares their wall-clock times and ignores the fold.
   */
  datatype Bound = Bound(at: int, wall: int, sameZone: bool)

  predicate Past(fire: Tick, until: Bound) {
    if until.sameZone then fire.wall > until.wall else fire.at > until.at
  }

  /** A zone's wall clock never falls behind by more than some fixed offset. */
  ghost predicate CloseWalls(ticks: nat -> Tick, offset: nat) {
    forall i: nat :: ticks(i).at <= ticks(i).wall + offset
  }

  ghost predicate Timed(s: Schedule) {
    Endless(s) && exists offset :: CloseWalls(s.ticks, offset)
  }

  /** The walk comes to an end. */
  lemma PassesEventually(s: Schedule, until: Bound, i: nat) returns (j: nat)
    requires Timed(s)
    ensures i <= j && Yields(s, j) && Past(s.ticks(j), until)
  {
    var offset :| CloseWalls(s.ticks, offset);
    var far := FirstFrom(s.ticks, i, if until.sameZone then until.wall + offset else until.at);
    assert YieldsAgain(s, far);
    j :| far <= j && Yields(s, j);
    TicksAscend(s.ticks, far, j);
    assert s.ticks(j).at <= s.ticks(j).wall + offset;
  }

  /** The tick the walk stops at: the first fire that is past `until`. */
  ghost predicate StopsAt(s: Schedule, after: int, until: Bound, stop: nat)
    requires Ascending(s.ticks)
  {
    && FirstAfter(s.ticks, after) <= stop && Yields(s, stop) && Past(s.ticks(stop), until)
    && NonePast(s, FirstAfter(s.ticks, after), stop, until)
  }

  ghost predicate NonePast(s: Schedule, lo: nat, hi: nat, until: Bound) {
    forall i :: lo <= i < hi && Yields(s, i) ==> !Past(s.ticks(i), until)
  }

  /** Where the walk stands: what it has yielded is reported, and none of it is past `until`. */
  ghost predicate Walked(s: Schedule, start: nat, next: nat, until: Bound, missed: MissedRuns, keep: int) {
    start <= next && NonePast(s, start, next, until) && Reports(missed, FiresIn(s, start, next), keep)
  }

  /** The walk's outcome: a report of every fire up to the one it stops at, which is the first past `until`. */
  ghost predicate CaughtUp(s: Schedule, after: int, until: Bound, stop: nat, missed: MissedRuns, keep: int)
    requires Ascending(s.ticks)
  {
    StopsAt(s, after, until, stop) && Reports(missed, FiresIn(s, FirstAfter(s.ticks, after), stop), keep)
  }

  method MissedCronRuns(s: Schedule, after: int, until: Bound, keep: int) returns (missed: MissedRuns)
    requires Timed(s)
    ensures exists stop :: CaughtUp(s, after, until, stop, missed, keep)
  {
    missed := MissedRuns([], 0, None);
    var series := new FireSeries(s, after);
    ghost var start := series.next;
    ghost var end := PassesEventually(s, until, start);
    while true
      invariant fresh(series) && series.schedule == s && series.next <= end
      invariant Walked(s, start, series.next, until, missed, keep)
      decreases end - series.next
    {
      ghost var before := series.next;
      var fire := series.Next();
      ghost var stop := series.next - 1;
      WalkGoesOn(s, start, before, stop, until, end);
      if Past(fire, until) {
        assert CaughtUp(s, after, until, stop, missed, keep);
        return;
      }
      missed := Collect(missed, keep, fire, FiresIn(s, start, before));
    }
  }

  /** The walk has yielded one more fire. */
  lemma OneMore(s: Schedule, start: nat, before: nat, next: nat)
    requires start <= before < next && FiresIn(s, before, next) == [s.ticks(next - 1)] && Yields(s, next - 1)
    ensures FiresIn(s, start, next) == FiresIn(s, start, before) + [s.ticks(next - 1)]
    ensures FiresIn(s, start, next - 1) == FiresIn(s, start, before)
  {
    FiresSplit(s, start, before, next);
    var last := [s.ticks(next - 1)];
    assert (FiresIn(s, start, next - 1) + last)[..|FiresIn(s, start, next - 1)|] == FiresIn(s, start, next - 1);
    assert (FiresIn(s, start, before) + last)[..|FiresIn(s, start, before)|] == FiresIn(s, start, before);
  }

  lemma OnlyTheLast(s: Schedule, before: nat, next: nat)
    requires Ascending(s.ticks) && before < next && FiresIn(s, before, next) == [s.ticks(next - 1)]
    ensures forall i :: before <= i < next - 1 ==> !Yields(s, i)
  {
    forall i | before <= i < next - 1 ensures !Yields(s, i) {
      FiresAreTheTicks(s, before, next, i);
      TicksAscend(s.ticks, next - 1, i);
    }
  }

  /** With one more fire the walk stops right before it, or is not at the end yet. */
  lemma WalkGoesOn(s: Schedule, start: nat, before: nat, stop: nat, until: Bound, end: nat)
    requires Ascending(s.ticks) && start <= before && NonePast(s, start, before, until)
    requires before <= stop && FiresIn(s, before, stop + 1) == [s.ticks(stop)] && Yields(s, stop)
    requires before <= end && Yields(s, end) && Past(s.ticks(end), until)
    ensures NonePast(s, start, stop, until) && FiresIn(s, start, stop) == FiresIn(s, start, before)
    ensures FiresIn(s, start, stop + 1) == FiresIn(s, start, before) + [s.ticks(stop)]
    ensures !Past(s.ticks(stop), until) ==> NonePast(s, start, stop + 1, until) && stop + 1 <= end
  {
    OneMore(s, start, before, stop + 1);
    OnlyTheLast(s, before, stop + 1);
  }

  /** i is the first fire after t. */
  ghost predicate NextFire(s: Schedule, t: int, i: nat) {
    && Yields(s, i) && t < s.ticks(i).at
    && forall k: nat :: Yields(s, k) && t < s.ticks(k).at ==> i <= k
  }

  /** The comparison with `until` goes as between instants, where it matters: up to it, and at the first fire after it. */
  ghost predicate UntilIsAnInstant(s: Schedule, after: int, until: Bound) {
    && (forall i: nat :: Yields(s, i) && after < s.ticks(i).at <= until.at ==> !Past(s.ticks(i), until))
    && (forall i: nat :: NextFire(s, if after < until.at then until.at else after, i) ==> Past(s.ticks(i), until))
  }

  lemma {:induction false} NoFires(s: Schedule, lo: nat, hi: nat)
    requires forall i :: lo <= i < hi ==> !Yields(s, i)
    ensures FiresIn(s, lo, hi) == []
  {
    if lo < hi {
      NoFires(s, lo, hi - 1);
    }
  }

  lemma {:induction false} FirstYield(s: Schedule, lo: nat, hi: nat) returns (i: nat)
    requires lo <= hi && Yields(s, hi)
    ensures lo <= i <= hi && Yields(s, i) && forall k :: lo <= k < i ==> !Yields(s, k)
    decreases hi - lo
  {
    if Yields(s, lo) {
      i := lo;
    } else {
      i := FirstYield(s, lo + 1, hi);
    }
  }

  lemma FirstYieldIsNext(s: Schedule, t: int, stop: nat) returns (i: nat)
    requires Ascending(s.ticks) && Yields(s, stop) && t < s.ticks(stop).at
    ensures NextFire(s, t, i) && FirstAfter(s.ticks, t) <= i <= stop
    ensures forall k :: FirstAfter(s.ticks, t) <= k < i ==> !Yields(s, k)
  {
    TicksAscend(s.ticks, FirstAfter(s.ticks, t), stop);
    i := FirstYield(s, FirstAfter(s.ticks, t), stop);
    TicksAscend(s.ticks, FirstAfter(s.ticks, t), i);
    forall k: nat | Yields(s, k) && t < s.ticks(k).at ensures i <= k {
      TicksAscend(s.ticks, FirstAfter(s.ticks, t), k);
    }
  }

  /** The fires the walk reads are those of (after, until] if and only if `until` compares as an instant. */
  lemma StopMeans(s: Schedule, after: int, until: Bound, stop: nat)
    requires Ascending(s.ticks) && StopsAt(s, after, until, stop)
    ensures FiresIn(s, FirstAfter(s.ticks, after), stop) == FiresBetween(s, after, until.at) <==> UntilIsAnInstant(s, after, until)
  {
    var start, end := FirstAfter(s.ticks, after), FirstAfter(s.ticks, until.at);
    TicksAscend(s.ticks, start, stop);
    if UntilIsAnInstant(s, after, until) {
      var i := FirstYieldIsNext(s, if after < until.at then until.at else after, stop);
      assert i == stop;
      StopsBehind(s, after, until.at, stop);
    }
    if FiresIn(s, start, stop) == FiresBetween(s, after, until.at) {
      forall i: nat | Yields(s, i) && after < s.ticks(i).at <= until.at ensures !Past(s.ticks(i), until) {
        FiresAreThoseInTheInterval(s, after, until.at, i);
        FiresAreTheTicks(s, start, stop, i);
      }
      forall i: nat | NextFire(s, if after < until.at then until.at else after, i) ensures Past(s.ticks(i), until) {
        FiresAreThoseInTheInterval(s, after, until.at, stop);
        FiresAreTheTicks(s, start, stop, stop);
        FiresAreThoseInTheInterval(s, after, until.at, i);
        FiresAreTheTicks(s, start, stop, i);
        TicksAscend(s.ticks, start, i);
      }
    }
  }

  /** And then the report is the one over (after, until]. */
  lemma MissedIsOverTheInterval(s: Schedule, after: int, until: Bound, stop: nat, missed: MissedRuns, keep: int)
    requires Ascending(s.ticks) && CaughtUp(s, after, until, stop, missed, keep)
    ensures UntilIsAnInstant(s, after, until) ==> Reports(missed, FiresBetween(s, after, until.at), keep)
  {
    StopMeans(s, after, until, stop);
  }

  lemma StopsBehind(s: Schedule, after: int, until: int, stop: nat)
    requires Ascending(s.ticks) && NextFire(s, if after < until then until else after, stop)
    ensures FiresIn(s, FirstAfter(s.ticks, after), stop) == FiresBetween(s, after, until)
  {
    var start, end := FirstAfter(s.ticks, after), FirstAfter(s.ticks, until);
    TicksAscend(s.ticks, start, stop);
    TicksAscend(s.ticks, end, stop);
    var from := if start < end then end else start;
    forall i | from <= i < stop ensures !Yields(s, i) {
      TicksAscend(s.ticks, start, i);
      TicksAscend(s.ticks, end, i);
    }
    NoFires(s, from, stop);
    if start < end {
      FiresSplit(s, start, end, stop);
    }
  }

  /** It does in another zone, and in the same one wherever the wall clock puts every fire on its side of `until`. */
  lemma OrdinaryUntilIsAnInstant(s: Schedule, after: int, until: Bound)
    requires !until.sameZone || forall i: nat :: s.ticks(i).wall > until.wall <==> s.ticks(i).at > until.at
    ensures UntilIsAnInstant(s, after, until)
  {
  }

  /** Every half hour, and the clock goes back by one hour at 120. */
  function AcrossFallBack(hours: string): Schedule {
    Schedule(["0,30", hours, "*", "*", "*"], (i: nat) => Tick(30 * i, if i < 4 then 30 * i else 30 * i - 60, i == 4 || i == 5))
  }

  /** `until` in the second pass, carrying the schedule's own zone: the walk stops in the first pass, two fires early. */
  lemma RepeatedHourEndsEarly()
    ensures var s, until := AcrossFallBack("*"), Bound(130, 70, true);
      && Timed(s) && StopsAt(s, 0, until, 3)
      && s.ticks(3) in FiresBetween(s, 0, until.at) && s.ticks(4) in FiresBetween(s, 0, until.at)
      && s.ticks(3) !in FiresIn(s, FirstAfter(s.ticks, 0), 3) && s.ticks(4) !in FiresIn(s, FirstAfter(s.ticks, 0), 3)
  {
    var s := AcrossFallBack("*");
    forall i: nat ensures YieldsAgain(s, i) {
      assert Yields(s, i);
    }
    assert CloseWalls(s.ticks, 60);
    TicksAscend(s.ticks, FirstAfter(s.ticks, 0), 1);
    FiresAreThoseInTheInterval(s, 0, 130, 3);
    FiresAreThoseInTheInterval(s, 0, 130, 4);
    FiresAreTheTicks(s, FirstAfter(s.ticks, 0), 3, 3);
    FiresAreTheTicks(s, FirstAfter(s.ticks, 0), 3, 4);
  }

  lemma AcrossFallBackTicks(hours: string)
    ensures var ticks := AcrossFallBack(hours).ticks;
      && Ascending(ticks) && WallTimesNameInstants(ticks)
      && FirstAfter(ticks, 30) == 2 && FirstAfter(ticks, 90) == 4 && FirstAfter(ticks, 150) == 6
  {
    var ticks := AcrossFallBack(hours).ticks;
    TicksAscend(ticks, FirstAfter(ticks, 30), 2);
    TicksAscend(ticks, FirstAfter(ticks, 90), 4);
    TicksAscend(ticks, FirstAfter(ticks, 150), 6);
  }

  /** The hour that comes twice is (30, 90] and again (90, 150]. Half past and on the hour, "*" fires four times, "0-23" twice. */
  lemma TwoSchedulesAcrossFallBack(hours: string)
    ensures var s := AcrossFallBack(hours);
      && Ascending(s.ticks)
      && FiresBetween(s, 30, 90) == [s.ticks(2), s.ticks(3)]
      && (hours == "*" ==> FiresBetween(s, 90, 150) == [s.ticks(4), s.ticks(5)])
      && (hours == "0-23" ==> FiresBetween(s, 90, 150) == [])
  {
    var s := AcrossFallBack(hours);
    AcrossFallBackTicks(hours);
    assert FiresIn(s, 2, 3) == [s.ticks(2)];
    assert FiresIn(s, 4, 5) == if hours == "*" || '*' in hours then [s.ticks(4)] else [];
  }

  /** As the caller reads it: in ascending order, the dropped fires before the kept ones. */
  lemma ReportAscends(m: MissedRuns, s: Schedule, after: int, until: int, keep: int)
    requires Ascending(s.ticks) && Reports(m, FiresBetween(s, after, until), keep)
    ensures m.dropped + |m.kept| == |FiresBetween(s, after, until)|
    ensures forall j, k :: 0 <= j < k < |m.kept| ==> m.kept[j].at < m.kept[k].at
    ensures m.window.Some? && m.kept != [] ==> m.window.value.0.at <= m.window.value.1.at < m.kept[0].at
  {
    FiresAscend(s, FirstAfter(s.ticks, after), FirstAfter(s.ticks, until));
  }

  // ---------------------------------------------------------------- adjacent intervals

  predicate Fits(m: MissedRuns, keep: int) {
    |m.kept| == Room(|m.kept|, keep)
  }

  /** The oldest tick dropped by either, or pushed out by the later one. */
  function FirstOf(one: MissedRuns, two: MissedRuns): Option<Tick> {
    if one.window.Some? then Some(one.window.value.0)
    else if one.kept != [] then Some(one.kept[0])
    else if two.window.Some? then Some(two.window.value.0)
    else None
  }

  /** The newest, where `evicted` of the first one's kept ticks make room for the second's. */
  function LastOf(one: MissedRuns, two: MissedRuns, evicted: nat): Option<Tick> {
    if two.window.Some? then Some(two.window.value.1)
    else if 0 < evicted <= |one.kept| then Some(one.kept[evicted - 1])
    else if one.window.Some? then Some(one.window.value.1)
    else None
  }

  function Evicted(one: MissedRuns, two: MissedRuns, keep: int): (n: nat)
    requires Fits(one, keep) && Fits(two, keep)
    ensures n <= |one.kept|
  {
    |one.kept| + |two.kept| - Room(|one.kept| + |two.kept|, keep)
  }

  function Window(first: Option<Tick>, last: Option<Tick>): Option<(Tick, Tick)> {
    if first.None? || last.None? then None else Some((first.value, last.value))
  }

  /** Two results over adjacent intervals, put together by what they report alone. */
  function Combine(one: MissedRuns, two: MissedRuns, keep: int): MissedRuns
    requires Fits(one, keep) && Fits(two, keep)
  {
    var evicted := Evicted(one, two, keep);
    var dropped := one.dropped + two.dropped + evicted;
    MissedRuns(one.kept[evicted..] + two.kept, dropped,
               if dropped == 0 then None else Window(FirstOf(one, two), LastOf(one, two, evicted)))
  }

  lemma RoomForBoth(na: nat, nb: nat, keep: int)
    ensures Room(Room(na, keep) + Room(nb, keep), keep) == Room(na + nb, keep)
    ensures Room(Room(na, keep), keep) == Room(na, keep)
    ensures Room(nb, keep) <= Room(na + nb, keep) <= Room(na, keep) + Room(nb, keep)
    ensures Room(nb, keep) < nb ==> Room(na + nb, keep) == Room(nb, keep)
  {
  }

  lemma ReportFits(m: MissedRuns, all: seq<Tick>, keep: int)
    requires Reports(m, all, keep)
    ensures Fits(m, keep)
  {
    RoomForBoth(|all|, 0, keep);
  }

  /** The kept ticks of the first result that are left, at their positions in a + b. */
  lemma HeadKept(one: MissedRuns, two: MissedRuns, a: seq<Tick>, b: seq<Tick>, keep: int, i: nat)
    requires Reports(one, a, keep) && Reports(two, b, keep) && Fits(one, keep) && Fits(two, keep)
    requires i < |one.kept| - Evicted(one, two, keep)
    ensures var at := one.dropped + two.dropped + Evicted(one, two, keep) + i;
      at < |a| && one.kept[Evicted(one, two, keep) + i] == a[at]
  {
    RoomForBoth(|a|, |b|, keep);
    assert two.dropped == 0;
    var j := Evicted(one, two, keep) + i;
    assert one.kept[j] == a[one.dropped + j];
  }

  /** And those of the second. */
  lemma TailKept(one: MissedRuns, two: MissedRuns, a: seq<Tick>, b: seq<Tick>, keep: int, i: nat)
    requires Reports(one, a, keep) && Reports(two, b, keep) && Fits(one, keep) && Fits(two, keep)
    requires i < |two.kept|
    ensures two.dropped + i < |b| && two.kept[i] == b[two.dropped + i]
    ensures one.dropped + |one.kept| == |a|
  {
  }

  lemma CombineKeeps(one: MissedRuns, two: MissedRuns, a: seq<Tick>, b: seq<Tick>, keep: int, i: nat)
    requires Reports(one, a, keep) && Reports(two, b, keep) && Fits(one, keep) && Fits(two, keep)
    requires i < |Combine(one, two, keep).kept|
    ensures Combine(one, two, keep).dropped + i < |a + b|
    ensures Combine(one, two, keep).kept[i] == (a + b)[Combine(one, two, keep).dropped + i]
  {
    var left := |one.kept| - Evicted(one, two, keep);
    if i < left {
      HeadKept(one, two, a, b, keep, i);
    } else {
      TailKept(one, two, a, b, keep, i - left);
    }
  }

  lemma CombineFirst(one: MissedRuns, two: MissedRuns, a: seq<Tick>, b: seq<Tick>, keep: int)
    requires Reports(one, a, keep) && Reports(two, b, keep) && |a| + |b| > Room(|a| + |b|, keep)
    ensures a + b != [] && FirstOf(one, two) == Some((a + b)[0])
  {
    RoomForBoth(|a|, |b|, keep);
    assert (a + b)[0] == if a != [] then a[0] else b[0];
    assert one.window.None? && one.kept != [] ==> one.kept[0] == a[0];
  }

  lemma CombineLast(one: MissedRuns, two: MissedRuns, a: seq<Tick>, b: seq<Tick>, keep: int, dropped: nat)
    requires Reports(one, a, keep) && Reports(two, b, keep) && Fits(one, keep) && Fits(two, keep)
    requires 0 < dropped == |a| + |b| - Room(|a| + |b|, keep)
    ensures dropped == one.dropped + two.dropped + Evicted(one, two, keep)
    ensures LastOf(one, two, Evicted(one, two, keep)) == Some((a + b)[dropped - 1])
  {
    RoomForBoth(|a|, |b|, keep);
    if two.window.None? && Evicted(one, two, keep) > 0 {
      var j := Evicted(one, two, keep) - 1;
      assert one.kept[j] == a[one.dropped + j];
    }
  }

  lemma CombineWindow(one: MissedRuns, two: MissedRuns, a: seq<Tick>, b: seq<Tick>, keep: int)
    requires Reports(one, a, keep) && Reports(two, b, keep) && Fits(one, keep) && Fits(two, keep)
    ensures var c := Combine(one, two, keep);
      && |c.kept| == Room(|a + b|, keep) && c.dropped == |a + b| - |c.kept|
      && (c.window.None? <==> c.dropped == 0)
      && (c.window.Some? ==> c.window.value.0 == (a + b)[0] && c.window.value.1 == (a + b)[c.dropped - 1])
  {
    RoomForBoth(|a|, |b|, keep);
    var dropped := Combine(one, two, keep).dropped;
    if dropped > 0 {
      CombineFirst(one, two, a, b, keep);
      CombineLast(one, two, a, b, keep, dropped);
    }
  }

  /** What two results report makes up what the result over both has to report. */
  lemma CombineReports(one: MissedRuns, two: MissedRuns, a: seq<Tick>, b: seq<Tick>, keep: int)
    requires Reports(one, a, keep) && Reports(two, b, keep)
    ensures Fits(one, keep) && Fits(two, keep) && Reports(Combine(one, two, keep), a + b, keep)
  {
    ReportFits(one, a, keep);
    ReportFits(two, b, keep);
    CombineWindow(one, two, a, b, keep);
    var c := Combine(one, two, keep);
    forall i {:trigger c.kept[i]} | 0 <= i < |c.kept| ensures c.kept[i] == (a + b)[c.dropped + i] {
      CombineKeeps(one, two, a, b, keep, i);
    }
  }

  /** Catching up over (a, b] and then (b, c] is catching up over (a, c]. */
  lemma CatchUpCombines(one: MissedRuns, two: MissedRuns, s: Schedule, a: int, b: int, c: int, keep: int)
    requires Ascending(s.ticks) && a <= b <= c
    requires Reports(one, FiresBetween(s, a, b), keep) && Reports(two, FiresBetween(s, b, c), keep)
    ensures Fits(one, keep) && Fits(two, keep)
    ensures Reports(Combine(one, two, keep), FiresBetween(s, a, c), keep)
  {
    FiresBetweenSplit(s, a, b, c);
    CombineReports(one, two, FiresBetween(s, a, b), FiresBetween(s, b, c), keep);
  }

  /**
   next_cron_run reads the same series: what it answers is the first fire after `after`, so
   a catch-up from `after` starts with it if it reaches that far and is empty otherwise.
   */
  method NextCronRun(s: Schedule, after: int, ghost until: int) returns (fire: Tick)
    requires Endless(s)
    ensures fire.at > after && exists i: nat :: s.ticks(i) == fire && Yields(s, i)
    ensures forall i: nat :: after < s.ticks(i).at < fire.at ==> !Yields(s, i)
    ensures fire.at <= until ==> FiresBetween(s, after, until) != [] && FiresBetween(s, after, until)[0] == fire
    ensures fire.at > until ==> FiresBetween(s, after, until) == []
  {
    var series := new FireSeries(s, after);
    ghost var start, end := series.next, FirstAfter(s.ticks, until);
    fire := series.Next();
    ghost var found := series.next - 1;
    TicksAscend(s.ticks, start, found);
    forall i: nat | after < s.ticks(i).at < fire.at ensures !Yields(s, i) {
      TicksAscend(s.ticks, found, i);
      FiresAreTheTicks(s, start, series.next, i);
    }
    if fire.at <= until {
      TicksAscend(s.ticks, end, found);
      FiresSplit(s, start, series.next, end);
    } else {
      OnlyTheLast(s, start, series.next);
      TicksAscend(s.ticks, end, found);
      NoFires(s, start, end);
    }
  }
}
