/**
 Durable streams: a paged reader racing an append-only writer, the job's terminal
 transition and its deletion. No position is skipped, so rows are a sequence here and a
 row's seq is its index.
 */
module Streams {

  type Value = string

  datatype Row = Row(value: Value, closed: bool)

  datatype JobState = Live | Terminal | Gone

  /** What one statement's snapshot shows of the stream and of the job row. */
  datatype Snapshot = Snapshot(rows: seq<Row>, job: JobState)

  // ------------------------------------------------------------------------- the writer

  predicate Shut(rows: seq<Row>) {
    exists i :: 0 <= i < |rows| && rows[i].closed
  }

  /** STREAM_APPEND_SQL: the next dense position, unless the stream is closed. */
  function Append(rows: seq<Row>, row: Row): seq<Row> {
    if Shut(rows) then rows else rows + [row]
  }

  datatype Event = Write(row: Row) | End | Remove

  /** An append is fenced on the job being in its attempt; deleting the job cascades to its rows. */
  ghost predicate Next(s: Snapshot, e: Event, s': Snapshot) {
    match e
    case Write(row) => s.job == Live && s' == s.(rows := Append(s.rows, row))
    case End => s.job == Live && s' == s.(job := Terminal)
    case Remove => s.job != Gone && s' == Snapshot([], Gone)
  }

  /** s' may be seen after s: any number of events between the two. */
  predicate Later(s: Snapshot, s': Snapshot) {
    match s.job
    case Live => s'.job == Gone || s.rows <= s'.rows
    case Terminal => (s'.job == Terminal && s'.rows == s.rows) || s'.job == Gone
    case Gone => s'.job == Gone
  }

  predicate Sane(s: Snapshot) {
    s.job == Gone ==> s.rows == []
  }

  ghost predicate Run(tr: seq<Snapshot>, es: seq<Event>) {
    |tr| == |es| + 1 && Sane(tr[0]) && forall i :: 0 <= i < |es| ==> Next(tr[i], es[i], tr[i + 1])
  }

  /** The snapshots a reader's statements see, in order. */
  ghost predicate History(hist: seq<Snapshot>) {
    && (forall i :: 0 <= i < |hist| ==> Sane(hist[i]))
    && (forall i, j :: 0 <= i <= j < |hist| ==> Later(hist[i], hist[j]))
  }

  /** Whatever the writer, the lifecycle and retention do, any two instants are related by Later. */
  lemma {:induction false} RunsAreHistories(tr: seq<Snapshot>, es: seq<Event>, i: nat, j: nat)
    requires Run(tr, es) && i <= j < |tr|
    ensures Later(tr[i], tr[j]) && Sane(tr[j])
  {
    if j > 0 {
      RunsAreHistories(tr, es, if i < j then i else i - 1, j - 1);
      assert Next(tr[j - 1], es[j - 1], tr[j]);
    }
  }

  // -------------------------------------------------------------------- what is read

  /** page is the stretch of rows that starts at position from, or nothing. */
  predicate IsStretch(page: seq<Row>, rows: seq<Row>, from: nat) {
    page == [] || (from + |page| <= |rows| && page == rows[from..from + |page|])
  }

  /** _READ_STREAM_SQL: at most `batch` rows with seq >= from, in order. A short page is all there was. */
  function Page(rows: seq<Row>, from: int, batch: nat): (page: seq<Row>)
    ensures |page| <= batch && IsStretch(page, rows, First(from))
    ensures |page| < batch ==> First(from) + |page| >= |rows|
  {
    if First(from) >= |rows| then []
    else if |rows| - First(from) <= batch then rows[First(from)..]
    else rows[First(from)..First(from) + batch]
  }

  /** Positions start at 0, so a negative offset reads from there. */
  function First(offset: int): nat {
    if offset < 0 then 0 else offset
  }

  /** The contiguous values from a position up to the first closing marker, or the end of the rows. */
  function ValuesFrom(rows: seq<Row>, from: nat): (values: seq<Value>)
    decreases |rows| - from
  {
    if from >= |rows| || rows[from].closed then [] else [rows[from].value] + ValuesFrom(rows, from + 1)
  }

  predicate ClosedFrom(rows: seq<Row>, from: nat) {
    exists i :: from <= i < |rows| && rows[i].closed
  }

  /** ValuesFrom, said by position: nothing skipped, nothing repeated, cut at the first marker. */
  lemma {:induction false} ValuesArePositions(rows: seq<Row>, from: nat)
    ensures var values := ValuesFrom(rows, from);
      && (from <= |rows| ==> from + |values| <= |rows|)
      && (forall i :: 0 <= i < |values| ==> from + i < |rows| && values[i] == rows[from + i].value && !rows[from + i].closed)
      && (from + |values| < |rows| ==> rows[from + |values|].closed)
    decreases |rows| - from
  {
    if from < |rows| && !rows[from].closed {
      ValuesArePositions(rows, from + 1);
      var values, rest := ValuesFrom(rows, from), ValuesFrom(rows, from + 1);
      forall i | 0 <= i < |values|
        ensures from + i < |rows| && values[i] == rows[from + i].value && !rows[from + i].closed
      {
        if i > 0 {
          var j := i - 1;
          assert rest[j] == rows[from + 1 + j].value && !rows[from + 1 + j].closed;
          assert values[i] == rest[j] && from + 1 + j == from + i;
        }
      }
    }
  }

  /** A page of rows from `from` on, read out: its marker ends the values, or they go on behind it. */
  lemma {:induction false} PageReadsOn(rows: seq<Row>, from: nat, page: seq<Row>, i: nat)
    requires i <= |page| && IsStretch(page, rows, from)
    ensures ClosedFrom(page, i) ==> ValuesFrom(rows, from + i) == ValuesFrom(page, i) && ClosedFrom(rows, from + i)
    ensures !ClosedFrom(page, i) ==> ValuesFrom(rows, from + i) == ValuesFrom(page, i) + ValuesFrom(rows, from + |page|)
    ensures !ClosedFrom(page, i) ==> |ValuesFrom(page, i)| == |page| - i
    decreases |page| - i
  {
    if i < |page| {
      assert page[i] == rows[from + i];
      PageReadsOn(rows, from, page, i + 1);
    }
  }

  /** The loop over fetched rows that both readers run. */
  method ReadOut(rows: seq<Row>) returns (values: seq<Value>, closed: bool)
    ensures values == ValuesFrom(rows, 0) && closed == ClosedFrom(rows, 0)
  {
    values := [];
    for i := 0 to |rows|
      invariant ValuesFrom(rows, 0) == values + ValuesFrom(rows, i)
      invariant forall k :: 0 <= k < i ==> !rows[k].closed
    {
      if rows[i].closed {
        return values, true;
      }
      values := values + [rows[i].value];
    }
    closed := false;
  }

  // ------------------------------------------------------------- what the writer sent

  predicate Closes(e: Event) {
    e.Write? && e.row.closed
  }

  ghost predicate ClosedBy(es: seq<Event>, n: nat) {
    exists k :: 0 <= k < n && k < |es| && Closes(es[k])
  }

  /** The values among the first n events, up to the first that closes the stream. */
  ghost function Sent(es: seq<Event>, n: nat): seq<Value>
    requires n <= |es|
  {
    if n == 0 then []
    else if es[n - 1].Write? && !ClosedBy(es, n) then Sent(es, n - 1) + [es[n - 1].row.value]
    else Sent(es, n - 1)
  }

  /** A stretch without a marker reads out whole, and a row put behind it is read next. */
  lemma {:induction false} ReadsOneMore(rows: seq<Row>, from: nat, row: Row)
    requires from <= |rows| && forall i :: from <= i < |rows| ==> !rows[i].closed
    ensures ValuesFrom(rows + [row], from) == ValuesFrom(rows, from) + if row.closed then [] else [row.value]
    decreases |rows| - from
  {
    if from < |rows| {
      ReadsOneMore(rows, from + 1, row);
    }
  }

  lemma SentStep(es: seq<Event>, n: nat)
    requires n < |es|
    ensures ClosedBy(es, n + 1) <==> ClosedBy(es, n) || Closes(es[n])
  {
    if Closes(es[n]) {
      assert 0 <= n < n + 1 && Closes(es[n]);
    }
  }

  /**
   On a stream that starts empty, what there is to read is what was written up to the close,
   in that order, until the job is deleted: a row sent after the close is refused, no row is
   written twice or out of turn, and once the job has ended nothing more is written.
   */
  lemma {:induction false} WhatIsReadIsWhatWasSent(tr: seq<Snapshot>, es: seq<Event>, n: nat)
    requires Run(tr, es) && tr[0] == Snapshot([], Live) && n < |tr|
    ensures tr[n].job == Gone <==> exists k :: 0 <= k < n && es[k] == Remove
    ensures tr[n].job == Live <==> forall k :: 0 <= k < n ==> es[k].Write?
    ensures tr[n].job != Gone ==> ValuesFrom(tr[n].rows, 0) == Sent(es, n) && (Shut(tr[n].rows) <==> ClosedBy(es, n))
    ensures tr[n].job != Gone ==> |tr[n].rows| == |Sent(es, n)| + if Shut(tr[n].rows) then 1 else 0
    ensures tr[n].job == Gone ==> tr[n].rows == []
  {
    if n > 0 {
      WhatIsReadIsWhatWasSent(tr, es, n - 1);
      assert Next(tr[n - 1], es[n - 1], tr[n]);
      SentStep(es, n - 1);
      var before := tr[n - 1].rows;
      if es[n - 1].Write? && !Shut(before) {
        ReadsOneMore(before, 0, es[n - 1].row);
        assert tr[n].rows[|before|] == es[n - 1].row;
      }
    }
  }

  // ------------------------------------------------------------------------- the reader

  datatype Outcome = Closed | Ended | NoSuchJob | StillWaiting

  /** The rows of the last snapshot that still shows the job. */
  function FinalRows(hist: seq<Snapshot>): seq<Row> {
    if |hist| == 0 then []
    else if hist[|hist| - 1].job != Gone then hist[|hist| - 1].rows
    else FinalRows(hist[..|hist| - 1])
  }

  lemma {:induction false} FinalRowsExtend(hist: seq<Snapshot>, k: nat)
    requires History(hist) && k < |hist|
    ensures hist[k].rows <= FinalRows(hist)
    ensures hist[k].job == Terminal ==> hist[k].rows == FinalRows(hist)
    decreases |hist|
  {
    var n := |hist| - 1;
    assert Later(hist[k], hist[n]) && Sane(hist[k]);
    if hist[n].job == Gone && k < n {
      FinalRowsExtend(hist[..n], k);
    }
  }

  predicate NoMarker(rows: seq<Row>, from: nat, to: nat) {
    forall i :: from <= i < to && i < |rows| ==> !rows[i].closed
  }

  /** Where a read stands: `out` read, and nothing but `next` onwards left of the values. */
  ghost predicate ReadUpTo(final: seq<Row>, from: nat, next: int, out: seq<Value>) {
    && from <= First(next) && NoMarker(final, from, First(next))
    && ValuesFrom(final, from) == out + ValuesFrom(final, First(next))
  }

  function NextSeq(next: int, page: seq<Row>): int {
    if page == [] then next else First(next) + |page|
  }

  lemma NoMarkerGrows(rows: seq<Row>, from: nat, next: nat, page: seq<Row>)
    requires NoMarker(rows, from, next) && IsStretch(page, rows, next) && !ClosedFrom(page, 0)
    ensures NoMarker(rows, from, next + |page|)
  {
    forall i | from <= i < next + |page| && i < |rows| ensures !rows[i].closed {
      if next <= i {
        assert !page[i - next].closed;
      }
    }
  }

  /** A page with a marker completes the read. */
  lemma PageCompletes(final: seq<Row>, from: nat, next: int, out: seq<Value>, page: seq<Row>)
    requires ReadUpTo(final, from, next, out) && IsStretch(page, final, First(next)) && ClosedFrom(page, 0)
    ensures out + ValuesFrom(page, 0) == ValuesFrom(final, from) && ClosedFrom(final, from)
  {
    PageReadsOn(final, First(next), page, 0);
    assert First(next) + 0 == First(next);
  }

  /** A page without one moves the read on by its length. */
  lemma PageAdvances(final: seq<Row>, from: nat, next: int, out: seq<Value>, page: seq<Row>)
    requires ReadUpTo(final, from, next, out) && IsStretch(page, final, First(next)) && !ClosedFrom(page, 0)
    ensures ReadUpTo(final, from, NextSeq(next, page), out + ValuesFrom(page, 0))
    ensures |ValuesFrom(page, 0)| == |page|
  {
    var end := First(next) + |page|;
    assert First(NextSeq(next, page)) == end;
    NoMarkerGrows(final, from, First(next), page);
    assert ValuesFrom(final, First(next)) == ValuesFrom(page, 0) + ValuesFrom(final, end) && |ValuesFrom(page, 0)| == |page| by {
      PageReadsOn(final, First(next), page, 0);
      assert First(next) + 0 == First(next);
    }
    assert out + (ValuesFrom(page, 0) + ValuesFrom(final, end)) == (out + ValuesFrom(page, 0)) + ValuesFrom(final, end);
  }

  /** From instant m on there is nothing left to wait for. */
  predicate SettledFrom(hist: seq<Snapshot>, m: nat, offset: int) {
    m < |hist| && forall i :: m <= i < |hist| ==> hist[i].job != Live || ClosedFrom(hist[i].rows, First(offset))
  }

  /** A page that comes back short has shown everything, any marker included. */
  lemma ShortPageShowsAll(hist: seq<Snapshot>, k: nat, offset: int, next: int, out: seq<Value>, page: seq<Row>, m: nat)
    requires History(hist) && k < |hist| && hist[k].rows <= FinalRows(hist)
    requires IsStretch(page, hist[k].rows, First(next)) && First(next) + |page| >= |hist[k].rows|
    requires ReadUpTo(FinalRows(hist), First(offset), NextSeq(next, page), out) && !ClosedFrom(page, 0)
    ensures hist[k].job == Terminal ==> out == ValuesFrom(FinalRows(hist), First(offset))
    ensures SettledFrom(hist, m, offset) && m <= k ==> hist[k].job != Live
  {
    if hist[k].job == Terminal {
      FinalRowsExtend(hist, k);
    }
    forall i | First(offset) <= i < |hist[k].rows| ensures !hist[k].rows[i].closed {
      assert hist[k].rows[i] == FinalRows(hist)[i];
    }
  }

  /** One fetch and the loop over its rows. */
  method Fetch(hist: seq<Snapshot>, k: nat, offset: int, next: int, batch: nat, out: seq<Value>, ghost m: nat)
    returns (out': seq<Value>, next': int, closed: bool, full: bool)
    requires History(hist) && k < |hist| && batch >= 1 && ReadUpTo(FinalRows(hist), First(offset), next, out)
    ensures closed ==> out' == ValuesFrom(FinalRows(hist), First(offset)) && ClosedFrom(FinalRows(hist), First(offset))
    ensures !closed ==> ReadUpTo(FinalRows(hist), First(offset), next', out')
    ensures |out'| >= |out| + (if full && !closed then 1 else 0)
    ensures !closed && !full && hist[k].job == Terminal ==> out' == ValuesFrom(FinalRows(hist), First(offset))
    ensures !closed && !full && SettledFrom(hist, m, offset) && m <= k ==> hist[k].job != Live
  {
    var rows := Page(hist[k].rows, next, batch);
    FinalRowsExtend(hist, k);
    var values;
    values, closed := ReadOut(rows);
    if closed {
      PageCompletes(FinalRows(hist), First(offset), next, out, rows);
    } else {
      PageAdvances(FinalRows(hist), First(offset), next, out, rows);
    }
    out', next', full := out + values, NextSeq(next, rows), |rows| == batch;
    if !closed && !full {
      ShortPageShowsAll(hist, k, offset, next, out', rows, m);
    }
  }

  lemma NotLiveStays(hist: seq<Snapshot>, k: nat)
    requires History(hist) && 0 < k < |hist| && hist[k - 1].job != Live
    ensures hist[k].job != Live
  {
    assert Later(hist[k - 1], hist[k]);
  }

  /**
   read_stream against every interleaving: hist is what its statements see, one after
   another. StillWaiting is where the caller stops, or the history does.
   */
  method ReadStream(hist: seq<Snapshot>, offset: int, batch: nat, ghost m: nat)
    returns (out: seq<Value>, outcome: Outcome, ghost seen: nat)
    requires History(hist) && batch >= 1
    // without gap or repeat: always a prefix of the contiguous values from offset
    ensures out <= ValuesFrom(FinalRows(hist), First(offset))
    // up to the first closing marker
    ensures outcome == Closed ==> out == ValuesFrom(FinalRows(hist), First(offset)) && ClosedFrom(FinalRows(hist), First(offset))
    // or to the final length, when the job was still there to be read
    ensures seen <= |hist|
    ensures outcome == Ended ==> 1 < seen && hist[seen - 1].job != Live
    ensures outcome == Ended ==> hist[seen - 1].job == Gone || out == ValuesFrom(FinalRows(hist), First(offset))
    ensures outcome == NoSuchJob ==> 0 < seen && hist[seen - 1].job == Gone
    // and it does not wait for what cannot come: a statement a value, and three more, are enough
    ensures outcome == StillWaiting && SettledFrom(hist, m, offset) ==> |hist| <= m + |out| + 3
  {
    var next, final, k := offset, false, 0;
    out, seen := [], 0;
    while k < |hist|
      invariant k == seen <= |hist|
      invariant ReadUpTo(FinalRows(hist), First(offset), next, out)
      invariant final ==> 0 < k && hist[k - 1].job != Live
      invariant SettledFrom(hist, m, offset) ==> k <= m + |out| + if final then 3 else 1
      decreases |hist| - k
    {
      if final {
        NotLiveStays(hist, k);
      }
      var closed, full;
      out, next, closed, full := Fetch(hist, k, offset, next, batch, out, m);
      k, seen := k + 1, seen + 1;
      if closed {
        return out, Closed, seen;
      }
      if full {
        continue;
      }
      if final {
        return out, Ended, seen;
      }
      if k == |hist| {
        return out, StillWaiting, seen;
      }
      if hist[k - 1].job != Live {
        NotLiveStays(hist, k);
      }
      var job := hist[k].job;
      k, seen := k + 1, seen + 1;
      if job == Gone {
        return out, NoSuchJob, seen;
      }
      final := job == Terminal;
    }
    outcome := StillWaiting;
  }

  /** get_stream: everything one snapshot shows. */
  method GetStream(s: Snapshot) returns (values: seq<Value>, closed: bool)
    ensures values == ValuesFrom(s.rows, 0) && closed == ClosedFrom(s.rows, 0)
  {
    values, closed := ReadOut(s.rows);
  }

  /** A live read from 0 and a get_stream of the final stream agree about the values and where they end. */
  method ReadersAgree(hist: seq<Snapshot>, batch: nat) returns (live: seq<Value>, snapshot: seq<Value>, outcome: Outcome)
    requires History(hist) && batch >= 1 && |hist| > 0 && hist[|hist| - 1].job != Gone
    ensures live <= snapshot && (outcome == Closed || outcome == Ended ==> live == snapshot)
    ensures outcome != NoSuchJob
  {
    ghost var seen;
    live, outcome, seen := ReadStream(hist, 0, batch, 0);
    var closed;
    snapshot, closed := GetStream(hist[|hist| - 1]);
    assert seen > 0 ==> Later(hist[seen - 1], hist[|hist| - 1]);
  }

  // ------------------------------------------------------------------------- resuming

  /**
   Stopping after k values and passing offset + k back picks up exactly where the reader
   stopped, if and only if the offset was a position to begin with.
   */
  lemma ResumeLosesNothing(rows: seq<Row>, offset: int, k: nat)
    requires k <= |ValuesFrom(rows, First(offset))|
    ensures var all := ValuesFrom(rows, First(offset));
      all[..k] + ValuesFrom(rows, First(offset + k)) == all <==> offset >= 0 || k == 0
  {
    var all := ValuesFrom(rows, First(offset));
    ValuesShift(rows, First(offset), k);
    if offset < 0 && k > 0 {
      ValuesShift(rows, 0, First(offset + k));
    }
  }

  lemma {:induction false} ValuesShift(rows: seq<Row>, from: nat, k: nat)
    requires k <= |ValuesFrom(rows, from)|
    ensures ValuesFrom(rows, from + k) == ValuesFrom(rows, from)[k..]
  {
    if k > 0 {
      ValuesShift(rows, from, k - 1);
    }
  }

  /** Rows that are appended later only add to the values. */
  lemma {:induction false} ValuesGrow(rows: seq<Row>, later: seq<Row>, from: nat)
    requires rows <= later
    ensures ValuesFrom(rows, from) <= ValuesFrom(later, from)
    decreases |rows| - from
  {
    if from < |rows| && !rows[from].closed {
      ValuesGrow(rows, later, from + 1);
    }
  }

  lemma {:induction false} FinalRowsOfPrefix(hist: seq<Snapshot>, cut: nat)
    requires History(hist) && cut <= |hist|
    ensures FinalRows(hist[..cut]) <= FinalRows(hist)
  {
    if cut > 0 {
      if hist[cut - 1].job != Gone {
        FinalRowsExtend(hist, cut - 1);
      } else {
        FinalRowsOfPrefix(hist, cut - 1);
        assert hist[..cut][..cut - 1] == hist[..cut - 1];
      }
    }
  }

  /** From any cut on, the final rows are the same, or the job is gone and shows none. */
  lemma {:induction false} FinalRowsOfSuffix(hist: seq<Snapshot>, cut: nat)
    requires cut <= |hist|
    ensures FinalRows(hist[cut..]) == FinalRows(hist) || FinalRows(hist[cut..]) == []
    ensures (exists k :: cut <= k < |hist| && hist[k].job != Gone) ==> FinalRows(hist[cut..]) == FinalRows(hist)
    decreases |hist|
  {
    var n := |hist| - 1;
    if cut < |hist| && hist[n].job == Gone {
      FinalRowsOfSuffix(hist[..n], cut);
      assert hist[cut..][..|hist| - cut - 1] == hist[..n][cut..];
      assert forall k :: cut <= k < n ==> hist[..n][k] == hist[k];
    }
  }

  lemma HistoryCuts(hist: seq<Snapshot>, cut: nat)
    requires History(hist) && cut <= |hist|
    ensures History(hist[..cut]) && History(hist[cut..])
  {
  }

  /** The first k values of one read and what a read from there on adds, against the final rows. */
  lemma ResumedReadIsPrefix(rows: seq<Row>, from: nat, first: seq<Value>, k: nat, second: seq<Value>)
    requires k <= |first| && first <= ValuesFrom(rows, from) && second <= ValuesFrom(rows, from + k)
    ensures first[..k] + second <= ValuesFrom(rows, from)
    ensures second == ValuesFrom(rows, from + k) ==> first[..k] + second == ValuesFrom(rows, from)
  {
    ValuesShift(rows, from, k);
    assert ValuesFrom(rows, from)[..k] == first[..k];
    assert ValuesFrom(rows, from) == first[..k] + ValuesFrom(rows, from + k);
  }

  /** What two reads on either side of a cut read, against the final rows of the whole. */
  lemma JoinedReads(hist: seq<Snapshot>, cut: nat, offset: nat, first: seq<Value>, k: nat, second: seq<Value>)
    requires History(hist) && cut <= |hist| && k <= |first|
    requires first <= ValuesFrom(FinalRows(hist[..cut]), offset) && second <= ValuesFrom(FinalRows(hist[cut..]), offset + k)
    ensures first[..k] + second <= ValuesFrom(FinalRows(hist), offset)
    ensures second == ValuesFrom(FinalRows(hist), offset + k) ==> first[..k] + second == ValuesFrom(FinalRows(hist), offset)
    ensures ClosedFrom(FinalRows(hist[cut..]), offset + k) || (exists i :: cut <= i < |hist| && hist[i].job != Gone)
      ==> FinalRows(hist[cut..]) == FinalRows(hist)
  {
    FinalRowsOfPrefix(hist, cut);
    ValuesGrow(FinalRows(hist[..cut]), FinalRows(hist), offset);
    FinalRowsOfSuffix(hist, cut);
    ValuesGrow(FinalRows(hist[cut..]), FinalRows(hist), offset + k);
    ResumedReadIsPrefix(FinalRows(hist), offset, first, k, second);
  }

  /**
   Two reads of a stream that goes on growing: the caller consumes k values of the first and
   passes offset + k to the second, whose statements see what comes later. Put together they
   are still the contiguous values from offset, without gap or repeat, and complete when the
   second read runs to the end.
   */
  method ReadInTwo(hist: seq<Snapshot>, cut: nat, offset: nat, k: nat, batch: nat)
    returns (out: seq<Value>, outcome: Outcome, ghost seen: nat)
    requires History(hist) && cut <= |hist| && batch >= 1
    ensures out <= ValuesFrom(FinalRows(hist), offset)
    ensures outcome == Closed ==> out == ValuesFrom(FinalRows(hist), offset)
    ensures outcome == Ended ==> cut < seen <= |hist| && hist[seen - 1].job != Live
    ensures outcome == Ended ==> hist[seen - 1].job == Gone || out == ValuesFrom(FinalRows(hist), offset)
  {
    HistoryCuts(hist, cut);
    var first, stopped, used := ReadStream(hist[..cut], offset, batch, 0);
    var consumed := if k <= |first| then k else |first|;
    var second;
    second, outcome, seen := ReadStream(hist[cut..], offset + consumed, batch, 0);
    seen := cut + seen;
    JoinedReads(hist, cut, offset, first, consumed, second);
    out := first[..consumed] + second;
  }
}
