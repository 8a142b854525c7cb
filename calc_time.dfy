/**
 * Total busy time of a Nextflow trace (tempo/calc_time.py): loading the
 * (submit, complete) pairs of every row into a set per status, sweeping each
 * set in start order, and reporting the per-status and overall totals.
 *
 * Rows come already split into columns, and timestamp parsing is a parameter
 * (`parse`), since reading the file and the calendar are outside the model.
 */
module CalcTime {
  import opened Wrappers
  import opened Intervals

  /**
   * One row of the trace, by column. `None` is a column the row does not
   * have; reading it raises KeyError, which the loader swallows.
   */
  datatype Row = Row(status: Option<string>, submit: Option<string>, complete: Option<string>)

  /** The row's interval, or None when a timestamp is missing or does not parse. */
  function RowInterval(row: Row, parse: string -> Option<Time>): Option<Interval> {
    if row.submit.None? || row.complete.None? then None
    else match (parse(row.submit.value), parse(row.complete.value))
      case (Some(submit), Some(complete)) => Some(Interval(submit, complete))
      case _ => None
  }

  /**
   * One pass of the loader's loop: the status gets its set before the
   * timestamps are parsed, so a row whose timestamps fail still adds its
   * status; a row without a status column is skipped entirely.
   */
  function AddRow(sets: map<string, set<Interval>>, row: Row, parse: string -> Option<Time>): map<string, set<Interval>> {
    match row.status
    case None => sets
    case Some(status) =>
      var group := if status in sets then sets[status] else {};
      match RowInterval(row, parse)
      case None => sets[status := group]
      case Some(iv) => sets[status := group + {iv}]
  }

  /** The loader's result after the rows `rows`. */
  function Loaded(rows: seq<Row>, parse: string -> Option<Time>): map<string, set<Interval>> {
    if rows == [] then map[]
    else AddRow(Loaded(rows[..|rows| - 1], parse), rows[|rows| - 1], parse)
  }

  /** What one row adds: its status, and its interval when the timestamps parse. */
  lemma AddRowAdds(sets: map<string, set<Interval>>, row: Row, parse: string -> Option<Time>, s: string, iv: Interval)
    ensures s in AddRow(sets, row, parse) <==> s in sets || row.status == Some(s)
    ensures s in AddRow(sets, row, parse) && iv in AddRow(sets, row, parse)[s] <==>
              (s in sets && iv in sets[s]) || (row.status == Some(s) && RowInterval(row, parse) == Some(iv))
  {
  }

  /** A status is loaded exactly when some row has it. */
  lemma {:induction false} LoadedStatus(rows: seq<Row>, parse: string -> Option<Time>, s: string)
    ensures s in Loaded(rows, parse) <==> exists row :: row in rows && row.status == Some(s)
  {
    if rows != [] {
      var p, r := rows[..|rows| - 1], rows[|rows| - 1];
      assert rows == p + [r];
      LoadedStatus(p, parse, s);
      AddRowAdds(Loaded(p, parse), r, parse, s, Interval(0, 0));
      if s in Loaded(p, parse) {
        var row :| row in p && row.status == Some(s);
        assert row in rows;
      }
      if exists row :: row in rows && row.status == Some(s) {
        var row :| row in rows && row.status == Some(s);
        if row != r {
          assert row in p;
        }
      }
    }
  }

  /** An interval is loaded for a status exactly when a row has that status and parses to it. */
  lemma {:induction false} LoadedInterval(rows: seq<Row>, parse: string -> Option<Time>, s: string, iv: Interval)
    ensures s in Loaded(rows, parse) && iv in Loaded(rows, parse)[s] <==>
              exists row :: row in rows && row.status == Some(s) && RowInterval(row, parse) == Some(iv)
  {
    if rows != [] {
      var p, r := rows[..|rows| - 1], rows[|rows| - 1];
      assert rows == p + [r];
      LoadedInterval(p, parse, s, iv);
      AddRowAdds(Loaded(p, parse), r, parse, s, iv);
      if s in Loaded(p, parse) && iv in Loaded(p, parse)[s] {
        var row :| row in p && row.status == Some(s) && RowInterval(row, parse) == Some(iv);
        assert row in rows;
      }
      if exists row :: row in rows && row.status == Some(s) && RowInterval(row, parse) == Some(iv) {
        var row :| row in rows && row.status == Some(s) && RowInterval(row, parse) == Some(iv);
        if row != r {
          assert row in p;
        }
      }
    }
  }

  /**
   * The statuses loaded are those of the rows that have a status, and the
   * intervals of a status are those of its rows whose timestamps parse.
   */
  lemma LoadedCharacterized(rows: seq<Row>, parse: string -> Option<Time>)
    ensures forall s :: s in Loaded(rows, parse) <==> exists row :: row in rows && row.status == Some(s)
    ensures forall s, iv :: s in Loaded(rows, parse) && iv in Loaded(rows, parse)[s] <==>
              exists row :: row in rows && row.status == Some(s) && RowInterval(row, parse) == Some(iv)
  {
    forall s {
      LoadedStatus(rows, parse, s);
    }
    forall s, iv {
      LoadedInterval(rows, parse, s, iv);
    }
  }

  /**
   * The loaded sets depend only on which rows occur, not on their order or
   * repetition: doubling every row of a trace changes nothing.
   */
  lemma LoadedDependsOnRowsOnly(rows: seq<Row>, others: seq<Row>, parse: string -> Option<Time>)
    requires forall row :: row in rows <==> row in others
    ensures Loaded(rows, parse) == Loaded(others, parse)
  {
    var a, b := Loaded(rows, parse), Loaded(others, parse);
    LoadedCharacterized(rows, parse);
    LoadedCharacterized(others, parse);
    forall s | s in a
      ensures s in b && a[s] == b[s]
    {
      var row :| row in rows && row.status == Some(s);
      assert row in others;
      forall iv
        ensures iv in a[s] <==> iv in b[s]
      {
        if iv in a[s] {
          var w :| w in rows && w.status == Some(s) && RowInterval(w, parse) == Some(iv);
          assert w in others;
        }
        if iv in b[s] {
          var w :| w in others && w.status == Some(s) && RowInterval(w, parse) == Some(iv);
          assert w in rows;
        }
      }
    }
    forall s | s in b
      ensures s in a
    {
      var row :| row in others && row.status == Some(s);
      assert row in rows;
    }
  }

  lemma DoublingRowsChangesNothing(rows: seq<Row>, parse: string -> Option<Time>)
    ensures Loaded(rows + rows, parse) == Loaded(rows, parse)
  {
    LoadedDependsOnRowsOnly(rows + rows, rows, parse);
  }

  /** A row whose timestamps do not parse adds its status with no interval, and nothing else. */
  lemma MalformedRowAddsOnlyItsStatus(rows: seq<Row>, row: Row, status: string, parse: string -> Option<Time>)
    requires row.status == Some(status) && RowInterval(row, parse) == None
    ensures var before, after := Loaded(rows, parse), Loaded(rows + [row], parse);
            after.Keys == before.Keys + {status}
            && after[status] == (if status in before then before[status] else {})
            && forall s :: s in before && s != status ==> after[s] == before[s]
  {
    assert (rows + [row])[..|rows|] == rows;
  }

  /** load_intervals: the row loop that fills a dictionary of sets. */
  method LoadIntervals(rows: seq<Row>, parse: string -> Option<Time>) returns (intervalSets: map<string, set<Interval>>)
    ensures intervalSets == Loaded(rows, parse)
    ensures forall s :: s in intervalSets <==> exists row :: row in rows && row.status == Some(s)
    ensures forall s, iv :: s in intervalSets && iv in intervalSets[s] <==>
              exists row :: row in rows && row.status == Some(s) && RowInterval(row, parse) == Some(iv)
  {
    intervalSets := map[];
    for i := 0 to |rows|
      invariant intervalSets == Loaded(rows[..i], parse)
    {
      assert rows[..i + 1][..i] == rows[..i];
      match rows[i].status {
        case None =>
        case Some(status) =>
          if status !in intervalSets {
            intervalSets := intervalSets[status := {}];
          }
          var interval := RowInterval(rows[i], parse);
          if interval.Some? {
            intervalSets := intervalSets[status := intervalSets[status] + {interval.value}];
          }
      }
    }
    assert rows[..|rows|] == rows;
    LoadedCharacterized(rows, parse);
  }

  lemma EarliestStartExists(intervals: set<Interval>)
    requires intervals != {}
    ensures exists x :: x in intervals && forall y :: y in intervals ==> x.submit <= y.submit
    decreases intervals
  {
    var x :| x in intervals;
    if intervals != {x} {
      EarliestStartExists(intervals - {x});
      var m :| m in intervals - {x} && forall y :: y in intervals - {x} ==> m.submit <= y.submit;
      if x.submit < m.submit {
        assert forall y :: y in intervals ==> x.submit <= y.submit;
      } else {
        assert forall y :: y in intervals ==> m.submit <= y.submit;
      }
    }
  }

  /**
   * `sorted(list(intervals), key=lambda x: x[0])`. The order in which a set is
   * listed is unspecified, so among equal starts any order may come out.
   */
  method SortByStart(intervals: set<Interval>) returns (sorted: seq<Interval>)
    ensures IsStartOrder(sorted, intervals)
  {
    var rest := intervals;
    sorted := [];
    while rest != {}
      invariant Elems(sorted) + rest == intervals
      invariant Elems(sorted) !! rest
      invariant SortedByStart(sorted) && Distinct(sorted)
      invariant forall i, y :: 0 <= i < |sorted| && y in rest ==> sorted[i].submit <= y.submit
      decreases rest
    {
      EarliestStartExists(rest);
      var x :| x in rest && forall y :: y in rest ==> x.submit <= y.submit;
      assert Elems(sorted + [x]) == Elems(sorted) + {x};
      sorted := sorted + [x];
      rest := rest - {x};
    }
  }

  /** The durations the source returns for a set, for some start order of it. */
  ghost predicate IsDurationsOf(intervals: set<Interval>, durations: seq<int>) {
    exists order :: IsStartOrder(order, intervals) && durations == Durations(SweepOver(order).merged)
  }

  /**
   * calculate_interval_durations: sort, sweep, and the durations of the
   * spans closed during the sweep. For regular intervals these are the
   * durations of every maximal busy span except the last.
   */
  method CalculateIntervalDurations(intervals: set<Interval>) returns (durations: seq<int>)
    ensures IsDurationsOf(intervals, durations)
    ensures Regular(intervals) ==>
              forall c :: IsCoalescing(intervals, c) ==> durations == Durations(DropLast(c))
  {
    var sorted := SortByStart(intervals);
    var merged: seq<Interval> := [];
    var currentSubmit, currentComplete := Sentinel, Sentinel;
    for i := 0 to |sorted|
      invariant SweepOver(sorted[..i]) == Sweep(merged, Interval(currentSubmit, currentComplete))
    {
      assert sorted[..i + 1][..i] == sorted[..i];
      var submit, complete := sorted[i].submit, sorted[i].complete;
      if submit > currentComplete {
        if i != 0 {
          merged := merged + [Interval(currentSubmit, currentComplete)];
        }
        currentComplete := complete;
        currentSubmit := submit;
      } else {
        if complete >= currentComplete {
          currentComplete := complete;
        }
      }
    }
    assert sorted[..|sorted|] == sorted;
    durations := [];
    for k := 0 to |merged|
      invariant durations == Durations(merged[..k])
    {
      assert merged[..k + 1] == merged[..k] + [merged[k]];
      DurationsAppend(merged[..k], merged[k]);
      durations := durations + [merged[k].complete - merged[k].submit];
    }
    assert merged[..|merged|] == merged;
    if Regular(intervals) {
      forall c | IsCoalescing(intervals, c)
        ensures durations == Durations(DropLast(c))
      {
        SweepDropsOnlyLastSpan(sorted, intervals, c);
      }
    }
  }

  /** The total the source reports for a set, for some start order of it. */
  ghost predicate IsTotalOf(intervals: set<Interval>, total: int) {
    exists order :: IsStartOrder(order, intervals) && total == Sum(Durations(SweepOver(order).merged))
  }

  /** No interval, no busy time. */
  lemma EmptyGroupTotalsZero(total: int)
    requires IsTotalOf({}, total)
    ensures total == 0
  {
    var order :| IsStartOrder(order, {}) && total == Sum(Durations(SweepOver(order).merged));
    NothingListedIsEmpty(order);
  }

  lemma NothingListedIsEmpty(s: seq<Interval>)
    ensures Elems(s) == {} ==> s == []
  {
    if s != [] {
      assert s[0] in Elems(s);
    }
  }

  /**
   * For regular intervals the total is the busy time of every maximal span
   * but the last, and at most the naive sum of the interval lengths.
   */
  lemma RegularGroupTotal(intervals: set<Interval>, total: int, c: seq<Interval>)
    requires Regular(intervals) && IsTotalOf(intervals, total) && IsCoalescing(intervals, c)
    ensures total == Sum(Durations(DropLast(c)))
    ensures forall order :: IsStartOrder(order, intervals) ==> total <= TotalLength(order)
  {
    var order :| IsStartOrder(order, intervals) && total == Sum(Durations(SweepOver(order).merged));
    SweepDropsOnlyLastSpan(order, intervals, c);
    forall other | IsStartOrder(other, intervals)
      ensures total <= TotalLength(other)
    {
      SweepDropsOnlyLastSpan(other, intervals, c);
      forall i | 0 <= i < |other|
        ensures Valid(other[i])
      {
        assert other[i] in Elems(other);
      }
      BusyTimeAtMostNaiveSum(other);
    }
  }

  /** One line of the message: `{status}: {total_duration} ({num_intervals} intervals)`. */
  datatype StatusLine = StatusLine(status: string, total: int, intervals: nat)

  /** The message: one line per status, then `Total: ...`. */
  datatype Report = Report(lines: seq<StatusLine>, total: int, intervals: nat)

  /** The lines name every status of `statuses` exactly once. */
  ghost predicate ListsEachOnce(lines: seq<StatusLine>, statuses: set<string>) {
    (forall i, j :: 0 <= i < j < |lines| ==> lines[i].status != lines[j].status)
    && (forall s :: s in statuses <==> exists i :: 0 <= i < |lines| && lines[i].status == s)
  }

  /** The line shows its status's total and the number of its distinct intervals. */
  predicate LineAgrees(line: StatusLine, totals: map<string, int>, sets: map<string, set<Interval>>) {
    line.status in totals && line.status in sets
    && line.total == totals[line.status] && line.intervals == |sets[line.status]|
  }

  lemma ListsEachOnceAppend(lines: seq<StatusLine>, done: set<string>, line: StatusLine)
    requires ListsEachOnce(lines, done) && line.status !in done
    ensures ListsEachOnce(lines + [line], done + {line.status})
  {
    var more := lines + [line];
    forall s
      ensures s in done + {line.status} <==> exists i :: 0 <= i < |more| && more[i].status == s
    {
      if s in done {
        var i :| 0 <= i < |lines| && lines[i].status == s;
        assert more[i] == lines[i];
      }
      if s == line.status {
        assert more[|lines|] == line;
      }
      if exists i :: 0 <= i < |more| && more[i].status == s {
        var i :| 0 <= i < |more| && more[i].status == s;
        if i < |lines| {
          assert more[i] == lines[i];
        }
      }
    }
  }

  lemma LinesAgreeAppend(lines: seq<StatusLine>, line: StatusLine,
                         totals: map<string, int>, sets: map<string, set<Interval>>)
    requires forall i :: 0 <= i < |lines| ==> LineAgrees(lines[i], totals, sets)
    requires LineAgrees(line, totals, sets)
    ensures forall i :: 0 <= i < |lines + [line]| ==> LineAgrees((lines + [line])[i], totals, sets)
  {
    forall i | 0 <= i < |lines + [line]|
      ensures LineAgrees((lines + [line])[i], totals, sets)
    {
      if i < |lines| {
        assert (lines + [line])[i] == lines[i];
      }
    }
  }

  function LinesTotal(lines: seq<StatusLine>): int {
    if lines == [] then 0 else LinesTotal(lines[..|lines| - 1]) + lines[|lines| - 1].total
  }

  function LinesCount(lines: seq<StatusLine>): nat {
    if lines == [] then 0 else LinesCount(lines[..|lines| - 1]) + lines[|lines| - 1].intervals
  }

  /** The first loop of calculate_trace_duration: the sweep's durations for every status. */
  method DurationsPerStatus(intervalSets: map<string, set<Interval>>) returns (durationSets: map<string, seq<int>>)
    ensures durationSets.Keys == intervalSets.Keys
    ensures forall s :: s in durationSets ==> IsDurationsOf(intervalSets[s], durationSets[s])
  {
    durationSets := map[];
    var todo := intervalSets.Keys;
    while todo != {}
      invariant todo <= intervalSets.Keys
      invariant durationSets.Keys == intervalSets.Keys - todo
      invariant forall s :: s in durationSets ==> IsDurationsOf(intervalSets[s], durationSets[s])
      decreases todo
    {
      var status :| status in todo;
      var durations := CalculateIntervalDurations(intervalSets[status]);
      durationSets := durationSets[status := durations];
      todo := todo - {status};
    }
  }

  /** The second loop of calculate_trace_duration: the sum of the durations of every status. */
  method TotalsPerStatus(intervalSets: map<string, set<Interval>>, durationSets: map<string, seq<int>>)
    returns (totals: map<string, int>)
    requires durationSets.Keys == intervalSets.Keys
    requires forall s :: s in durationSets ==> IsDurationsOf(intervalSets[s], durationSets[s])
    ensures totals.Keys == intervalSets.Keys
    ensures forall s :: s in totals ==> totals[s] == Sum(durationSets[s])
    ensures forall s :: s in totals ==> IsTotalOf(intervalSets[s], totals[s])
  {
    totals := map[];
    var todo := durationSets.Keys;
    while todo != {}
      invariant todo <= durationSets.Keys
      invariant totals.Keys == durationSets.Keys - todo
      invariant forall s :: s in totals ==> totals[s] == Sum(durationSets[s])
      invariant forall s :: s in totals ==> IsTotalOf(intervalSets[s], totals[s])
      decreases todo
    {
      var status :| status in todo;
      ghost var order :| IsStartOrder(order, intervalSets[status])
                         && durationSets[status] == Durations(SweepOver(order).merged);
      assert IsStartOrder(order, intervalSets[status])
             && Sum(durationSets[status]) == Sum(Durations(SweepOver(order).merged));
      totals := totals[status := Sum(durationSets[status])];
      todo := todo - {status};
    }
  }

  /** The third loop of calculate_trace_duration: one message line per status. */
  method StatusLines(intervalSets: map<string, set<Interval>>, totals: map<string, int>)
    returns (lines: seq<StatusLine>)
    requires totals.Keys == intervalSets.Keys
    ensures ListsEachOnce(lines, totals.Keys)
    ensures forall i :: 0 <= i < |lines| ==> LineAgrees(lines[i], totals, intervalSets)
  {
    lines := [];
    ghost var done: set<string> := {};
    var todo := totals.Keys;
    while todo != {}
      invariant done + todo == totals.Keys && done !! todo
      invariant ListsEachOnce(lines, done)
      invariant forall i :: 0 <= i < |lines| ==> LineAgrees(lines[i], totals, intervalSets)
      decreases todo
    {
      var status :| status in todo;
      var line := StatusLine(status, totals[status], |intervalSets[status]|);
      ListsEachOnceAppend(lines, done, line);
      LinesAgreeAppend(lines, line, totals, intervalSets);
      lines := lines + [line];
      done := done + {status};
      todo := todo - {status};
    }
  }

  /**
   * calculate_trace_duration: the total per status (the first result) and
   * the message as data (the second). Statuses come out in no fixed order;
   * the overall figures add up the lines, one per status.
   */
  method CalculateTraceDuration(rows: seq<Row>, parse: string -> Option<Time>)
    returns (totals: map<string, int>, report: Report)
    ensures totals.Keys == Loaded(rows, parse).Keys
    ensures forall s :: s in totals ==> IsTotalOf(Loaded(rows, parse)[s], totals[s])
    ensures ListsEachOnce(report.lines, totals.Keys)
    ensures forall i :: 0 <= i < |report.lines| ==> LineAgrees(report.lines[i], totals, Loaded(rows, parse))
    ensures report.total == LinesTotal(report.lines) && report.intervals == LinesCount(report.lines)
  {
    var intervalSets := LoadIntervals(rows, parse);
    var durationSets := DurationsPerStatus(intervalSets);
    totals := TotalsPerStatus(intervalSets, durationSets);
    var lines := StatusLines(intervalSets, totals);
    report := Report(lines, LinesTotal(lines), LinesCount(lines));
  }
}
