/** What the byte budget of a scan promises about the JSON text that is sent, and what a caller's row bound does. */
module QueryWire {
  import opened Results
  import opened QueryScan
  import opened Text

  function RowTexts(rows: seq<seq<string>>): seq<string> {
    seq(|rows|, i requires 0 <= i < |rows| => "[" + Join(rows[i], ',') + "]")
  }

  function ReasonText(reason: Reason): string {
    match reason
    case NoReason => ""
    case MaxRows => "max_rows"
    case MaxColumns => "max_columns"
    case MaxCellBytes => "max_cell_bytes"
    case MaxResultBytes => "max_result_bytes"
  }

  /** The `omitempty` field. */
  function ReasonField(reason: Reason): string {
    if reason == NoReason then "" else ",\"truncate_reason\":\"" + ReasonText(reason) + "\""
  }

  /** The JSON text of a QueryResult; `elapsed` is the elapsed milliseconds in decimal. */
  function Json(r: QueryResult, elapsed: string): string {
    "{\"columns\":[" + Join(r.columns, ',') + "],\"rows\":[" + Join(RowTexts(r.rows), ',') + "],\"truncated\":"
    + (if r.truncated then "true" else "false") + ReasonField(r.reason) + ",\"elapsed_ms\":" + elapsed + "}"
  }

  /** The longest envelope, without the elapsed time: truncated for the byte budget. */
  const ENVELOPE := 92

  /** No int64 is longer in decimal. */
  const LONGEST_NUMBER := 20

  /** Nor are the milliseconds of a duration, which counts nanoseconds in an int64. */
  const LONGEST_ELAPSED := 13

  lemma EnvelopeSize(r: QueryResult, elapsed: string)
    requires r.reason != NoReason ==> r.truncated
    ensures |Json(r, elapsed)| <= ENVELOPE + |elapsed| + |Join(r.columns, ',')| + |Join(RowTexts(r.rows), ',')|
  {
    assert |ReasonText(r.reason)| <= 16;
    assert |"{\"columns\":["| == 12 && |"],\"rows\":["| == 10 && |"],\"truncated\":"| == 14;
    assert |",\"elapsed_ms\":"| == 14 && |",\"truncate_reason\":\""| == 20;
  }

  lemma {:induction false} ColumnsTextFits(columns: seq<string>)
    ensures |Join(columns, ',')| <= ColumnsCost(columns)
  {
    if |columns| > 1 {
      var front := columns[..|columns| - 1];
      ColumnsTextFits(front);
      JoinSnoc(front, columns[|columns| - 1], ',');
      assert columns == front + [columns[|columns| - 1]];
    }
  }

  lemma {:induction false} CellsTextFits(values: seq<Value>)
    requires AllScalar(values)
    ensures |Join(Jsons(values), ',')| <= CellsCost(values)
  {
    if |values| > 1 {
      var front, last := values[..|values| - 1], values[|values| - 1];
      CellsTextFits(front);
      JoinSnoc(Jsons(front), last.json, ',');
      assert Jsons(values) == Jsons(front) + [last.json];
    }
  }

  /** Every returned row costs more than its text with brackets and a comma. */
  lemma {:induction false} RowsTextFits(src: Source, limits: Limits, rows: seq<seq<string>>)
    requires RowsArePrefix(src, limits, rows)
    ensures |Join(RowTexts(rows), ',')| <= RowsCost(src.rows[..|rows|])
    decreases |rows|
  {
    hide ColumnsFit, RowCost;
    if rows != [] {
      var n := |rows| - 1;
      var front := rows[..n];
      RowsTextFits(src, limits, front);
      JoinOneMoreRow(rows);
      assert src.rows[..n + 1][..n] == src.rows[..n];
      assert RowFits(src, limits, n) && rows[n] == Jsons(src.rows[n].values);
      CellsTextFits(src.rows[n].values);
      RowTextFits(src.rows[n].values);
    }
  }

  lemma JoinOneMoreRow(rows: seq<seq<string>>)
    requires rows != []
    ensures var n := |rows| - 1;
            |Join(RowTexts(rows), ',')| == (if n == 0 then 0 else |Join(RowTexts(rows[..n]), ',')| + 1)
                                           + |"[" + Join(rows[n], ',') + "]"|
  {
    var n := |rows| - 1;
    var last := "[" + Join(rows[n], ',') + "]";
    assert RowTexts(rows) == RowTexts(rows[..n]) + [last];
    if n > 0 {
      JoinSnoc(RowTexts(rows[..n]), last, ',');
    }
  }

  lemma RowTextFits(values: seq<Value>)
    requires AllScalar(values)
    ensures 1 + |"[" + Join(Jsons(values), ',') + "]"| <= RowCost(values)
  {
    CellsTextFits(values);
  }

  /**
    * The wire promise: a result with at least one column, whatever cut it short (errors included), is never longer
    * as JSON than the configured budget, provided the budget covers the envelope.
    */
  lemma WireSizeWithinBudget(src: Source, limits: Limits, r: QueryResult, elapsed: string)
    requires WellFormed(src) && src.columns != [] && BASE_OVERHEAD <= limits.maxResultBytes
    requires WithinLimits(src, limits, r) && |elapsed| <= LONGEST_NUMBER && (r.reason != NoReason ==> r.truncated)
    ensures |Json(r, elapsed)| <= limits.maxResultBytes
  {
    hide ColumnsCost, RowsCost, Json, WellFormed, CellsFit;
    EnvelopeSize(r, elapsed);
    ColumnsTextFits(r.columns);
    RowsTextFits(src, limits, r.rows);
    if r.rows == [] {
      NothingCosts(src, r.columns);
    } else {
      var n := |r.rows|;
      assert RowFits(src, limits, n - 1);
      LastRowHasCells(src, n - 1);
      assert src.rows[..n - 1 + 1] == src.rows[..n];
      ColumnsCostGrows(src, |r.columns|, |src.columns|);
      assert src.columns[..|src.columns|] == src.columns;
    }
  }

  lemma NothingCosts(src: Source, columns: seq<string>)
    ensures RowsCost(src.rows[..0]) == 0 && ColumnsCost([]) == 0
  {
  }

  lemma LastRowHasCells(src: Source, i: nat)
    requires WellFormed(src) && src.columns != [] && i < |src.rows| && src.rows[i].Readable?
    ensures src.rows[i].values != []
  {
  }

  /** The promise, for results with `columnCount` columns under a budget, when the elapsed time has `n` digits: never
      longer than the budget, for any source, any other limits, any outcome and any such time. */
  ghost predicate PromiseHolds(columnCount: nat, budget: int64, n: nat) {
    forall src: Source, limits: Limits, o: Outcome, elapsed: string ::
      && Delivered(src, limits, o) && |src.columns| == columnCount && limits.maxResultBytes == budget
      && IsNumber(elapsed) && |elapsed| == n ==>
        |Json(o.result, elapsed)| <= budget
  }

  /** What a query can come to: with an error, something within the limits; without, the exact scan. */
  ghost predicate Delivered(src: Source, limits: Limits, o: Outcome) {
    && WellFormed(src) && 0 <= limits.maxResultBytes
    && WithinLimits(src, limits, o.result) && (o.result.reason != NoReason ==> o.result.truncated)
    && IsOutcome(src, limits, o) && (Clean(src) ==> o.error.None?)
    && (o.error.None? ==> IsScan(src, limits, o.result) && ReasonIsRight(src, limits, o.result))
  }

  /**
    * Exactly when the promise holds: the budget must cover the envelope with the elapsed time, and there must be a
    * column, because rows without cells are added unchecked (below 128 bytes no row is read at all, so there it does
    * not matter).
    */
  lemma PromiseHoldsExactly(columnCount: nat, budget: int64, n: nat)
    requires 0 <= budget && 1 <= n <= LONGEST_NUMBER
    ensures PromiseHolds(columnCount, budget, n) <==>
            ENVELOPE + n <= budget && (columnCount >= 1 || budget < BASE_OVERHEAD)
  {
    hide Json, IsScan, ReasonIsRight, WithinLimits, WellFormed, Clean, IsOutcome;
    var ones := seq(n, _ => '1');
    assert IsNumber(ones) && |ones| == n;
    if budget < ENVELOPE + n {
      var src, limits, o := NothingReturned(columnCount, budget, ones);
      assert |Json(o.result, ones)| > budget;
    } else if columnCount == 0 && BASE_OVERHEAD <= budget {
      var src, limits, o := ManyEmptyRows(budget, ones);
      assert |Json(o.result, ones)| > budget;
    } else {
      forall src: Source, limits: Limits, o: Outcome, elapsed: string |
        && Delivered(src, limits, o) && |src.columns| == columnCount && limits.maxResultBytes == budget
        && |elapsed| == n
        ensures |Json(o.result, elapsed)| <= budget
      {
        if BASE_OVERHEAD <= budget {
          WireSizeWithinBudget(src, limits, o.result, elapsed);
        } else {
          DeliveredEmpty(src, limits, o, elapsed);
        }
      }
    }
  }

  /** For every elapsed time there can be: 105 bytes are what the longest one needs. */
  lemma PromiseHoldsAlways(columnCount: nat, budget: int64)
    requires 0 <= budget
    ensures (forall n | 1 <= n <= LONGEST_ELAPSED :: PromiseHolds(columnCount, budget, n)) <==>
            105 <= budget && (columnCount >= 1 || budget < BASE_OVERHEAD)
  {
    hide PromiseHolds;
    PromiseHoldsExactly(columnCount, budget, LONGEST_ELAPSED);
    forall n | 1 <= n <= LONGEST_ELAPSED
      ensures PromiseHolds(columnCount, budget, n) <==>
              ENVELOPE + n <= budget && (columnCount >= 1 || budget < BASE_OVERHEAD)
    {
      PromiseHoldsExactly(columnCount, budget, n);
    }
  }

  /** Below the base overhead nothing is returned but the envelope. */
  lemma DeliveredEmpty(src: Source, limits: Limits, o: Outcome, elapsed: string)
    requires Delivered(src, limits, o) && limits.maxResultBytes < BASE_OVERHEAD
    ensures |Json(o.result, elapsed)| <= ENVELOPE + |elapsed|
  {
    hide Json, WellFormed, Clean, IsScan, ReasonIsRight, IsOutcome;
    EnvelopeSize(o.result, elapsed);
    assert o.result.columns == [] && o.result.rows == [];
  }

  lemma NothingReturned(columnCount: nat, budget: int64, elapsed: string)
    returns (src: Source, limits: Limits, o: Outcome)
    requires 0 <= budget < BASE_OVERHEAD
    ensures Delivered(src, limits, o) && |src.columns| == columnCount && limits.maxResultBytes == budget
    ensures |Json(o.result, elapsed)| == ENVELOPE + |elapsed|
  {
    src := Source(seq(columnCount, _ => ""), [], false, false, false);
    limits := Limits(1, columnCount, 1, budget);
    o := Outcome(QueryResult([], [], true, MaxResultBytes), None);
    assert |"max_result_bytes"| == 16;
    assert |"{\"columns\":["| == 12 && |"],\"rows\":["| == 10 && |"],\"truncated\":"| == 14;
    assert |",\"elapsed_ms\":"| == 14 && |",\"truncate_reason\":\""| == 20;
  }

  lemma ManyEmptyRows(budget: int64, elapsed: string) returns (src: Source, limits: Limits, o: Outcome)
    requires BASE_OVERHEAD <= budget
    ensures Delivered(src, limits, o) && src.columns == [] && limits.maxResultBytes == budget
    ensures |Json(o.result, elapsed)| > budget
  {
    src := Source([], seq(budget, _ => Readable([])), false, false, false);
    limits := Limits(budget, 1, 1, budget);
    var r := QueryResult([], seq(budget, _ => []), false, NoReason);
    o := Outcome(r, None);
    assert ColumnsFit(src, limits, 0);
    assert forall i :: 0 <= i < budget ==> RowFits(src, limits, i) && r.rows[i] == Jsons(src.rows[i].values);
    EmptyRowsText(r.rows);
  }

  lemma {:induction false} EmptyRowsText(rows: seq<seq<string>>)
    requires forall i :: 0 <= i < |rows| ==> rows[i] == []
    ensures |Join(RowTexts(rows), ',')| >= 2 * |rows|
  {
    if rows != [] {
      var n := |rows| - 1;
      EmptyRowsText(rows[..n]);
      JoinOneMoreRow(rows);
    }
  }

  /////////////////////////////////////////////// completeness and determinism

  /** The flag is exact, apart from one corner: no columns, no rows, and a budget below the envelope. */
  lemma TruncatedIsExact(src: Source, limits: Limits, r: QueryResult)
    requires IsScan(src, limits, r)
    ensures (!r.truncated <==> |r.columns| == |src.columns| && |r.rows| == |src.rows|) <==>
            (src.columns != [] || src.rows != [] || BASE_OVERHEAD <= limits.maxResultBytes)
  {
    hide ColumnsCost, RowFits;
    NothingCosts(src, src.columns);
    if src.columns == [] {
      assert src.columns[..0] == [];
      assert AllColumnsReturned(src, limits) <==> BASE_OVERHEAD <= limits.maxResultBytes;
    } else if |r.columns| == |src.columns| {
      assert AllColumnsReturned(src, limits);
    } else if AllColumnsReturned(src, limits) {
      ColumnsCostGrows(src, |r.columns| + 1, |src.columns|);
    }
  }

  /** The declarative description leaves no freedom but the reason. */
  lemma ScanIsUnique(src: Source, limits: Limits, r: QueryResult, r': QueryResult)
    requires IsScan(src, limits, r) && IsScan(src, limits, r')
    ensures r'.columns == r.columns && r'.rows == r.rows && r'.truncated == r.truncated
  {
    SameColumns(src, limits, r.columns, r'.columns);
    if AllColumnsReturned(src, limits) {
      assert |r.rows| == |r'.rows|;
    }
    assert r.rows == r'.rows;
  }

  lemma SameColumns(src: Source, limits: Limits, a: seq<string>, b: seq<string>)
    requires ColumnsAreRight(src, limits, a) && ColumnsAreRight(src, limits, b)
    ensures a == b
  {
    if |a| < |b| {
      ColumnsCostGrows(src, |a| + 1, |b|);
    } else if |b| < |a| {
      ColumnsCostGrows(src, |b| + 1, |a|);
    }
  }

  /** `trimRows`. */
  function TrimRows(r: QueryResult, limit: int): QueryResult {
    if limit >= 0 && |r.rows| > limit then
      r.(rows := r.rows[..limit], truncated := true, reason := if r.reason == NoReason then MaxRows else r.reason)
    else r
  }

  /** Scanning with a smaller row bound gives what scanning with the full bound and trimming gives, up to the reason. */
  lemma TrimmingIsScanningLess(src: Source, limits: Limits, k: nat, full: QueryResult)
    requires k <= limits.maxRows && IsScan(src, limits, full)
    ensures IsScan(src, limits.(maxRows := k), TrimRows(full, k))
  {
    var bounded := limits.(maxRows := k);
    assert forall i :: 0 <= i < |src.rows| ==> (RowFits(src, bounded, i) <==> RowFits(src, limits, i));
    assert forall m :: 0 <= m <= |src.columns| ==> (ColumnsFit(src, bounded, m) <==> ColumnsFit(src, limits, m));
  }

  /** So trimming to the bound that was already scanned with changes nothing. */
  lemma TrimAfterBoundedScan(src: Source, limits: Limits, r: QueryResult)
    requires IsScan(src, limits, r)
    ensures TrimRows(r, limits.maxRows) == r
  {
  }

  datatype QueryError = MaxRowsNotPositive | MaxRowsExceedsLimit | NegativeMaxRows | MaxRowsTooLarge
                      | Scan(e: ScanError)

  /** However long the query took, the JSON text of the result is within the budget. */
  ghost predicate FitsWire(r: QueryResult, budget: int) {
    forall elapsed: string :: |elapsed| <= LONGEST_NUMBER ==> |Json(r, elapsed)| <= budget
  }

  /** `query`, once the statement runs: with a column and room for the envelope, what it returns fits the wire, beside
      an error too. */
  method Query(limits: Limits, src: Source) returns (o: Outcome)
    requires WellFormed(src) && 0 <= limits.maxResultBytes
    ensures src.columns != [] && BASE_OVERHEAD <= limits.maxResultBytes ==> FitsWire(o.result, limits.maxResultBytes)
    ensures Delivered(src, limits, o)
  {
    hide IsScan, WellFormed, Clean, ReasonIsRight, WithinLimits, IsOutcome, Json;
    o := ScanRows(src, limits);
    if src.columns != [] && BASE_OVERHEAD <= limits.maxResultBytes {
      forall elapsed: string | |elapsed| <= LONGEST_NUMBER
        ensures |Json(o.result, elapsed)| <= limits.maxResultBytes
      {
        WireSizeWithinBudget(src, limits, o.result, elapsed);
      }
    }
  }

  /** The scan's outcome as the executor answers with it. */
  ghost predicate Answers(src: Source, limits: Limits, r: Result<QueryResult, QueryError>) {
    exists o :: IsOutcome(src, limits, o)
                && r == if o.error.None? then Success(o.result) else Failure(Scan(o.error.value))
  }

  /** The executor with a caller's bound. */
  method QueryWithMaxRows(limits: Limits, maxRows: int, src: Source) returns (r: Result<QueryResult, QueryError>)
    requires WellFormed(src) && 0 <= limits.maxResultBytes
    ensures maxRows <= 0 ==> r == Failure(MaxRowsNotPositive)
    ensures maxRows > limits.maxRows && maxRows > 0 ==> r == Failure(MaxRowsExceedsLimit)
    ensures 0 < maxRows <= limits.maxRows && Clean(src) ==> r.Success?
    ensures 0 < maxRows <= limits.maxRows ==> Answers(src, limits.(maxRows := maxRows), r)
    ensures r.Success? ==> IsScan(src, limits.(maxRows := maxRows), r.value)
    ensures r.Success? ==> ReasonIsRight(src, limits.(maxRows := maxRows), r.value)
    ensures r.Success? && src.columns != [] && BASE_OVERHEAD <= limits.maxResultBytes ==>
              FitsWire(r.value, limits.maxResultBytes)
  {
    if maxRows <= 0 {
      return Failure(MaxRowsNotPositive);
    }
    if maxRows > limits.maxRows {
      return Failure(MaxRowsExceedsLimit);
    }
    hide IsOutcome, IsScan, ReasonIsRight, Clean, WithinLimits, FitsWire;
    var o := Query(limits.(maxRows := maxRows), src);
    match o.error {
      case Some(e) => return Failure(Scan(e));
      case None => return Success(o.result);
    }
  }

  function ResponseRowLimit(defaultRows: int, maxRows: int, requested: int): Result<int, QueryError> {
    if requested < 0 then Failure(NegativeMaxRows)
    else if requested == 0 then Success(defaultRows)
    else if requested > maxRows then Failure(MaxRowsTooLarge)
    else Success(requested)
  }

  /**
    * The query tool under a validated configuration. A request for no more than the configured rows never fails on
    * its bound; its answer is the full scan trimmed to that bound; the tool's own trimming changes nothing.
    */
  method QueryTool(limits: Limits, defaultRows: nat, requested: int, src: Source)
    returns (r: Result<QueryResult, QueryError>)
    requires WellFormed(src) && 0 <= limits.maxResultBytes
    requires 0 < defaultRows <= limits.maxRows
    ensures requested < 0 ==> r == Failure(NegativeMaxRows)
    ensures requested > limits.maxRows ==> r == Failure(MaxRowsTooLarge)
    ensures 0 <= requested <= limits.maxRows ==>
              Answers(src, limits.(maxRows := if requested == 0 then defaultRows else requested), r)
    ensures 0 <= requested <= limits.maxRows && Clean(src) ==> r.Success?
    ensures r.Success? ==>
              var k := if requested == 0 then defaultRows else requested;
              && IsScan(src, limits.(maxRows := k), r.value)
              && ReasonIsRight(src, limits.(maxRows := k), r.value)
              && forall full :: IsScan(src, limits, full) ==>
                   r.value.(reason := NoReason) == TrimRows(full, k).(reason := NoReason)
    ensures r.Success? && src.columns != [] && BASE_OVERHEAD <= limits.maxResultBytes ==>
              FitsWire(r.value, limits.maxResultBytes)
  {
    hide FitsWire, IsScan, WellFormed, Clean, ReasonIsRight, Answers;
    var limit := ResponseRowLimit(defaultRows, limits.maxRows, requested);
    if limit.Failure? {
      return Failure(limit.error);
    }
    r := QueryWithMaxRows(limits, limit.value, src);
    if r.Success? {
      var k := limit.value;
      TrimAfterBoundedScan(src, limits.(maxRows := k), r.value);
      r := Success(TrimRows(r.value, k));
      forall full | IsScan(src, limits, full)
        ensures r.value.(reason := NoReason) == TrimRows(full, k).(reason := NoReason)
      {
        TrimmingIsScanningLess(src, limits, k, full);
        ScanIsUnique(src, limits.(maxRows := k), r.value, TrimRows(full, k));
      }
    }
  }
}
