/** `scanRows`: materializing a query result under row, column, cell and byte limits, with Go's wrapping int64
    arithmetic. The JSON text of one column or cell is data here; how strings are escaped is not modelled. */
module QueryScan {
  import opened Results

  const MAX_INT64 := 0x7FFF_FFFF_FFFF_FFFF

  type int64 = x: int | -MAX_INT64 - 1 <= x <= MAX_INT64

  /** Go's `+` on int64. */
  function Add64(a: int64, b: int64): (sum: int64)
    ensures -MAX_INT64 - 1 <= a + b <= MAX_INT64 ==> sum == a + b
  {
    if (a as int) + (b as int) > MAX_INT64 then (a as int) + (b as int) - 2 * (MAX_INT64 + 1)
    else if (a as int) + (b as int) < -MAX_INT64 - 1 then (a as int) + (b as int) + 2 * (MAX_INT64 + 1)
    else (a as int) + (b as int)
  }

  const BASE_OVERHEAD := 128
  const COLUMN_OVERHEAD := 64
  const ROW_OVERHEAD := 32
  const CELL_OVERHEAD := 64

  datatype Reason = NoReason | MaxRows | MaxColumns | MaxCellBytes | MaxResultBytes

  datatype Limits = Limits(maxRows: nat, maxColumns: nat, maxCellBytes: nat, maxResultBytes: int64)

  /** A value read from the driver: its source size and its encoded cell, or a type that cannot be encoded. */
  datatype Value = Scalar(sourceBytes: nat, json: string) | Unsupported

  datatype SourceRow = Readable(values: seq<Value>) | Unreadable

  /** What the driver will deliver: column descriptors (as JSON), rows, and which of its calls fail. */
  datatype Source = Source(columns: seq<string>, rows: seq<SourceRow>,
                           columnTypesFail: bool, iterationFails: bool, closeFails: bool)

  datatype QueryResult = QueryResult(columns: seq<string>, rows: seq<seq<string>>, truncated: bool, reason: Reason)

  datatype ScanError = ColumnTypesError | ScanFailed | UnsupportedValue | IterationError | CloseError

  datatype Outcome = Outcome(result: QueryResult, error: Option<ScanError>)

  /** What Go and database/sql guarantee of any source: lengths are int64, and rows are as wide as the columns. */
  ghost predicate WellFormed(src: Source) {
    && (forall i :: 0 <= i < |src.columns| ==> |src.columns[i]| <= MAX_INT64)
    && (forall i :: 0 <= i < |src.rows| && src.rows[i].Readable? ==>
          |src.rows[i].values| == |src.columns| && LengthsFit(src.rows[i].values))
  }

  ghost predicate LengthsFit(values: seq<Value>) {
    forall j :: 0 <= j < |values| && values[j].Scalar? ==> |values[j].json| <= MAX_INT64
  }

  /** A source none of whose calls fails and all of whose values can be encoded. */
  ghost predicate Clean(src: Source) {
    && !src.columnTypesFail && !src.iterationFails && !src.closeFails
    && (forall i :: 0 <= i < |src.rows| ==> src.rows[i].Readable? && AllScalar(src.rows[i].values))
  }

  ghost predicate AllScalar(values: seq<Value>) {
    forall j :: 0 <= j < |values| ==> values[j].Scalar?
  }

  function MarkTruncated(r: QueryResult, reason: Reason): QueryResult {
    var marked := r.(truncated := true);
    if r.reason == NoReason || (r.reason == MaxColumns && reason != MaxColumns) then marked.(reason := reason)
    else marked
  }

  predicate ExceedsBudget(current: int64, additional: int64, maximum: int64)
    requires 0 <= current && 0 <= maximum
  {
    additional < 0 || current > maximum || additional > maximum - current
  }

  /////////////////////////////////////////////// costs, in unbounded arithmetic

  function CellCost(v: Value): nat {
    if v.Scalar? then |v.json| + CELL_OVERHEAD + 1 else 0
  }

  function CellsCost(values: seq<Value>): nat {
    if values == [] then 0 else CellsCost(values[..|values| - 1]) + CellCost(values[|values| - 1])
  }

  function RowCost(values: seq<Value>): nat {
    ROW_OVERHEAD + 2 + CellsCost(values)
  }

  function ColumnsCost(columns: seq<string>): nat {
    if columns == [] then 0
    else ColumnsCost(columns[..|columns| - 1]) + |columns[|columns| - 1]| + COLUMN_OVERHEAD
  }

  function RowsCost(rows: seq<SourceRow>): nat {
    if rows == [] then 0
    else RowsCost(rows[..|rows| - 1])
         + if rows[|rows| - 1].Readable? then RowCost(rows[|rows| - 1].values) else 0
  }

  function Spent(columns: seq<string>, rows: seq<SourceRow>): nat {
    BASE_OVERHEAD + ColumnsCost(columns) + RowsCost(rows)
  }

  /** The accounting in numbers: 128 bytes to start with, 64 more than its text for a column, 34 for a row, and 65 more
      than its text for a cell. */
  lemma CostsInNumbers(columns: seq<string>, column: string, rows: seq<SourceRow>, cells: seq<Value>, cell: Value)
    ensures Spent([], []) == 128 && RowCost([]) == 34
    ensures Spent(columns + [column], rows) == Spent(columns, rows) + |column| + 64
    ensures Spent(columns, rows + [Readable(cells)]) == Spent(columns, rows) + RowCost(cells)
    ensures cell.Scalar? ==> RowCost(cells + [cell]) == RowCost(cells) + |cell.json| + 65
  {
    assert (columns + [column])[..|columns|] == columns;
    assert (rows + [Readable(cells)])[..|rows|] == rows;
    assert (cells + [cell])[..|cells|] == cells;
  }

  /////////////////////////////////////////////// what the result must be

  /** The first `m` columns fit the byte budget. */
  predicate ColumnsFit(src: Source, limits: Limits, m: nat)
    requires m <= |src.columns|
  {
    BASE_OVERHEAD + ColumnsCost(src.columns[..m]) <= limits.maxResultBytes
  }

  /** All cells of a row are encodable and within the cell limit. */
  predicate CellsFit(values: seq<Value>, limits: Limits) {
    forall j :: 0 <= j < |values| ==> values[j].Scalar? && values[j].sourceBytes <= limits.maxCellBytes
  }

  /** Row `i` can be returned after the rows before it; a row without cells is never checked against the budget. */
  predicate RowFits(src: Source, limits: Limits, i: nat)
    requires i < |src.rows|
  {
    && src.rows[i].Readable? && CellsFit(src.rows[i].values, limits)
    && (src.rows[i].values != [] ==> Spent(src.columns, src.rows[..i + 1]) <= limits.maxResultBytes)
  }

  function Jsons(values: seq<Value>): seq<string>
    requires AllScalar(values)
  {
    seq(|values|, j requires 0 <= j < |values| && AllScalar(values) => values[j].json)
  }

  /** The columns: as many as the two limits allow, and no fewer. */
  ghost predicate ColumnsAreRight(src: Source, limits: Limits, columns: seq<string>) {
    && |columns| <= |src.columns| && |columns| <= limits.maxColumns && columns == src.columns[..|columns|]
    && (columns != [] ==> ColumnsFit(src, limits, |columns|))
    && (|columns| < |src.columns| && |columns| < limits.maxColumns ==> !ColumnsFit(src, limits, |columns| + 1))
  }

  /** Rows are read only when no column was cut off. */
  ghost predicate AllColumnsReturned(src: Source, limits: Limits) {
    |src.columns| <= limits.maxColumns && ColumnsFit(src, limits, |src.columns|)
  }

  /** The rows: a prefix of the source, whole and unchanged, every one within the limits. */
  ghost predicate RowsArePrefix(src: Source, limits: Limits, rows: seq<seq<string>>) {
    && |rows| <= |src.rows| && |rows| <= limits.maxRows
    && (forall i :: 0 <= i < |rows| ==> RowFits(src, limits, i) && rows[i] == Jsons(src.rows[i].values))
    && (rows != [] ==> AllColumnsReturned(src, limits))
  }

  /** The exact result of a scan that met no error, apart from the reason. */
  ghost predicate IsScan(src: Source, limits: Limits, r: QueryResult) {
    && ColumnsAreRight(src, limits, r.columns)
    && RowsArePrefix(src, limits, r.rows)
    && if AllColumnsReturned(src, limits) then
         && (|r.rows| < |src.rows| && |r.rows| < limits.maxRows ==> !RowFits(src, limits, |r.rows|))
         && (r.truncated <==> |r.rows| < |src.rows|)
       else
         r.rows == [] && r.truncated
  }

  /////////////////////////////////////////////// one row

  datatype RowOutcome = RowTaken | RowStops(reason: Reason) | RowFails

  /** Going through the cells from the `i`-th on, with `rowBytes` already charged to the row. */
  function CellsOutcome(values: seq<Value>, i: nat, current: int, rowBytes: nat, limits: Limits): RowOutcome
    requires i <= |values|
    decreases |values| - i
  {
    if i == |values| then RowTaken
    else if values[i].Unsupported? then RowFails
    else if values[i].sourceBytes > limits.maxCellBytes then RowStops(MaxCellBytes)
    else if current + rowBytes + CellCost(values[i]) > limits.maxResultBytes then RowStops(MaxResultBytes)
    else CellsOutcome(values, i + 1, current, rowBytes + CellCost(values[i]), limits)
  }

  /** The cells before the `k`-th are taken: encodable, within the cell limit, and the row fits with each of them. */
  ghost predicate CellsTaken(values: seq<Value>, k: nat, current: int, limits: Limits)
    requires k <= |values|
  {
    forall j :: 0 <= j < k ==> CellTaken(values, j, current, limits)
  }

  ghost predicate CellTaken(values: seq<Value>, j: nat, current: int, limits: Limits)
    requires j < |values|
  {
    && values[j].Scalar? && values[j].sourceBytes <= limits.maxCellBytes
    && current + RowCost(values[..j + 1]) <= limits.maxResultBytes
  }

  /** After cells that are taken comes one that is too large in itself, ... */
  ghost predicate OversizedCell(values: seq<Value>, current: int, limits: Limits) {
    exists k :: 0 <= k < |values| && CellsTaken(values, k, current, limits)
                && values[k].Scalar? && values[k].sourceBytes > limits.maxCellBytes
  }

  /** ... one with which the result would outgrow the byte budget, ... */
  ghost predicate OverflowingCell(values: seq<Value>, current: int, limits: Limits) {
    exists k :: 0 <= k < |values| && CellsTaken(values, k, current, limits)
                && values[k].Scalar? && values[k].sourceBytes <= limits.maxCellBytes
                && current + RowCost(values[..k + 1]) > limits.maxResultBytes
  }

  /** ... or one that cannot be encoded. */
  ghost predicate UnencodableCell(values: seq<Value>, current: int, limits: Limits) {
    exists k :: 0 <= k < |values| && CellsTaken(values, k, current, limits) && values[k].Unsupported?
  }

  /** Why a row is taken, stops the scan, or fails it: by the first cell that is not taken. */
  ghost predicate OutcomeIsRight(values: seq<Value>, current: int, limits: Limits, outcome: RowOutcome) {
    && (outcome == RowTaken <==> CellsTaken(values, |values|, current, limits))
    && (outcome == RowStops(MaxCellBytes) <==> OversizedCell(values, current, limits))
    && (outcome == RowStops(MaxResultBytes) <==> OverflowingCell(values, current, limits))
    && (outcome == RowFails <==> UnencodableCell(values, current, limits))
    && (outcome.RowStops? ==> outcome.reason == MaxCellBytes || outcome.reason == MaxResultBytes)
  }

  lemma {:induction false} OutcomeFrom(values: seq<Value>, i: nat, current: int, limits: Limits)
    requires i <= |values| && CellsTaken(values, i, current, limits)
    ensures OutcomeIsRight(values, current, limits, CellsOutcome(values, i, current, RowCost(values[..i]), limits))
    decreases |values| - i
  {
    hide OutcomeIsRight, RowCost, CellsTaken;
    if i < |values| {
      OneMoreCell(values, i);
      TakenOneMore(values, i, current, limits);
      if CellsTaken(values, i + 1, current, limits) {
        OutcomeFrom(values, i + 1, current, limits);
      } else {
        var outcome := CellsOutcome(values, i, current, RowCost(values[..i]), limits);
        FirstUntakenDecides(values, i, current, limits, outcome);
      }
    } else {
      AllTaken(values, current, limits);
    }
  }

  lemma OneMoreCell(values: seq<Value>, i: nat)
    requires i < |values|
    ensures RowCost(values[..i + 1]) == RowCost(values[..i]) + CellCost(values[i])
  {
    assert values[..i + 1][..i] == values[..i];
  }

  lemma TakenOneMore(values: seq<Value>, i: nat, current: int, limits: Limits)
    requires i < |values| && CellsTaken(values, i, current, limits)
    ensures CellsTaken(values, i + 1, current, limits) <==>
            && values[i].Scalar? && values[i].sourceBytes <= limits.maxCellBytes
            && current + RowCost(values[..i + 1]) <= limits.maxResultBytes
  {
    hide RowCost;
    if CellsTaken(values, i + 1, current, limits) {
      assert CellTaken(values, i, current, limits);
    }
  }

  lemma AllTaken(values: seq<Value>, current: int, limits: Limits)
    requires CellsTaken(values, |values|, current, limits)
    ensures OutcomeIsRight(values, current, limits, RowTaken)
  {
    hide RowCost;
    forall k | 0 <= k < |values|
      ensures && values[k].Scalar? && values[k].sourceBytes <= limits.maxCellBytes
              && current + RowCost(values[..k + 1]) <= limits.maxResultBytes
    {
      assert CellTaken(values, k, current, limits);
    }
  }

  lemma FirstUntakenDecides(values: seq<Value>, i: nat, current: int, limits: Limits, outcome: RowOutcome)
    requires i < |values| && CellsTaken(values, i, current, limits) && !CellsTaken(values, i + 1, current, limits)
    requires outcome == if values[i].Unsupported? then RowFails
                        else if values[i].sourceBytes > limits.maxCellBytes then RowStops(MaxCellBytes)
                        else RowStops(MaxResultBytes)
    ensures OutcomeIsRight(values, current, limits, outcome)
  {
    hide RowCost;
    assert !CellTaken(values, i, current, limits);
    forall k | 0 <= k < |values| && CellsTaken(values, k, current, limits)
      ensures k <= i
    {
    }
    forall k | 0 <= k < i
      ensures && values[k].Scalar? && values[k].sourceBytes <= limits.maxCellBytes
              && current + RowCost(values[..k + 1]) <= limits.maxResultBytes
    {
      assert CellTaken(values, k, current, limits);
    }
  }

  /** The wrapped sum that is tested exceeds the budget exactly when the true one does: a sum that wraps comes out
      negative, because the budget already holds the 128 bytes of the envelope. */
  lemma WrapIsNoticed(current: int64, rowBytes: int64, length: nat, maximum: int64)
    requires BASE_OVERHEAD <= current <= maximum && 0 <= rowBytes <= MAX_INT64 - BASE_OVERHEAD && length <= MAX_INT64
    ensures var cellBytes := Add64(Add64(length, CELL_OVERHEAD), 1);
            ExceedsBudget(current, Add64(rowBytes, cellBytes), maximum)
            <==> (current as int) + rowBytes + length + CELL_OVERHEAD + 1 > maximum
  {
  }

  lemma ColumnWrapIsNoticed(current: int64, length: nat, maximum: int64)
    requires BASE_OVERHEAD <= current <= maximum && length <= MAX_INT64
    ensures ExceedsBudget(current, Add64(length, COLUMN_OVERHEAD), maximum)
            <==> (current as int) + length + COLUMN_OVERHEAD > maximum
  {
  }

  /** Without the envelope's bytes in the budget, a cell just below 2^63 bytes could wrap to a small positive sum. */
  lemma EnvelopeIsNeededAgainstWrapping()
    ensures var rowBytes: int64, length := MAX_INT64 - 50, MAX_INT64;
            !ExceedsBudget(0, Add64(rowBytes, Add64(Add64(length, CELL_OVERHEAD), 1)), MAX_INT64)
  {
  }

  method ScanRow(values: seq<Value>, current: int64, limits: Limits)
    returns (outcome: RowOutcome, encoded: seq<string>, rowBytes: int64)
    requires LengthsFit(values) && (values != [] ==> BASE_OVERHEAD <= current <= limits.maxResultBytes)
    ensures outcome == CellsOutcome(values, 0, current, ROW_OVERHEAD + 2, limits)
    ensures OutcomeIsRight(values, current, limits, outcome)
    ensures outcome == RowTaken ==> AllScalar(values) && encoded == Jsons(values) && rowBytes == RowCost(values)
    ensures outcome == RowTaken && values != [] ==> (current as int) + rowBytes <= limits.maxResultBytes
  {
    hide OutcomeIsRight;
    assert values[..0] == [];
    OutcomeFrom(values, 0, current, limits);
    encoded := [];
    rowBytes := ROW_OVERHEAD + 2;
    var i := 0;
    while i < |values|
      invariant 0 <= i <= |values| && AllScalar(values[..i]) && encoded == Jsons(values[..i])
      invariant rowBytes == RowCost(values[..i])
      invariant i > 0 ==> (current as int) + rowBytes <= limits.maxResultBytes
      invariant CellsOutcome(values, i, current, rowBytes, limits)
                == CellsOutcome(values, 0, current, ROW_OVERHEAD + 2, limits)
    {
      if values[i].Unsupported? {
        return RowFails, [], 0;
      }
      if values[i].sourceBytes > limits.maxCellBytes {
        return RowStops(MaxCellBytes), [], 0;
      }
      var cellBytes := Add64(Add64(|values[i].json|, CELL_OVERHEAD), 1);
      WrapIsNoticed(current, rowBytes, |values[i].json|, limits.maxResultBytes);
      if ExceedsBudget(current, Add64(rowBytes, cellBytes), limits.maxResultBytes) {
        return RowStops(MaxResultBytes), [], 0;
      }
      assert values[..i + 1][..i] == values[..i];
      rowBytes := Add64(rowBytes, cellBytes);
      encoded := encoded + [values[i].json];
      i := i + 1;
    }
    assert values[..i] == values;
    return RowTaken, encoded, rowBytes;
  }

  /** A row is taken exactly when it fits. */
  lemma {:induction false} TakenMeansFits(values: seq<Value>, i: nat, current: int, limits: Limits)
    requires i <= |values| && CellsFit(values[..i], limits)
    requires i > 0 ==> current + RowCost(values[..i]) <= limits.maxResultBytes
    ensures CellsOutcome(values, i, current, RowCost(values[..i]), limits) == RowTaken <==>
            CellsFit(values, limits) && (values != [] ==> current + RowCost(values) <= limits.maxResultBytes)
    decreases |values| - i
  {
    if i == |values| {
      assert values[..i] == values;
    } else {
      assert values[..i + 1][..i] == values[..i];
      assert values[..i + 1] == values[..i] + [values[i]];
      CostGrows(values, i + 1);
      if CellsFit(values[..i + 1], limits) && current + RowCost(values[..i + 1]) <= limits.maxResultBytes {
        TakenMeansFits(values, i + 1, current, limits);
      } else if !CellsFit(values[..i + 1], limits) {
        assert !CellsFit(values, limits);
      }
    }
  }

  lemma {:induction false} CostGrows(values: seq<Value>, i: nat)
    requires i <= |values|
    ensures RowCost(values[..i]) <= RowCost(values)
    decreases |values|
  {
    if i == |values| {
      assert values[..i] == values;
    } else {
      var shorter := values[..|values| - 1];
      CostGrows(shorter, i);
      assert shorter[..i] == values[..i];
    }
  }

  /////////////////////////////////////////////// the whole scan

  /** Whatever happens, errors included: no more columns and rows than the limits allow. */
  ghost predicate WithinLimits(src: Source, limits: Limits, r: QueryResult) {
    && |r.columns| <= |src.columns| && |r.columns| <= limits.maxColumns && r.columns == src.columns[..|r.columns|]
    && (r.columns != [] ==> ColumnsFit(src, limits, |r.columns|))
    && RowsArePrefix(src, limits, r.rows)
  }

  /** Why an error-free result was cut. A column cap yields to whatever actually stopped the scan. */
  ghost predicate ReasonIsRight(src: Source, limits: Limits, r: QueryResult)
    requires |r.rows| <= |src.rows|
  {
    var visible := if |src.columns| > limits.maxColumns then limits.maxColumns else |src.columns|;
    r.reason == (
      if !r.truncated then NoReason
      else if !ColumnsFit(src, limits, visible) then MaxResultBytes
      else if |src.columns| > limits.maxColumns then MaxColumns
      else if |r.rows| >= limits.maxRows || |r.rows| == |src.rows| || src.rows[|r.rows|].Unreadable? then MaxRows
      else if OversizedCell(src.rows[|r.rows|].values, Spent(src.columns, src.rows[..|r.rows|]), limits) then
        MaxCellBytes
      else MaxResultBytes)
  }

  /** The rows, errors or not: whole rows of the source, and no fewer than the limits allow. */
  ghost predicate RowsAreLongest(src: Source, limits: Limits, r: QueryResult) {
    && ColumnsAreRight(src, limits, r.columns) && RowsArePrefix(src, limits, r.rows)
    && (AllColumnsReturned(src, limits) && |r.rows| < |src.rows| && |r.rows| < limits.maxRows ==>
          !RowFits(src, limits, |r.rows|))
  }

  /** The scan wanted the row after those returned. */
  ghost predicate WantsRow(src: Source, limits: Limits, r: QueryResult) {
    AllColumnsReturned(src, limits) && |r.rows| < |src.rows| && |r.rows| < limits.maxRows
  }

  /** The error that is reported: the first failure the scan runs into. */
  ghost predicate ErrorIsRight(src: Source, limits: Limits, o: Outcome) {
    var n := |o.result.rows|;
    o.error == (
      if src.columnTypesFail then Some(ColumnTypesError)
      else if WantsRow(src, limits, o.result) && src.rows[n].Unreadable? then Some(ScanFailed)
      else if WantsRow(src, limits, o.result)
              && UnencodableCell(src.rows[n].values, Spent(src.columns, src.rows[..n]), limits) then
        Some(UnsupportedValue)
      else if AllColumnsReturned(src, limits) && n == |src.rows| && src.iterationFails then Some(IterationError)
      else if src.closeFails then Some(CloseError)
      else None)
  }

  /** What a scan comes to, to the last bit: the result is the exact scan unless a failure cut it short, and then it is
      the rows before the failure, with no truncation to report. */
  ghost predicate IsOutcome(src: Source, limits: Limits, o: Outcome) {
    && ErrorIsRight(src, limits, o)
    && if o.error == Some(ColumnTypesError) then o.result == QueryResult([], [], false, NoReason)
       else
         && RowsAreLongest(src, limits, o.result)
         && if o.error.None? || o.error == Some(CloseError) then
              IsScan(src, limits, o.result) && ReasonIsRight(src, limits, o.result)
            else
              !o.result.truncated && o.result.reason == NoReason
  }

  /** What a caller may conclude from the reason of a result, whatever the closing of the rows came to. */
  lemma ReasonSaysWhy(src: Source, limits: Limits, o: Outcome)
    requires WellFormed(src) && IsOutcome(src, limits, o) && (o.error.None? || o.error == Some(CloseError))
    ensures var r := o.result;
            match r.reason
            case NoReason => !r.truncated && |r.columns| == |src.columns| && |r.rows| == |src.rows|
            case MaxRows => |r.columns| == |src.columns| && |r.rows| == limits.maxRows < |src.rows|
            case MaxColumns => |r.columns| == limits.maxColumns < |src.columns| && r.rows == []
            case MaxCellBytes => NextRow(src, r).Some? && OversizedCell(NextRow(src, r).value, SpentOn(src, r), limits)
            case MaxResultBytes =>
              || limits.maxResultBytes < BASE_OVERHEAD
              || (|r.columns| < |src.columns| && !ColumnsFit(src, limits, |r.columns| + 1))
              || (NextRow(src, r).Some? && OverflowingCell(NextRow(src, r).value, SpentOn(src, r), limits))
  {
    hide ColumnsCost, RowsCost, CellsOutcome, LengthsFit, CellsFit, OversizedCell, OverflowingCell;
    var r := o.result;
    assert src.columns[..|src.columns|] == src.columns && src.columns[..0] == [];
    if AllColumnsReturned(src, limits) {
      if |r.columns| < |src.columns| {
        ColumnsCostGrows(src, |r.columns| + 1, |src.columns|);
      }
      if WantsRow(src, limits, r) {
        NextRowStops(src, limits, r);
      }
    } else {
      var visible := if |src.columns| > limits.maxColumns then limits.maxColumns else |src.columns|;
      ColumnsCutWhere(src, limits, r.columns, visible);
    }
  }

  /** The cells of the row after those returned. */
  ghost function NextRow(src: Source, r: QueryResult): Option<seq<Value>> {
    if |r.rows| < |src.rows| && src.rows[|r.rows|].Readable? then Some(src.rows[|r.rows|].values) else None
  }

  ghost function SpentOn(src: Source, r: QueryResult): nat
    requires |r.rows| <= |src.rows|
  {
    Spent(src.columns, src.rows[..|r.rows|])
  }

  lemma NextRowStops(src: Source, limits: Limits, r: QueryResult)
    requires WellFormed(src) && RowsAreLongest(src, limits, r) && WantsRow(src, limits, r)
    requires src.rows[|r.rows|].Readable?
    requires !UnencodableCell(src.rows[|r.rows|].values, Spent(src.columns, src.rows[..|r.rows|]), limits)
    ensures var values, current := src.rows[|r.rows|].values, Spent(src.columns, src.rows[..|r.rows|]);
            OversizedCell(values, current, limits) || OverflowingCell(values, current, limits)
  {
    hide ColumnsCost, RowsCost, CellsOutcome, LengthsFit, CellsFit, OversizedCell, OverflowingCell, UnencodableCell;
    var values, current := src.rows[|r.rows|].values, Spent(src.columns, src.rows[..|r.rows|]);
    RowFitsWhenTaken(src, limits, |r.rows|, current);
    assert values[..0] == [];
    OutcomeFrom(values, 0, current, limits);
  }

  /** With columns missing, either the cap on columns was reached or the next one does not fit. */
  lemma ColumnsCutWhere(src: Source, limits: Limits, columns: seq<string>, visible: nat)
    requires ColumnsAreRight(src, limits, columns) && visible <= |src.columns|
    requires visible == if |src.columns| > limits.maxColumns then limits.maxColumns else |src.columns|
    ensures BASE_OVERHEAD <= limits.maxResultBytes && !ColumnsFit(src, limits, visible) ==>
              |columns| < visible && !ColumnsFit(src, limits, |columns| + 1)
    ensures ColumnsFit(src, limits, visible) ==> |columns| == visible
  {
    hide ColumnsCost;
    assert src.columns[..0] == [];
    EmptyColumnsCost();
    if |columns| < visible {
      ColumnsCostGrows(src, |columns| + 1, visible);
    }
  }

  lemma EmptyColumnsCost()
    ensures ColumnsCost([]) == 0
  {
  }

  lemma OneMoreColumn(src: Source, m: nat)
    requires m < |src.columns|
    ensures ColumnsCost(src.columns[..m + 1]) == ColumnsCost(src.columns[..m]) + |src.columns[m]| + COLUMN_OVERHEAD
  {
    assert src.columns[..m + 1][..m] == src.columns[..m];
  }

  lemma {:induction false} ColumnsCostGrows(src: Source, m: nat, n: nat)
    requires m <= n <= |src.columns|
    ensures ColumnsCost(src.columns[..m]) <= ColumnsCost(src.columns[..n])
    decreases n
  {
    if m < n {
      OneMoreColumn(src, n - 1);
      ColumnsCostGrows(src, m, n - 1);
    }
  }

  lemma OneMoreRow(src: Source, n: nat)
    requires n < |src.rows| && src.rows[n].Readable?
    ensures Spent(src.columns, src.rows[..n + 1]) == Spent(src.columns, src.rows[..n]) + RowCost(src.rows[n].values)
  {
    assert src.rows[..n + 1][..n] == src.rows[..n];
  }

  lemma RowFitsWhenTaken(src: Source, limits: Limits, n: nat, current: int)
    requires n < |src.rows| && src.rows[n].Readable?
    requires src.columns != [] && |src.rows[n].values| == |src.columns| ==> current == Spent(src.columns, src.rows[..n])
    requires |src.rows[n].values| == |src.columns|
    ensures RowFits(src, limits, n) <==>
            CellsOutcome(src.rows[n].values, 0, current, ROW_OVERHEAD + 2, limits) == RowTaken
  {
    var values := src.rows[n].values;
    assert values[..0] == [];
    TakenMeansFits(values, 0, current, limits);
    OneMoreRow(src, n);
  }

  /** The columns part: how many come back, what they cost, and whether the budget ran out among them. */
  method ScanColumns(src: Source, limits: Limits, visible: nat)
    returns (columns: seq<string>, resultBytes: int64, exceeded: bool)
    requires WellFormed(src) && visible <= |src.columns| && BASE_OVERHEAD <= limits.maxResultBytes
    ensures |columns| <= visible && columns == src.columns[..|columns|]
    ensures resultBytes == BASE_OVERHEAD + ColumnsCost(columns) <= limits.maxResultBytes
    ensures exceeded ==> |columns| < visible && !ColumnsFit(src, limits, |columns| + 1)
    ensures !exceeded ==> |columns| == visible
  {
    columns := [];
    resultBytes := BASE_OVERHEAD;
    var i := 0;
    while i < visible
      invariant 0 <= i <= visible && columns == src.columns[..i]
      invariant resultBytes == BASE_OVERHEAD + ColumnsCost(columns) <= limits.maxResultBytes
    {
      OneMoreColumn(src, i);
      var columnBytes := Add64(|src.columns[i]|, COLUMN_OVERHEAD);
      ColumnWrapIsNoticed(resultBytes, |src.columns[i]|, limits.maxResultBytes);
      if ExceedsBudget(resultBytes, columnBytes, limits.maxResultBytes) {
        exceeded := true;
        return;
      }
      resultBytes := Add64(resultBytes, columnBytes);
      columns := columns + [src.columns[i]];
      i := i + 1;
    }
    exceeded := false;
  }

  method ScanRows(src: Source, limits: Limits) returns (o: Outcome)
    requires WellFormed(src) && 0 <= limits.maxResultBytes
    ensures WithinLimits(src, limits, o.result)
    ensures o.result.reason != NoReason ==> o.result.truncated
    ensures Clean(src) ==> o.error.None?
    ensures o.error.None? ==> IsScan(src, limits, o.result) && ReasonIsRight(src, limits, o.result)
    ensures IsOutcome(src, limits, o)
  {
    hide CellsCost, ColumnsCost, RowsCost, CellsOutcome, LengthsFit;
    var r := QueryResult([], [], false, NoReason);
    if src.columnTypesFail {
      return Outcome(r, Some(ColumnTypesError));
    }
    var visible := |src.columns|;
    if visible > limits.maxColumns {
      visible := limits.maxColumns;
      r := MarkTruncated(r, MaxColumns);
    }
    if BASE_OVERHEAD > limits.maxResultBytes {
      r := MarkTruncated(r, MaxResultBytes);
      return Outcome(r, if src.closeFails then Some(CloseError) else None);
    }
    var columns, resultBytes, exceeded := ScanColumns(src, limits, visible);
    r := r.(columns := columns);
    if exceeded {
      r := MarkTruncated(r, MaxResultBytes);
      ColumnsCostGrows(src, |columns| + 1, visible);
      ColumnsCostGrows(src, |columns| + 1, |src.columns|);
      return Outcome(r, if src.closeFails then Some(CloseError) else None);
    }
    if |src.columns| > limits.maxColumns {
      return Outcome(r, if src.closeFails then Some(CloseError) else None);
    }
    assert columns == src.columns;
    o := ScanBody(src, limits, r, resultBytes);
  }

  /** The row loop. */
  method ScanBody(src: Source, limits: Limits, start: QueryResult, columnBytes: int64) returns (o: Outcome)
    requires WellFormed(src) && 0 <= limits.maxResultBytes && !src.columnTypesFail
    requires start == QueryResult(src.columns, [], false, NoReason) && AllColumnsReturned(src, limits)
    requires columnBytes == BASE_OVERHEAD + ColumnsCost(src.columns)
    ensures WithinLimits(src, limits, o.result)
    ensures o.result.reason != NoReason ==> o.result.truncated
    ensures Clean(src) ==> o.error.None?
    ensures o.error.None? ==> IsScan(src, limits, o.result) && ReasonIsRight(src, limits, o.result)
    ensures IsOutcome(src, limits, o)
  {
    hide CellsCost, ColumnsCost, CellsOutcome, LengthsFit;
    assert src.columns[..|src.columns|] == src.columns;
    var r := start;
    var resultBytes: int64 := columnBytes;
    var next := 0;
    while next < |src.rows|
      invariant 0 <= next <= |src.rows| && |r.rows| == next
      invariant r == start.(rows := r.rows) && RowsArePrefix(src, limits, r.rows)
      invariant src.columns != [] ==>
                  resultBytes == Spent(src.columns, src.rows[..next]) && resultBytes <= limits.maxResultBytes
    {
      if |r.rows| >= limits.maxRows {
        r := MarkTruncated(r, MaxRows);
        break;
      }
      if src.rows[next].Unreadable? {
        return Outcome(r, Some(ScanFailed));
      }
      var values := src.rows[next].values;
      var outcome, encoded, rowBytes := ScanRow(values, resultBytes, limits);
      RowFitsWhenTaken(src, limits, next, resultBytes);
      match outcome {
        case RowFails =>
          CleanNeverFails(src, limits, next, resultBytes);
          return Outcome(r, Some(UnsupportedValue));
        case RowStops(reason) =>
          r := MarkTruncated(r, reason);
          EmptyRowNeverStops(values, resultBytes, limits);
          break;
        case RowTaken =>
          OneMoreRow(src, next);
          resultBytes := Add64(resultBytes, rowBytes);
          r := r.(rows := r.rows + [encoded]);
          next := next + 1;
      }
    }
    if next == |src.rows| && src.iterationFails {
      return Outcome(r, Some(IterationError));
    }
    if src.closeFails {
      return Outcome(r, Some(CloseError));
    }
    return Outcome(r, None);
  }

  lemma EmptyRowNeverStops(values: seq<Value>, current: int, limits: Limits)
    requires CellsOutcome(values, 0, current, ROW_OVERHEAD + 2, limits) != RowTaken
    ensures values != []
  {
  }

  lemma {:induction false} ScalarsNeverFail(values: seq<Value>, i: nat, current: int, rowBytes: nat, limits: Limits)
    requires i <= |values| && AllScalar(values)
    ensures CellsOutcome(values, i, current, rowBytes, limits) != RowFails
    decreases |values| - i
  {
    if i < |values| {
      ScalarsNeverFail(values, i + 1, current, rowBytes + CellCost(values[i]), limits);
    }
  }

  lemma CleanNeverFails(src: Source, limits: Limits, n: nat, current: int)
    requires n < |src.rows| && src.rows[n].Readable?
    requires CellsOutcome(src.rows[n].values, 0, current, ROW_OVERHEAD + 2, limits) == RowFails
    ensures !Clean(src)
  {
    if Clean(src) {
      ScalarsNeverFail(src.rows[n].values, 0, current, ROW_OVERHEAD + 2, limits);
    }
  }
}
