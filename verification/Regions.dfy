/** The two scanners cut the input into the same lexical regions, up to the first unsafe comment. */
module Regions {
  import opened Utf8
  import opened Lexer

  datatype Region = Sql | SingleQuoted | DoubleQuoted | BacktickQuoted | InLine | InBlock

  function Run(r: Region, n: nat): (rs: seq<Region>)
    ensures |rs| == n
  {
    seq(n, _ => r)
  }

  lemma RunsJoin(r: Region, m: nat, n: nat, rest: seq<Region>)
    ensures Run(r, m) + (Run(r, n) + rest) == Run(r, m + n) + rest
  {
  }

  function RegionOf(st: State): Region {
    match st
    case InSql => Sql
    case InSingleQuote => SingleQuoted
    case InDoubleQuote => DoubleQuoted
    case InBacktick => BacktickQuoted
    case InLineComment => InLine
    case InBlockComment => InBlock
  }

  /** The region of the bytes a machine step consumes. Delimiters belong to what they delimit; the line break that
      ends a line comment does not, it is whitespace of the SQL that follows. */
  function StepRegion(from: State, to: State): Region {
    if from == InSql || (from == InLineComment && to == InSql) then RegionOf(to) else RegionOf(from)
  }

  /** The state machine's labelling of the bytes from `i` on, until it stops at an unsafe comment. */
  function MachineRegions(sql: seq<byte>, i: nat, st: State, escapes: bool): seq<Region>
    requires i <= |sql|
    decreases |sql| - i
  {
    if i == |sql| || (st == InSql && UnsafeCommentAt(sql, i)) then []
    else
      var r := Step(sql, i, st, escapes);
      Run(StepRegion(st, r.0), r.1 - i) + MachineRegions(sql, r.1, r.0, escapes)
  }

  function UnitRegion(u: Unit): Region {
    match u.kind
    case LineComment => InLine
    case BlockComment => InBlock
    case Text(quote) => if quote == SINGLE_QUOTE then SingleQuoted else DoubleQuoted
    case Identifier(_, _) => BacktickQuoted
    case _ => Sql
  }

  /** The skip-function scanner's labelling, stopped in the same place. */
  function UnitRegions(sql: seq<byte>, i: nat, escapes: bool): seq<Region>
    requires i <= |sql|
    decreases |sql| - i
  {
    if i == |sql| || UnsafeCommentAt(sql, i) then []
    else
      var u := UnitAt(sql, i, escapes);
      Run(UnitRegion(u), u.end - i) + UnitRegions(sql, u.end, escapes)
  }

  lemma MachineStep(sql: seq<byte>, i: nat, st: State, escapes: bool, to: State, next: nat)
    requires i < |sql| && !(st == InSql && UnsafeCommentAt(sql, i)) && Step(sql, i, st, escapes) == (to, next)
    ensures MachineRegions(sql, i, st, escapes)
            == Run(StepRegion(st, to), next - i) + MachineRegions(sql, next, to, escapes)
  {
    hide Step, Run;
  }

  lemma MachineAtEnd(sql: seq<byte>, st: State, escapes: bool)
    ensures MachineRegions(sql, |sql|, st, escapes) == []
  {
  }

  /** From inside a comment or quotes, one step that stays there and a run from the next position make a longer run. */
  lemma ExtendRun(sql: seq<byte>, i: nat, st: State, escapes: bool, next: nat, end: nat)
    requires i < next <= end <= |sql| && (st == InSql ==> !UnsafeCommentAt(sql, i))
    requires Step(sql, i, st, escapes) == (st, next)
    requires MachineRegions(sql, next, st, escapes)
             == Run(RegionOf(st), end - next) + MachineRegions(sql, end, InSql, escapes)
    ensures MachineRegions(sql, i, st, escapes)
            == Run(RegionOf(st), end - i) + MachineRegions(sql, end, InSql, escapes)
  {
    hide MachineRegions, Step, Run;
    MachineStep(sql, i, st, escapes, st, next);
    RunsJoin(RegionOf(st), next - i, end - next, MachineRegions(sql, end, InSql, escapes));
  }

  lemma EmptyRun(r: Region, rest: seq<Region>)
    ensures Run(r, 0) + rest == rest
  {
  }

  lemma {:induction false} LineRun(sql: seq<byte>, i: nat, escapes: bool)
    requires i <= |sql|
    ensures MachineRegions(sql, i, InLineComment, escapes)
            == Run(InLine, LineEnd(sql, i) - i) + MachineRegions(sql, LineEnd(sql, i), InSql, escapes)
    decreases |sql| - i
  {
    hide MachineRegions, Run;
    EmptyRun(InLine, MachineRegions(sql, i, InSql, escapes));
    if i == |sql| {
      MachineAtEnd(sql, InLineComment, escapes);
      MachineAtEnd(sql, InSql, escapes);
    } else if IsLineBreak(sql[i]) {
      MachineStep(sql, i, InLineComment, escapes, InSql, i + 1);
      MachineStep(sql, i, InSql, escapes, InSql, i + 1);
    } else {
      LineRun(sql, i + 1, escapes);
      ExtendRun(sql, i, InLineComment, escapes, i + 1, LineEnd(sql, i));
    }
  }

  lemma {:induction false} BlockRun(sql: seq<byte>, i: nat, escapes: bool)
    requires i <= |sql|
    ensures MachineRegions(sql, i, InBlockComment, escapes)
            == Run(InBlock, BlockEnd(sql, i) - i) + MachineRegions(sql, BlockEnd(sql, i), InSql, escapes)
    decreases |sql| - i
  {
    hide MachineRegions, Run;
    if i == |sql| {
      EmptyRun(InBlock, MachineRegions(sql, i, InSql, escapes));
      MachineAtEnd(sql, InBlockComment, escapes);
      MachineAtEnd(sql, InSql, escapes);
    } else if BlockCloseAt(sql, i) {
      MachineStep(sql, i, InBlockComment, escapes, InSql, i + 2);
    } else {
      BlockRun(sql, i + 1, escapes);
      ExtendRun(sql, i, InBlockComment, escapes, i + 1, BlockEnd(sql, i));
    }
  }

  /** In quotes the machine stays where the string goes on, and leaves where it ends. */
  lemma StepsThroughString(sql: seq<byte>, i: nat, st: State, quote: byte, escapes: bool)
    requires i < |sql|
    requires (st == InSingleQuote && quote == SINGLE_QUOTE) || (st == InDoubleQuote && quote == DOUBLE_QUOTE)
    ensures var r, end := Step(sql, i, st, escapes), QuotedEnd(sql, i, quote, escapes);
            if r.0 == st then end == QuotedEnd(sql, r.1, quote, escapes) else r == (InSql, end)
  {
  }

  lemma {:induction false} QuotedRun(sql: seq<byte>, i: nat, st: State, quote: byte, escapes: bool)
    requires i <= |sql|
    requires (st == InSingleQuote && quote == SINGLE_QUOTE) || (st == InDoubleQuote && quote == DOUBLE_QUOTE)
    ensures var end := QuotedEnd(sql, i, quote, escapes);
            MachineRegions(sql, i, st, escapes) == Run(RegionOf(st), end - i) + MachineRegions(sql, end, InSql, escapes)
    decreases |sql| - i
  {
    hide MachineRegions, Run, Step, QuotedEnd;
    if i == |sql| {
      EmptyRun(RegionOf(st), MachineRegions(sql, i, InSql, escapes));
      MachineAtEnd(sql, st, escapes);
      MachineAtEnd(sql, InSql, escapes);
    } else {
      var r := Step(sql, i, st, escapes);
      StepsThroughString(sql, i, st, quote, escapes);
      if r.0 == st {
        QuotedRun(sql, r.1, st, quote, escapes);
        ExtendRun(sql, i, st, escapes, r.1, QuotedEnd(sql, i, quote, escapes));
      } else {
        MachineStep(sql, i, st, escapes, InSql, r.1);
      }
    }
  }

  lemma {:induction false} BacktickRun(sql: seq<byte>, i: nat, escapes: bool)
    requires i <= |sql|
    ensures var end := BacktickFrom(sql, i).next;
            MachineRegions(sql, i, InBacktick, escapes)
            == Run(BacktickQuoted, end - i) + MachineRegions(sql, end, InSql, escapes)
    decreases |sql| - i
  {
    hide MachineRegions, Run;
    if i == |sql| {
      EmptyRun(BacktickQuoted, MachineRegions(sql, i, InSql, escapes));
      MachineAtEnd(sql, InBacktick, escapes);
      MachineAtEnd(sql, InSql, escapes);
    } else {
      var r := StepInQuotes(sql, i, InBacktick, BACKTICK, false);
      assert Step(sql, i, InBacktick, escapes) == r;
      if r.0 == InBacktick {
        BacktickRun(sql, r.1, escapes);
        ExtendRun(sql, i, InBacktick, escapes, r.1, BacktickFrom(sql, i).next);
      } else {
        MachineStep(sql, i, InBacktick, escapes, InSql, r.1);
      }
    }
  }

  lemma {:induction false} WordRun(sql: seq<byte>, i: nat, escapes: bool)
    requires i <= |sql|
    ensures MachineRegions(sql, i, InSql, escapes)
            == Run(Sql, WordEnd(sql, i) - i) + MachineRegions(sql, WordEnd(sql, i), InSql, escapes)
    decreases |sql| - i
  {
    hide MachineRegions, Run;
    if i < |sql| && IsIdentifierPart(sql[i]) {
      assert Step(sql, i, InSql, escapes) == (InSql, i + 1);
      WordRun(sql, i + 1, escapes);
      ExtendRun(sql, i, InSql, escapes, i + 1, WordEnd(sql, i));
    } else {
      EmptyRun(Sql, MachineRegions(sql, i, InSql, escapes));
    }
  }

  /** The machine crosses the unit at `i` from SQL state to SQL state and gives it the unit's one label. */
  ghost predicate CrossesUnit(sql: seq<byte>, i: nat, escapes: bool)
    requires i < |sql|
  {
    var u := UnitAt(sql, i, escapes);
    MachineRegions(sql, i, InSql, escapes)
    == Run(UnitRegion(u), u.end - i) + MachineRegions(sql, u.end, InSql, escapes)
  }

  /** It is enough that the machine's first step enters the unit's region and the steps after it stay there. */
  lemma CrossesFromEntry(sql: seq<byte>, i: nat, escapes: bool, st: State, next: nat)
    requires i < |sql| && !UnsafeCommentAt(sql, i)
    requires Step(sql, i, InSql, escapes) == (st, next)
    requires var u := UnitAt(sql, i, escapes);
             && next <= u.end && StepRegion(InSql, st) == UnitRegion(u)
             && MachineRegions(sql, next, st, escapes)
                == Run(UnitRegion(u), u.end - next) + MachineRegions(sql, u.end, InSql, escapes)
    ensures CrossesUnit(sql, i, escapes)
  {
    hide MachineRegions, Step, Run, UnitAt;
    var u := UnitAt(sql, i, escapes);
    MachineStep(sql, i, InSql, escapes, st, next);
    RunsJoin(UnitRegion(u), next - i, u.end - next, MachineRegions(sql, u.end, InSql, escapes));
  }

  lemma CrossesLineComment(sql: seq<byte>, i: nat, escapes: bool)
    requires i < |sql| && !UnsafeCommentAt(sql, i) && UnitAt(sql, i, escapes).kind.LineComment?
    ensures CrossesUnit(sql, i, escapes)
  {
    hide MachineRegions, Run;
    var r := Step(sql, i, InSql, escapes);
    LineRun(sql, r.1, escapes);
    CrossesFromEntry(sql, i, escapes, r.0, r.1);
  }

  lemma CrossesBlockComment(sql: seq<byte>, i: nat, escapes: bool)
    requires i < |sql| && !UnsafeCommentAt(sql, i) && UnitAt(sql, i, escapes).kind.BlockComment?
    ensures CrossesUnit(sql, i, escapes)
  {
    hide MachineRegions, Run;
    var r := Step(sql, i, InSql, escapes);
    BlockRun(sql, r.1, escapes);
    CrossesFromEntry(sql, i, escapes, r.0, r.1);
  }

  lemma CrossesText(sql: seq<byte>, i: nat, escapes: bool)
    requires i < |sql| && !UnsafeCommentAt(sql, i) && UnitAt(sql, i, escapes).kind.Text?
    ensures CrossesUnit(sql, i, escapes)
  {
    hide MachineRegions, Run;
    var r := Step(sql, i, InSql, escapes);
    QuotedRun(sql, r.1, r.0, sql[i], escapes);
    CrossesFromEntry(sql, i, escapes, r.0, r.1);
  }

  lemma CrossesIdentifier(sql: seq<byte>, i: nat, escapes: bool)
    requires i < |sql| && !UnsafeCommentAt(sql, i) && UnitAt(sql, i, escapes).kind.Identifier?
    ensures CrossesUnit(sql, i, escapes)
  {
    hide MachineRegions, Run;
    var r := Step(sql, i, InSql, escapes);
    BacktickRun(sql, r.1, escapes);
    CrossesFromEntry(sql, i, escapes, r.0, r.1);
  }

  lemma CrossesWord(sql: seq<byte>, i: nat, escapes: bool)
    requires i < |sql| && !UnsafeCommentAt(sql, i) && UnitAt(sql, i, escapes).kind.Word?
    ensures CrossesUnit(sql, i, escapes)
  {
    hide MachineRegions, Run;
    var r := Step(sql, i, InSql, escapes);
    WordRun(sql, r.1, escapes);
    CrossesFromEntry(sql, i, escapes, r.0, r.1);
  }

  lemma CrossesOther(sql: seq<byte>, i: nat, escapes: bool)
    requires i < |sql| && !UnsafeCommentAt(sql, i)
    requires UnitAt(sql, i, escapes).kind.Space? || UnitAt(sql, i, escapes).kind.Other?
    ensures CrossesUnit(sql, i, escapes)
  {
    hide MachineRegions, Run;
    var r := Step(sql, i, InSql, escapes);
    assert r == (InSql, i + 1);
    CrossesFromEntry(sql, i, escapes, r.0, r.1);
  }

  lemma UnitRun(sql: seq<byte>, i: nat, escapes: bool)
    requires i < |sql| && !UnsafeCommentAt(sql, i)
    ensures CrossesUnit(sql, i, escapes)
  {
    match UnitAt(sql, i, escapes).kind {
      case LineComment => CrossesLineComment(sql, i, escapes);
      case BlockComment => CrossesBlockComment(sql, i, escapes);
      case Text(_) => CrossesText(sql, i, escapes);
      case Identifier(_, _) => CrossesIdentifier(sql, i, escapes);
      case Word => CrossesWord(sql, i, escapes);
      case _ => CrossesOther(sql, i, escapes);
    }
  }

  lemma {:induction false} SameRegions(sql: seq<byte>, i: nat, escapes: bool)
    requires i <= |sql|
    ensures MachineRegions(sql, i, InSql, escapes) == UnitRegions(sql, i, escapes)
    decreases |sql| - i
  {
    if i < |sql| && !UnsafeCommentAt(sql, i) {
      UnitRun(sql, i, escapes);
      SameRegions(sql, UnitAt(sql, i, escapes).end, escapes);
    }
  }

  lemma {:induction false} RegionsReachFirstUnsafe(sql: seq<byte>, i: nat, st: State, escapes: bool)
    requires i <= |sql|
    ensures i + |MachineRegions(sql, i, st, escapes)| == FirstUnsafe(sql, i, st, escapes)
    decreases |sql| - i
  {
    if i < |sql| && !(st == InSql && UnsafeCommentAt(sql, i)) {
      var r := Step(sql, i, st, escapes);
      RegionsReachFirstUnsafe(sql, r.1, r.0, escapes);
    }
  }

  /** Unit `k` starts at `at` and is the first that opens an unsafe comment. */
  ghost predicate IsFirstUnsafe(sql: seq<byte>, us: seq<Unit>, k: nat, at: nat) {
    && k < |us| && us[k].start == at && UnsafeCommentAt(sql, at)
    && forall j :: 0 <= j < k ==> !UnsafeCommentAt(sql, us[j].start)
  }

  /** `at` is where the first of the units that opens an unsafe comment starts, or the end of the input. */
  ghost predicate StopsAtFirstUnsafe(sql: seq<byte>, us: seq<Unit>, at: nat) {
    if at == |sql| then forall k :: 0 <= k < |us| ==> !UnsafeCommentAt(sql, us[k].start)
    else exists k: nat :: IsFirstUnsafe(sql, us, k, at)
  }

  lemma StopsAtHead(sql: seq<byte>, us: seq<Unit>, at: nat)
    requires us != [] && us[0].start == at < |sql| && UnsafeCommentAt(sql, at)
    ensures StopsAtFirstUnsafe(sql, us, at)
  {
    assert IsFirstUnsafe(sql, us, 0, at);
  }

  lemma StopsInTail(sql: seq<byte>, u: Unit, us: seq<Unit>, at: nat)
    requires !UnsafeCommentAt(sql, u.start) && StopsAtFirstUnsafe(sql, us, at)
    ensures StopsAtFirstUnsafe(sql, [u] + us, at)
  {
    hide UnsafeCommentAt;
    assert forall k :: 0 <= k < |us| ==> ([u] + us)[k + 1] == us[k];
    if at != |sql| {
      var k: nat :| IsFirstUnsafe(sql, us, k, at);
      assert IsFirstUnsafe(sql, [u] + us, k + 1, at);
    }
  }

  lemma {:induction false} UnitsReachFirstUnsafe(sql: seq<byte>, i: nat, escapes: bool)
    requires i <= |sql|
    ensures StopsAtFirstUnsafe(sql, Units(sql, i, escapes), i + |UnitRegions(sql, i, escapes)|)
    decreases |sql| - i
  {
    hide StopsAtFirstUnsafe, UnitAt;
    if i == |sql| {
      assert StopsAtFirstUnsafe(sql, [], |sql|) by {
        NoUnits(sql);
      }
    } else if UnsafeCommentAt(sql, i) {
      StopsAtHead(sql, Units(sql, i, escapes), i);
    } else {
      var u := UnitAt(sql, i, escapes);
      UnitsReachFirstUnsafe(sql, u.end, escapes);
      StopsInTail(sql, u, Units(sql, u.end, escapes), u.end + |UnitRegions(sql, u.end, escapes)|);
    }
  }

  lemma NoUnits(sql: seq<byte>)
    ensures StopsAtFirstUnsafe(sql, [], |sql|)
  {
  }

  /**
    * The scanners agree. In either backslash mode, the state machine stops exactly at the first unit of the other
    * scanner that opens an unsafe comment (or at the end of the input), and both label every byte before it alike.
    */
  lemma ScannersAgree(sql: seq<byte>, escapes: bool)
    ensures MachineRegions(sql, 0, InSql, escapes) == UnitRegions(sql, 0, escapes)
    ensures var at := FirstUnsafe(sql, 0, InSql, escapes);
            |UnitRegions(sql, 0, escapes)| == at && StopsAtFirstUnsafe(sql, Units(sql, 0, escapes), at)
  {
    SameRegions(sql, 0, escapes);
    RegionsReachFirstUnsafe(sql, 0, InSql, escapes);
    UnitsReachFirstUnsafe(sql, 0, escapes);
  }

  /** A block comment whose third byte is an exclamation mark or a plus sign. */
  ghost predicate IsUnsafe(sql: seq<byte>, u: Unit) {
    u.kind.BlockComment? && u.start + 2 < |sql| && (sql[u.start + 2] == 0x21 || sql[u.start + 2] == 0x2B)
  }

  /** Some unit is unsafe. */
  ghost predicate HasUnsafe(sql: seq<byte>, us: seq<Unit>) {
    exists k :: 0 <= k < |us| && IsUnsafe(sql, us[k])
  }

  /** The first unsafe unit is of this kind, by its third byte. */
  ghost predicate Reports(sql: seq<byte>, us: seq<Unit>, kind: UnsafeKind) {
    exists k :: 0 <= k < |us| && IsUnsafe(sql, us[k]) && !HasUnsafe(sql, us[..k])
                && kind == if sql[us[k].start + 2] == 0x21 then ExecutableComment else OptimizerHint
  }

  lemma {:induction false} UnitsAreUnits(sql: seq<byte>, i: nat, escapes: bool, k: nat)
    requires i <= |sql| && k < |Units(sql, i, escapes)|
    ensures var u := Units(sql, i, escapes)[k]; u.start < |sql| && u == UnitAt(sql, u.start, escapes)
    decreases k
  {
    hide UnitAt;
    if k > 0 {
      UnitsAreUnits(sql, UnitAt(sql, i, escapes).end, escapes, k - 1);
    }
  }

  lemma UnsafeByBytes(sql: seq<byte>, u: Unit, escapes: bool)
    requires u.start < |sql| && u == UnitAt(sql, u.start, escapes)
    ensures UnsafeCommentAt(sql, u.start) <==> IsUnsafe(sql, u)
  {
    hide UnitAt;
    UnitKinds(sql, u.start, escapes);
  }

  lemma StopIsReport(sql: seq<byte>, us: seq<Unit>, at: nat)
    requires at <= |sql| && (at < |sql| ==> UnsafeCommentAt(sql, at)) && StopsAtFirstUnsafe(sql, us, at)
    requires forall k :: 0 <= k < |us| ==> (UnsafeCommentAt(sql, us[k].start) <==> IsUnsafe(sql, us[k]))
    ensures var r := UnsafeResultAt(sql, at);
            (r.NothingFound? <==> !HasUnsafe(sql, us)) && (r.Found? ==> Reports(sql, us, r.kind))
  {
    hide IsUnsafe, UnsafeCommentAt;
    if at < |sql| {
      var k: nat :| IsFirstUnsafe(sql, us, k, at);
      assert IsUnsafe(sql, us[k]) && us[k].start + 2 < |sql| by {
        UnsafeHasThirdByte(sql, us[k]);
      }
      assert forall j :: 0 <= j < k ==> us[..k][j] == us[j];
    }
  }

  lemma UnsafeHasThirdByte(sql: seq<byte>, u: Unit)
    requires IsUnsafe(sql, u)
    ensures u.start + 2 < |sql|
  {
  }

  /** One mode of the check, by units and bytes: it finds nothing exactly if no unit is unsafe, and otherwise reports
      the first unsafe unit for what it is. */
  lemma ScanFindsExactly(sql: seq<byte>, escapes: bool)
    ensures var us, r := Units(sql, 0, escapes), UnsafeResultAt(sql, FirstUnsafe(sql, 0, InSql, escapes));
            (r.NothingFound? <==> !HasUnsafe(sql, us)) && (r.Found? ==> Reports(sql, us, r.kind))
  {
    hide Units, FirstUnsafe, UnsafeCommentAt, IsUnsafe, UnitAt, MachineRegions, UnitRegions, UnsafeResultAt, HasUnsafe,
      Reports, StopsAtFirstUnsafe;
    var us, at := Units(sql, 0, escapes), FirstUnsafe(sql, 0, InSql, escapes);
    ScannersAgree(sql, escapes);
    forall k | 0 <= k < |us|
      ensures UnsafeCommentAt(sql, us[k].start) <==> IsUnsafe(sql, us[k])
    {
      UnitsAreUnits(sql, 0, escapes, k);
      UnsafeByBytes(sql, us[k], escapes);
    }
    StopIsReport(sql, us, at);
  }

  /** The check as a whole: a text passes exactly if no unit is unsafe in either mode; otherwise the report is that of
      the escaping mode, or of the other one if that mode has none. */
  lemma FindUnsafeExactly(sql: seq<byte>, r: UnsafeResult)
    requires var first := UnsafeResultAt(sql, FirstUnsafe(sql, 0, InSql, true));
             r == if first.Found? then first else UnsafeResultAt(sql, FirstUnsafe(sql, 0, InSql, false))
    ensures var escaping, plain := Units(sql, 0, true), Units(sql, 0, false);
            && (r.NothingFound? <==> !HasUnsafe(sql, escaping) && !HasUnsafe(sql, plain))
            && (r.Found? ==> Reports(sql, if HasUnsafe(sql, escaping) then escaping else plain, r.kind))
  {
    hide Units, FirstUnsafe, UnsafeResultAt, HasUnsafe, Reports;
    ScanFindsExactly(sql, true);
    ScanFindsExactly(sql, false);
  }

  /** A text in which the check found nothing is cut alike by both scanners to its very end, in both modes, and none of
      its units opens an unsafe comment. */
  lemma NothingFoundMeansSameRegions(sql: seq<byte>, escapes: bool)
    requires UnsafeResultAt(sql, FirstUnsafe(sql, 0, InSql, true)).NothingFound?
    requires UnsafeResultAt(sql, FirstUnsafe(sql, 0, InSql, false)).NothingFound?
    ensures MachineRegions(sql, 0, InSql, escapes) == UnitRegions(sql, 0, escapes)
    ensures |UnitRegions(sql, 0, escapes)| == |sql|
    ensures forall k :: 0 <= k < |Units(sql, 0, escapes)| ==> !UnsafeCommentAt(sql, Units(sql, 0, escapes)[k].start)
  {
    ScannersAgree(sql, escapes);
  }
}
