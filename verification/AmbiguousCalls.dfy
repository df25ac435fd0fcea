/** `findAmbiguousBuiltinCall`: raw spellings that MySQL may resolve as a stored-function call. The table of
    whitespace-sensitive names and Go's Unicode lowering are parameters. */
module AmbiguousCalls {
  import opened Results
  import opened Utf8
  import opened Lexer

  predicate CallFollows(sql: seq<byte>, i: nat)
    requires i <= |sql|
  {
    TriviaEnd(sql, i) < |sql| && sql[TriviaEnd(sql, i)] == OPEN_PAREN
  }

  /** The lowered name that a unit reports when the scanner reaches it, if it does. */
  function Report(sql: seq<byte>, u: Unit, lower: Name -> Name, sensitive: set<Name>): Option<Name>
    requires u.start <= u.end <= |sql|
  {
    match u.kind
    case Identifier(value, closed) =>
      if closed && lower(value) in sensitive && CallFollows(sql, u.end) then Some(lower(value)) else None
    case Word =>
      var name := lower(sql[u.start..u.end]);
      if name in sensitive && TriviaEnd(sql, u.end) > u.end && CallFollows(sql, u.end) then Some(name) else None
    case _ => None
  }

  function FirstReport(sql: seq<byte>, i: nat, escapes: bool, lower: Name -> Name, sensitive: set<Name>): Option<Name>
    requires i <= |sql|
    decreases |sql| - i
  {
    if i == |sql| then None
    else
      var u := UnitAt(sql, i, escapes);
      var r := Report(sql, u, lower, sensitive);
      if r.Some? then r else FirstReport(sql, u.end, escapes, lower, sensitive)
  }

  lemma FirstReportStep(sql: seq<byte>, i: nat, escapes: bool, lower: Name -> Name, sensitive: set<Name>)
    requires i < |sql|
    ensures var u := UnitAt(sql, i, escapes);
            FirstReport(sql, i, escapes, lower, sensitive)
            == if Report(sql, u, lower, sensitive).Some? then Report(sql, u, lower, sensitive)
               else FirstReport(sql, u.end, escapes, lower, sensitive)
  {
    hide UnitAt, Report;
  }

  method ScanAmbiguousBuiltinCall(sql: seq<byte>, escapes: bool, lower: Name -> Name, sensitive: set<Name>)
    returns (r: Option<Name>)
    ensures r == FirstReport(sql, 0, escapes, lower, sensitive)
  {
    hide LineEnd, BlockEnd, QuotedEnd, BacktickFrom, TriviaEnd, FirstReport, IsEnd;
    hide UnitAt, IsTrivia, IsSpace, DashCommentAt, BlockCommentAt, IsIdentifierStart, IsIdentifierPart;
    var i := 0;
    while i < |sql|
      invariant 0 <= i <= |sql|
      invariant FirstReport(sql, i, escapes, lower, sensitive) == FirstReport(sql, 0, escapes, lower, sensitive)
      decreases |sql| - i
    {
      ghost var u := UnitAt(sql, i, escapes);
      UnitByByte(sql, i, escapes);
      FirstReportStep(sql, i, escapes, lower, sensitive);
      var b := sql[i];
      if IsSpace(b) {
        i := i + 1;
      } else if b == HASH {
        i := SkipLineComment(sql, i + 1);
      } else if DashCommentAt(sql, i) {
        i := SkipLineComment(sql, i + 2);
      } else if BlockCommentAt(sql, i) {
        i := SkipBlockComment(sql, i + 2);
      } else if b == SINGLE_QUOTE || b == DOUBLE_QUOTE {
        i := SkipQuotedString(sql, i, b, escapes);
      } else if b == BACKTICK {
        var identifier := ReadBacktickIdentifier(sql, i);
        if !identifier.closed {
          AtEnd(sql, escapes, lower, sensitive);
          return None;
        }
        var name := lower(identifier.value);
        if name in sensitive {
          var callStart, _ := SkipTrivia(sql, identifier.next);
          if callStart < |sql| && sql[callStart] == OPEN_PAREN {
            return Some(name);
          }
        }
        i := identifier.next;
      } else if IsIdentifierStart(b) {
        var start := i;
        i := i + 1;
        while i < |sql| && IsIdentifierPart(sql[i])
          invariant start < i <= |sql| && WordEnd(sql, i) == WordEnd(sql, start + 1)
        {
          i := i + 1;
        }
        var name := lower(sql[start..i]);
        if name in sensitive {
          var callStart, separated := SkipTrivia(sql, i);
          if separated && callStart < |sql| && sql[callStart] == OPEN_PAREN {
            return Some(name);
          }
        }
      } else {
        i := i + 1;
      }
      assert i == u.end;
      assert Report(sql, u, lower, sensitive).None?;
    }
    AtEnd(sql, escapes, lower, sensitive);
    return None;
  }

  lemma AtEnd(sql: seq<byte>, escapes: bool, lower: Name -> Name, sensitive: set<Name>)
    ensures FirstReport(sql, |sql|, escapes, lower, sensitive) == None
  {
  }

  method FindAmbiguousBuiltinCall(sql: seq<byte>, lower: Name -> Name, sensitive: set<Name>) returns (r: Option<Name>)
    ensures r == if FirstReport(sql, 0, true, lower, sensitive).Some? then FirstReport(sql, 0, true, lower, sensitive)
                 else FirstReport(sql, 0, false, lower, sensitive)
  {
    r := ScanAmbiguousBuiltinCall(sql, true, lower, sensitive);
    if r.None? {
      r := ScanAmbiguousBuiltinCall(sql, false, lower, sensitive);
    }
  }

  /////////////////////////////////////////////// the same in terms of lexical units alone

  function LeadingTrivia(us: seq<Unit>): (n: nat)
    ensures n <= |us|
    ensures forall j :: 0 <= j < n ==> us[j].kind.Space? || us[j].kind.LineComment? || us[j].kind.BlockComment?
    ensures n < |us| ==> !us[n].kind.Space? && !us[n].kind.LineComment? && !us[n].kind.BlockComment?
  {
    if us != [] && IsTrivia(us[0]) then 1 + LeadingTrivia(us[1..]) else 0
  }

  /** Unit `k` is a sensitive name before a call: backticked, or separated from the parenthesis by trivia. */
  predicate AmbiguousUnit(sql: seq<byte>, us: seq<Unit>, k: nat, lower: Name -> Name, sensitive: set<Name>)
    requires k < |us| && us[k].start <= us[k].end <= |sql|
  {
    var trivia := LeadingTrivia(us[k + 1..]);
    var next := k + 1 + trivia;
    && next < |us| && us[next].kind.Other? && us[next].start < |sql| && sql[us[next].start] == OPEN_PAREN
    && match us[k].kind
       case Identifier(value, closed) => closed && lower(value) in sensitive
       case Word => lower(sql[us[k].start..us[k].end]) in sensitive && trivia > 0
       case _ => false
  }

  function NameOf(sql: seq<byte>, u: Unit, lower: Name -> Name): Name
    requires u.start <= u.end <= |sql|
  {
    if u.kind.Identifier? then lower(u.kind.value) else lower(sql[u.start..u.end])
  }

  lemma {:induction false} UnitsInBounds(sql: seq<byte>, i: nat, escapes: bool)
    requires i <= |sql|
    ensures InBounds(sql, Units(sql, i, escapes))
    decreases |sql| - i
  {
    if i < |sql| {
      UnitsInBounds(sql, UnitAt(sql, i, escapes).end, escapes);
    }
  }

  /** Skipping trivia byte by byte is skipping the trivia units. */
  lemma {:induction false} TriviaIsUnits(sql: seq<byte>, i: nat, escapes: bool)
    requires i <= |sql|
    ensures var us := Units(sql, i, escapes);
            var n := LeadingTrivia(us);
            && TriviaEnd(sql, i) == (if n < |us| then us[n].start else |sql|)
            && (TriviaEnd(sql, i) > i <==> n > 0)
            && (n < |us| ==> TriviaEnd(sql, i) < |sql| && us[n] == UnitAt(sql, TriviaEnd(sql, i), escapes))
    decreases |sql| - i
  {
    hide UnitAt, Units, TriviaEnd, IsTrivia;
    if i < |sql| {
      var u := UnitAt(sql, i, escapes);
      TriviaInBothModes(sql, i, escapes);
      UnitsStep(sql, i, escapes);
      if IsTrivia(u) {
        TriviaIsUnits(sql, u.end, escapes);
        assert Units(sql, i, escapes)[1..] == Units(sql, u.end, escapes);
      }
    } else {
      NoUnits(sql, escapes);
      TriviaEndsAtEnd(sql);
    }
  }

  /** The backslash mode has no say in what is trivia and where it ends. */
  lemma TriviaInBothModes(sql: seq<byte>, i: nat, escapes: bool)
    requires i < |sql|
    ensures var u := UnitAt(sql, i, escapes);
            TriviaEnd(sql, i) == if IsTrivia(u) then TriviaEnd(sql, u.end) else i
  {
    hide LineEnd, BlockEnd, QuotedEnd, BacktickFrom, WordEnd, IsSpace, DashCommentAt, BlockCommentAt, IsIdentifierStart;
  }

  lemma TriviaEndsAtEnd(sql: seq<byte>)
    ensures TriviaEnd(sql, |sql|) == |sql|
  {
  }

  lemma ReportIsAmbiguous(sql: seq<byte>, i: nat, escapes: bool, lower: Name -> Name, sensitive: set<Name>)
    requires i < |sql|
    ensures var u, us := UnitAt(sql, i, escapes), Units(sql, i, escapes);
            && (Report(sql, u, lower, sensitive).Some? <==> AmbiguousUnit(sql, us, 0, lower, sensitive))
            && (Report(sql, u, lower, sensitive).Some? ==>
                  Report(sql, u, lower, sensitive).value == NameOf(sql, u, lower))
  {
    hide Units, LeadingTrivia, TriviaEnd;
    var u, us := UnitAt(sql, i, escapes), Units(sql, i, escapes);
    UnitsStep(sql, i, escapes);
    assert us[1..] == Units(sql, u.end, escapes);
    TriviaIsUnits(sql, u.end, escapes);
    ParenIsOther(sql, TriviaEnd(sql, u.end), escapes);
  }

  lemma UnitsStep(sql: seq<byte>, i: nat, escapes: bool)
    requires i < |sql|
    ensures Units(sql, i, escapes) == [UnitAt(sql, i, escapes)] + Units(sql, UnitAt(sql, i, escapes).end, escapes)
  {
    hide UnitAt;
  }

  lemma ParenIsOther(sql: seq<byte>, i: nat, escapes: bool)
    requires i <= |sql|
    ensures i < |sql| && sql[i] == OPEN_PAREN ==> UnitAt(sql, i, escapes).kind.Other?
  {
  }

  /** `k` is the first ambiguous unit from `from` on. */
  ghost predicate FirstAmbiguous(
    sql: seq<byte>, us: seq<Unit>, from: nat, k: nat, lower: Name -> Name, sensitive: set<Name>)
    requires InBounds(sql, us)
  {
    && from <= k < |us| && AmbiguousUnit(sql, us, k, lower, sensitive)
    && forall j :: from <= j < k ==> !AmbiguousUnit(sql, us, j, lower, sensitive)
  }

  ghost predicate InBounds(sql: seq<byte>, us: seq<Unit>) {
    forall k :: 0 <= k < |us| ==> us[k].start < us[k].end <= |sql|
  }

  lemma AmbiguousInSuffix(sql: seq<byte>, us: seq<Unit>, k: nat, lower: Name -> Name, sensitive: set<Name>)
    requires k < |us| && us[k].start <= us[k].end <= |sql|
    ensures AmbiguousUnit(sql, us[k..], 0, lower, sensitive) <==> AmbiguousUnit(sql, us, k, lower, sensitive)
  {
    assert us[k..][1..] == us[k + 1..];
  }

  lemma {:induction false} ScanFrom(
    sql: seq<byte>, i: nat, us: seq<Unit>, k: nat, escapes: bool, lower: Name -> Name, sensitive: set<Name>)
    requires i <= |sql| && k <= |us| && InBounds(sql, us) && us[k..] == Units(sql, i, escapes)
    ensures var r := FirstReport(sql, i, escapes, lower, sensitive);
            && (r.None? ==> forall j :: k <= j < |us| ==> !AmbiguousUnit(sql, us, j, lower, sensitive))
            && (r.Some? ==> exists j: nat :: FirstAmbiguous(sql, us, k, j, lower, sensitive)
                                        && r.value == NameOf(sql, us[j], lower))
    decreases |sql| - i
  {
    hide Units, UnitAt, Report, AmbiguousUnit;
    if i == |sql| {
      NoUnits(sql, escapes);
    } else {
      var u := UnitAt(sql, i, escapes);
      UnitsStep(sql, i, escapes);
      assert us[k..][0] == u == us[k];
      ReportIsAmbiguous(sql, i, escapes, lower, sensitive);
      AmbiguousInSuffix(sql, us, k, lower, sensitive);
      if Report(sql, u, lower, sensitive).Some? {
        assert FirstAmbiguous(sql, us, k, k, lower, sensitive);
      } else {
        assert us[k + 1..] == us[k..][1..] == Units(sql, u.end, escapes);
        ScanFrom(sql, u.end, us, k + 1, escapes, lower, sensitive);
        WidenScan(sql, us, k, lower, sensitive);
      }
    }
  }

  lemma NoUnits(sql: seq<byte>, escapes: bool)
    ensures Units(sql, |sql|, escapes) == []
  {
  }

  lemma WidenScan(sql: seq<byte>, us: seq<Unit>, k: nat, lower: Name -> Name, sensitive: set<Name>)
    requires InBounds(sql, us) && k < |us| && !AmbiguousUnit(sql, us, k, lower, sensitive)
    ensures forall j: nat :: FirstAmbiguous(sql, us, k + 1, j, lower, sensitive) ==>
                          FirstAmbiguous(sql, us, k, j, lower, sensitive)
  {
  }

  /**
    * A scan reports nothing exactly when no lexical unit is ambiguous, and otherwise the lowered name of the first
    * unit that is.
    */
  lemma ScanReportsFirstAmbiguousUnit(sql: seq<byte>, escapes: bool, lower: Name -> Name, sensitive: set<Name>)
    ensures InBounds(sql, Units(sql, 0, escapes))
    ensures var us, r := Units(sql, 0, escapes), FirstReport(sql, 0, escapes, lower, sensitive);
            && (r.None? <==> forall j :: 0 <= j < |us| ==> !AmbiguousUnit(sql, us, j, lower, sensitive))
            && (r.Some? ==> exists j: nat :: FirstAmbiguous(sql, us, 0, j, lower, sensitive)
                                        && r.value == NameOf(sql, us[j], lower))
  {
    UnitsInBounds(sql, 0, escapes);
    var us := Units(sql, 0, escapes);
    assert us[0..] == us;
    ScanFrom(sql, 0, us, 0, escapes, lower, sensitive);
  }

  /** The check as a whole: it lets a text pass exactly when no unit is ambiguous in either backslash mode. */
  lemma PassesBothModes(sql: seq<byte>, lower: Name -> Name, sensitive: set<Name>)
    ensures InBounds(sql, Units(sql, 0, true)) && InBounds(sql, Units(sql, 0, false))
    ensures FirstReport(sql, 0, true, lower, sensitive).None? && FirstReport(sql, 0, false, lower, sensitive).None? <==>
            && (forall j :: 0 <= j < |Units(sql, 0, true)| ==>
                              !AmbiguousUnit(sql, Units(sql, 0, true), j, lower, sensitive))
            && (forall j :: 0 <= j < |Units(sql, 0, false)| ==>
                              !AmbiguousUnit(sql, Units(sql, 0, false), j, lower, sensitive))
  {
    ScanReportsFirstAmbiguousUnit(sql, true, lower, sensitive);
    ScanReportsFirstAmbiguousUnit(sql, false, lower, sensitive);
  }
}
