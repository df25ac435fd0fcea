/** `internal/policy/scanner.go`: the two hand-written MySQL scanners. One is a state machine looking for executable
    comments and optimizer hints, the other jumps from lexical unit to lexical unit with skip functions. */
module Lexer {
  import opened Utf8

  const TAB: byte := 0x09
  const LINE_FEED: byte := 0x0A
  const VERTICAL_TAB: byte := 0x0B
  const FORM_FEED: byte := 0x0C
  const CARRIAGE_RETURN: byte := 0x0D
  const BLANK: byte := 0x20
  const BANG: byte := 0x21
  const DOUBLE_QUOTE: byte := 0x22
  const HASH: byte := 0x23
  const SINGLE_QUOTE: byte := 0x27
  const OPEN_PAREN: byte := 0x28
  const ASTERISK: byte := 0x2A
  const PLUS: byte := 0x2B
  const DASH: byte := 0x2D
  const SLASH: byte := 0x2F
  const BACKSLASH: byte := 0x5C
  const BACKTICK: byte := 0x60

  predicate IsSpace(b: byte) {
    b == BLANK || b == TAB || b == LINE_FEED || b == CARRIAGE_RETURN || b == VERTICAL_TAB || b == FORM_FEED || b == 0
  }

  predicate IsIdentifierStart(b: byte) {
    b == 0x5F || b == 0x24 || b >= 0x80 || 0x61 <= b <= 0x7A || 0x41 <= b <= 0x5A
  }

  predicate IsIdentifierPart(b: byte) {
    IsIdentifierStart(b) || 0x30 <= b <= 0x39
  }

  predicate IsLineBreak(b: byte) {
    b == LINE_FEED || b == CARRIAGE_RETURN
  }

  /** `--` opens a comment only before whitespace or at the end of the input. */
  predicate DashCommentAt(sql: seq<byte>, i: nat) {
    i + 1 < |sql| && sql[i] == DASH && sql[i + 1] == DASH && (i + 2 == |sql| || IsSpace(sql[i + 2]))
  }

  predicate BlockCommentAt(sql: seq<byte>, i: nat) {
    i + 1 < |sql| && sql[i] == SLASH && sql[i + 1] == ASTERISK
  }

  predicate BlockCloseAt(sql: seq<byte>, i: nat) {
    i + 1 < |sql| && sql[i] == ASTERISK && sql[i + 1] == SLASH
  }

  // An executable comment or an optimizer hint: a slash and a star followed by `!` or `+`.
  predicate UnsafeCommentAt(sql: seq<byte>, i: nat) {
    BlockCommentAt(sql, i) && i + 2 < |sql| && (sql[i + 2] == BANG || sql[i + 2] == PLUS)
  }

  /////////////////////////////////////////////// skip functions

  /** The first line break at or after `start`, or the end of the input. */
  function LineEnd(sql: seq<byte>, start: nat): (end: nat)
    requires start <= |sql|
    ensures start <= end <= |sql|
    ensures forall k :: start <= k < end ==> !IsLineBreak(sql[k])
    ensures end < |sql| ==> IsLineBreak(sql[end])
    decreases |sql| - start
  {
    if start < |sql| && !IsLineBreak(sql[start]) then LineEnd(sql, start + 1) else start
  }

  method SkipLineComment(sql: seq<byte>, start: nat) returns (end: nat)
    requires start <= |sql|
    ensures end == LineEnd(sql, start)
  {
    end := start;
    while end < |sql| && !IsLineBreak(sql[end])
      invariant start <= end <= |sql| && LineEnd(sql, end) == LineEnd(sql, start)
    {
      end := end + 1;
    }
  }

  /** Just past the first comment close at or after `start`, or the end of the input. */
  function BlockEnd(sql: seq<byte>, start: nat): (end: nat)
    requires start <= |sql|
    ensures start <= end <= |sql|
    ensures forall k :: start <= k < end - 2 ==> !BlockCloseAt(sql, k)
    ensures end == |sql| || (end >= start + 2 && BlockCloseAt(sql, end - 2))
    decreases |sql| - start
  {
    if start + 1 >= |sql| then |sql|
    else if BlockCloseAt(sql, start) then start + 2
    else BlockEnd(sql, start + 1)
  }

  method SkipBlockComment(sql: seq<byte>, start: nat) returns (end: nat)
    requires start <= |sql|
    ensures end == BlockEnd(sql, start)
  {
    var i := start;
    while i + 1 < |sql|
      invariant start <= i <= |sql| && BlockEnd(sql, i) == BlockEnd(sql, start)
    {
      if sql[i] == ASTERISK && sql[i + 1] == SLASH {
        return i + 2;
      }
      i := i + 1;
    }
    return |sql|;
  }

  /** Just past the quote that closes a string whose contents start at `i`; a doubled quote and, when the mode has
      them, a backslash escape stay inside. */
  function QuotedEnd(sql: seq<byte>, i: nat, quote: byte, escapes: bool): (end: nat)
    requires i <= |sql|
    ensures i <= end <= |sql|
    ensures end < |sql| ==> i < end && sql[end - 1] == quote && sql[end] != quote
    decreases |sql| - i
  {
    if i == |sql| then |sql|
    else if escapes && sql[i] == BACKSLASH && i + 1 < |sql| then QuotedEnd(sql, i + 2, quote, escapes)
    else if sql[i] != quote then QuotedEnd(sql, i + 1, quote, escapes)
    else if i + 1 < |sql| && sql[i + 1] == quote then QuotedEnd(sql, i + 2, quote, escapes)
    else i + 1
  }

  /** What string contents are made of: doubled quotes, escaped bytes if the mode has them, and other bytes. */
  predicate IsPiece(p: seq<byte>, quote: byte, escapes: bool) {
    || p == [quote, quote]
    || (escapes && |p| == 2 && p[0] == BACKSLASH)
    || (|p| == 1 && p[0] != quote && !(escapes && p[0] == BACKSLASH))
  }

  ghost predicate IsContents(text: seq<byte>, quote: byte, escapes: bool)
    decreases |text|
  {
    text == [] || exists k :: 1 <= k <= |text| && IsPiece(text[..k], quote, escapes)
                              && IsContents(text[k..], quote, escapes)
  }

  /** A lone quote after contents that start at `i`. */
  ghost predicate ClosesAt(sql: seq<byte>, i: nat, j: nat, quote: byte, escapes: bool) {
    && i <= j < |sql| && sql[j] == quote && (j + 1 < |sql| ==> sql[j + 1] != quote)
    && IsContents(sql[i..j], quote, escapes)
  }

  lemma SamePiece(text: seq<byte>, k: nat, k': nat, quote: byte, escapes: bool)
    requires k <= |text| && k' <= |text| && quote != BACKSLASH
    requires IsPiece(text[..k], quote, escapes) && IsPiece(text[..k'], quote, escapes)
    ensures k == k'
  {
    assert text[..k][0] == text[0] == text[..k'][0];
  }

  /** The end is past the one quote that closes the contents, or that of the text when nothing does. */
  ghost predicate IsEnd(sql: seq<byte>, i: nat, quote: byte, escapes: bool, end: nat) {
    && (forall j: nat :: ClosesAt(sql, i, j, quote, escapes) ==> end == j + 1)
    && ((forall j: nat :: !ClosesAt(sql, i, j, quote, escapes)) ==> end == |sql|)
  }

  lemma SliceParts(sql: seq<byte>, i: nat, k: nat, j: nat)
    requires i + k <= j <= |sql|
    ensures sql[i..j][..k] == sql[i..i + k] && sql[i..j][k..] == sql[i + k..j]
  {
  }

  /** Whether a text is contents does not depend on a leading piece. */
  lemma ContentsAfterPiece(text: seq<byte>, k: nat, quote: byte, escapes: bool)
    requires k <= |text| && quote != BACKSLASH && IsPiece(text[..k], quote, escapes)
    ensures IsContents(text, quote, escapes) <==> IsContents(text[k..], quote, escapes)
  {
    assert 1 <= k;
    if IsContents(text, quote, escapes) {
      var other :| 1 <= other <= |text| && IsPiece(text[..other], quote, escapes)
                   && IsContents(text[other..], quote, escapes);
      SamePiece(text, k, other, quote, escapes);
    }
  }

  lemma NothingClosesInside(sql: seq<byte>, i: nat, k: nat, j: nat, quote: byte, escapes: bool)
    requires i <= j < i + k <= |sql| && quote != BACKSLASH && IsPiece(sql[i..i + k], quote, escapes)
    ensures !ClosesAt(sql, i, j, quote, escapes)
  {
    var piece := sql[i..i + k];
    assert piece[0] == sql[i] && piece[k - 1] == sql[i + k - 1];
    if j > i {
      assert sql[i..j] == [sql[i]];
      NoOneByteContents(sql[i], quote, escapes);
    }
  }

  lemma NoOneByteContents(b: byte, quote: byte, escapes: bool)
    requires !IsPiece([b], quote, escapes)
    ensures !IsContents([b], quote, escapes)
  {
    assert [b][..1] == [b];
  }

  lemma PieceStays(sql: seq<byte>, i: nat, k: nat, j: nat, quote: byte, escapes: bool)
    requires i + k <= |sql| && quote != BACKSLASH && IsPiece(sql[i..i + k], quote, escapes)
    ensures ClosesAt(sql, i, j, quote, escapes) <==> ClosesAt(sql, i + k, j, quote, escapes)
  {
    hide IsPiece, IsContents;
    if i + k <= j < |sql| {
      SliceParts(sql, i, k, j);
      ContentsAfterPiece(sql[i..j], k, quote, escapes);
    } else if i <= j < i + k {
      NothingClosesInside(sql, i, k, j, quote, escapes);
    }
  }

  lemma EndStays(sql: seq<byte>, i: nat, k: nat, quote: byte, escapes: bool)
    requires i + k <= |sql| && quote != BACKSLASH && IsPiece(sql[i..i + k], quote, escapes)
    requires IsEnd(sql, i + k, quote, escapes, QuotedEnd(sql, i + k, quote, escapes))
    ensures IsEnd(sql, i, quote, escapes, QuotedEnd(sql, i, quote, escapes))
  {
    hide ClosesAt;
    assert sql[i..i + k][0] == sql[i] && (k == 2 ==> sql[i..i + k][1] == sql[i + 1]);
    var end := QuotedEnd(sql, i + k, quote, escapes);
    assert QuotedEnd(sql, i, quote, escapes) == end;
    forall j: nat | ClosesAt(sql, i, j, quote, escapes)
      ensures end == j + 1
    {
      PieceStays(sql, i, k, j, quote, escapes);
    }
    if end != |sql| {
      var j: nat :| ClosesAt(sql, i + k, j, quote, escapes);
      PieceStays(sql, i, k, j, quote, escapes);
    }
  }

  lemma {:induction false} QuotedEndExactly(sql: seq<byte>, i: nat, quote: byte, escapes: bool)
    requires i <= |sql| && quote != BACKSLASH
    ensures IsEnd(sql, i, quote, escapes, QuotedEnd(sql, i, quote, escapes))
    decreases |sql| - i
  {
    hide ClosesAt;
    if i < |sql| {
      var k := if (escapes && sql[i] == BACKSLASH) || sql[i] == quote then 2 else 1;
      if i + k <= |sql| && IsPiece(sql[i..i + k], quote, escapes) {
        QuotedEndExactly(sql, i + k, quote, escapes);
        EndStays(sql, i, k, quote, escapes);
      } else {
        NoPieceHere(sql, i, quote, escapes);
        assert ClosesAt(sql, i, i, quote, escapes) <==> sql[i] == quote;
      }
    } else {
      NothingClosesPastTheEnd(sql, quote, escapes);
    }
  }

  lemma NothingClosesPastTheEnd(sql: seq<byte>, quote: byte, escapes: bool)
    ensures forall j: nat :: !ClosesAt(sql, |sql|, j, quote, escapes)
  {
  }

  /** A lone quote, or a backslash with nothing to escape. */
  lemma NoPieceHere(sql: seq<byte>, i: nat, quote: byte, escapes: bool)
    requires i < |sql| && quote != BACKSLASH
    requires !IsPiece(sql[i..i + 1], quote, escapes) && (i + 2 <= |sql| ==> !IsPiece(sql[i..i + 2], quote, escapes))
    ensures forall j: nat :: ClosesAt(sql, i, j, quote, escapes) <==> j == i && sql[i] == quote
    ensures QuotedEnd(sql, i, quote, escapes) == i + 1 && (sql[i] == quote || i + 1 == |sql|)
  {
    forall j: nat
      ensures ClosesAt(sql, i, j, quote, escapes) <==> j == i && sql[i] == quote
    {
      if ClosesAt(sql, i, j, quote, escapes) && j != i {
        assert false;
      }
    }
  }

  method SkipQuotedString(sql: seq<byte>, start: nat, quote: byte, escapes: bool) returns (end: nat)
    requires start < |sql|
    ensures end == QuotedEnd(sql, start + 1, quote, escapes)
    ensures quote != BACKSLASH ==> IsEnd(sql, start + 1, quote, escapes, end)
  {
    hide IsEnd;
    if quote != BACKSLASH {
      QuotedEndExactly(sql, start + 1, quote, escapes);
    }
    var i := start + 1;
    while i < |sql|
      invariant start < i <= |sql| && QuotedEnd(sql, i, quote, escapes) == QuotedEnd(sql, start + 1, quote, escapes)
    {
      if escapes && sql[i] == BACKSLASH && i + 1 < |sql| {
        i := i + 2;
        continue;
      }
      if sql[i] != quote {
        i := i + 1;
        continue;
      }
      if i + 1 < |sql| && sql[i + 1] == quote {
        i := i + 2;
        continue;
      }
      return i + 1;
    }
    return |sql|;
  }

  datatype Backticked = Backticked(value: seq<byte>, next: nat, closed: bool)

  /** The identifier whose contents start at `i`: two backticks stand for one, a lone one closes. */
  function BacktickFrom(sql: seq<byte>, i: nat): (b: Backticked)
    requires i <= |sql|
    ensures i <= b.next <= |sql|
    ensures b.closed ==> i < b.next && sql[b.next - 1] == BACKTICK
    ensures !b.closed ==> b == Backticked([], |sql|, false)
    decreases |sql| - i
  {
    if i == |sql| then Backticked([], |sql|, false)
    else if sql[i] != BACKTICK then PrependTo(sql[i], BacktickFrom(sql, i + 1))
    else if i + 1 < |sql| && sql[i + 1] == BACKTICK then PrependTo(BACKTICK, BacktickFrom(sql, i + 2))
    else Backticked([], i + 1, true)
  }

  function PrependTo(b: byte, rest: Backticked): Backticked {
    if rest.closed then rest.(value := [b] + rest.value) else rest
  }

  method ReadBacktickIdentifier(sql: seq<byte>, start: nat) returns (b: Backticked)
    requires start < |sql|
    ensures b == BacktickFrom(sql, start + 1)
  {
    var value: seq<byte> := [];
    var i := start + 1;
    ghost var whole := BacktickFrom(sql, start + 1);
    while i < |sql|
      invariant start < i <= |sql|
      invariant whole == After(value, BacktickFrom(sql, i))
    {
      if sql[i] != BACKTICK {
        AfterOneMore(value, sql[i], BacktickFrom(sql, i + 1));
        value := value + [sql[i]];
        i := i + 1;
        continue;
      }
      if i + 1 < |sql| && sql[i + 1] == BACKTICK {
        AfterOneMore(value, BACKTICK, BacktickFrom(sql, i + 2));
        value := value + [BACKTICK];
        i := i + 2;
        continue;
      }
      assert value + [] == value;
      return Backticked(value, i + 1, true);
    }
    return Backticked([], |sql|, false);
  }

  ghost function After(read: seq<byte>, rest: Backticked): Backticked {
    if rest.closed then rest.(value := read + rest.value) else rest
  }

  lemma AfterOneMore(read: seq<byte>, b: byte, rest: Backticked)
    ensures After(read, PrependTo(b, rest)) == After(read + [b], rest)
  {
    assert read + ([b] + rest.value) == read + [b] + rest.value;
  }

  function WordEnd(sql: seq<byte>, i: nat): (end: nat)
    requires i <= |sql|
    ensures i <= end <= |sql|
    ensures forall k :: i <= k < end ==> IsIdentifierPart(sql[k])
    ensures end < |sql| ==> !IsIdentifierPart(sql[end])
    decreases |sql| - i
  {
    if i < |sql| && IsIdentifierPart(sql[i]) then WordEnd(sql, i + 1) else i
  }

  /////////////////////////////////////////////// lexical units

  datatype Kind = Space | LineComment | BlockComment | Text(quote: byte) | Identifier(value: seq<byte>, closed: bool)
                | Word | Other

  datatype Unit = Unit(start: nat, end: nat, kind: Kind)

  /** The unit the skip-function scanner consumes at position `i` outside every string and comment. */
  function UnitAt(sql: seq<byte>, i: nat, escapes: bool): (u: Unit)
    requires i < |sql|
    ensures u.start == i < u.end <= |sql|
  {
    var b := sql[i];
    if IsSpace(b) then Unit(i, i + 1, Space)
    else if b == HASH then Unit(i, LineEnd(sql, i + 1), LineComment)
    else if DashCommentAt(sql, i) then Unit(i, LineEnd(sql, i + 2), LineComment)
    else if BlockCommentAt(sql, i) then Unit(i, BlockEnd(sql, i + 2), BlockComment)
    else if b == SINGLE_QUOTE || b == DOUBLE_QUOTE then Unit(i, QuotedEnd(sql, i + 1, b, escapes), Text(b))
    else if b == BACKTICK then
      var id := BacktickFrom(sql, i + 1);
      Unit(i, id.next, Identifier(id.value, id.closed))
    else if IsIdentifierStart(b) then Unit(i, WordEnd(sql, i + 1), Word)
    else Unit(i, i + 1, Other)
  }

  /** The definition, for proofs that go by the first byte alone. */
  lemma UnitByByte(sql: seq<byte>, i: nat, escapes: bool)
    requires i < |sql|
    ensures var b, id := sql[i], BacktickFrom(sql, i + 1);
            UnitAt(sql, i, escapes) ==
            if IsSpace(b) then Unit(i, i + 1, Space)
            else if b == HASH then Unit(i, LineEnd(sql, i + 1), LineComment)
            else if DashCommentAt(sql, i) then Unit(i, LineEnd(sql, i + 2), LineComment)
            else if BlockCommentAt(sql, i) then Unit(i, BlockEnd(sql, i + 2), BlockComment)
            else if b == SINGLE_QUOTE || b == DOUBLE_QUOTE then Unit(i, QuotedEnd(sql, i + 1, b, escapes), Text(b))
            else if b == BACKTICK then Unit(i, id.next, Identifier(id.value, id.closed))
            else if IsIdentifierStart(b) then Unit(i, WordEnd(sql, i + 1), Word)
            else Unit(i, i + 1, Other)
  {
  }

  /** What a unit is, by its first bytes: whitespace; a hash, or two dashes before whitespace or the end; a slash and a
      star; a quote; a backtick; a letter, underscore, dollar sign or non-ASCII byte; or anything else. */
  lemma UnitKinds(sql: seq<byte>, i: nat, escapes: bool)
    requires i < |sql|
    ensures var u, b := UnitAt(sql, i, escapes), sql[i];
            var dashes := i + 1 < |sql| && b == 0x2D && sql[i + 1] == 0x2D
                          && (i + 2 == |sql| || sql[i + 2] in {0x00, 0x09, 0x0A, 0x0B, 0x0C, 0x0D, 0x20});
            && (u.kind.Space? <==> b in {0x00, 0x09, 0x0A, 0x0B, 0x0C, 0x0D, 0x20})
            && (u.kind.LineComment? <==> b == 0x23 || dashes)
            && (u.kind.BlockComment? <==> b == 0x2F && i + 1 < |sql| && sql[i + 1] == 0x2A)
            && (u.kind.Text? <==> b in {0x22, 0x27}) && (u.kind.Text? ==> u.kind.quote == b)
            && (u.kind.Identifier? <==> b == 0x60)
            && (u.kind.Word? <==> b in {0x24, 0x5F} || 0x41 <= b <= 0x5A || 0x61 <= b <= 0x7A || 0x80 <= b)
            && (u.kind.Space? || u.kind.Other? ==> u.end == i + 1)
  {
    hide LineEnd, BlockEnd, QuotedEnd, BacktickFrom, WordEnd;
  }

  /** Where a comment or a word ends, by its bytes. (`QuotedEndExactly` tells it of strings.) */
  lemma UnitEnds(sql: seq<byte>, i: nat, escapes: bool)
    requires i < |sql|
    ensures var u := UnitAt(sql, i, escapes);
            && (u.kind.LineComment? ==>
                  && (forall k :: i < k < u.end ==> sql[k] != 0x0A && sql[k] != 0x0D)
                  && (u.end < |sql| ==> sql[u.end] == 0x0A || sql[u.end] == 0x0D))
            && (u.kind.BlockComment? ==>
                  && (forall k :: i + 2 <= k < u.end - 2 ==> sql[k] != 0x2A || sql[k + 1] != 0x2F)
                  && (u.end < |sql| ==> u.end >= i + 4 && sql[u.end - 2] == 0x2A && sql[u.end - 1] == 0x2F))
            && (u.kind.Word? ==>
                  && (forall k :: i <= k < u.end ==> IsWordByte(sql[k])) && (u.end < |sql| ==> !IsWordByte(sql[u.end])))
  {
    hide QuotedEnd, BacktickFrom;
    if BlockCommentAt(sql, i) {
      BlockEndBytes(sql, i + 2);
    }
  }

  predicate IsWordByte(b: byte) {
    b in {0x24, 0x5F} || 0x30 <= b <= 0x39 || 0x41 <= b <= 0x5A || 0x61 <= b <= 0x7A || 0x80 <= b
  }

  lemma BlockEndBytes(sql: seq<byte>, start: nat)
    requires start <= |sql|
    ensures var end := BlockEnd(sql, start);
            && (forall k :: start <= k < end - 2 ==> sql[k] != 0x2A || sql[k + 1] != 0x2F)
            && (end < |sql| ==> end >= start + 2 && sql[end - 2] == 0x2A && sql[end - 1] == 0x2F)
  {
    hide BlockEnd;
    forall k | start <= k < BlockEnd(sql, start) - 2
      ensures sql[k] != 0x2A || sql[k + 1] != 0x2F
    {
      assert !BlockCloseAt(sql, k);
    }
  }

  function Units(sql: seq<byte>, i: nat, escapes: bool): (us: seq<Unit>)
    requires i <= |sql|
    decreases |sql| - i
  {
    if i == |sql| then [] else [UnitAt(sql, i, escapes)] + Units(sql, UnitAt(sql, i, escapes).end, escapes)
  }

  predicate IsTrivia(u: Unit) {
    u.kind.Space? || u.kind.LineComment? || u.kind.BlockComment?
  }

  /** Past the whitespace and comments at `i`. The backslash mode plays no part in those. */
  function TriviaEnd(sql: seq<byte>, i: nat): (end: nat)
    requires i <= |sql|
    ensures i <= end <= |sql|
    ensures end < |sql| ==> !IsTrivia(UnitAt(sql, end, false))
    decreases |sql| - i
  {
    if i < |sql| && IsTrivia(UnitAt(sql, i, false)) then TriviaEnd(sql, UnitAt(sql, i, false).end) else i
  }

  lemma TriviaStep(sql: seq<byte>, i: nat)
    requires i < |sql|
    ensures TriviaEnd(sql, i) ==
            if IsSpace(sql[i]) then TriviaEnd(sql, i + 1)
            else if sql[i] == HASH then TriviaEnd(sql, LineEnd(sql, i + 1))
            else if DashCommentAt(sql, i) then TriviaEnd(sql, LineEnd(sql, i + 2))
            else if BlockCommentAt(sql, i) then TriviaEnd(sql, BlockEnd(sql, i + 2))
            else i
  {
    hide LineEnd, BlockEnd, QuotedEnd, BacktickFrom, WordEnd;
  }

  /** The scanner's trivia skipper stops at the first byte that is no trivia and says whether it moved at all. */
  method SkipTrivia(sql: seq<byte>, start: nat) returns (next: nat, separated: bool)
    requires start <= |sql|
    ensures next == TriviaEnd(sql, start)
    ensures separated <==> next > start
  {
    hide LineEnd, BlockEnd, TriviaEnd, IsSpace, DashCommentAt, BlockCommentAt;
    next := start;
    separated := false;
    while next < |sql|
      invariant start <= next <= |sql| && TriviaEnd(sql, next) == TriviaEnd(sql, start)
      invariant separated <==> next > start
      decreases |sql| - next
    {
      TriviaStep(sql, next);
      if IsSpace(sql[next]) {
        separated := true;
        next := next + 1;
      } else if sql[next] == HASH {
        separated := true;
        next := SkipLineComment(sql, next + 1);
      } else if DashCommentAt(sql, next) {
        separated := true;
        next := SkipLineComment(sql, next + 2);
      } else if BlockCommentAt(sql, next) {
        separated := true;
        next := SkipBlockComment(sql, next + 2);
      } else {
        return;
      }
    }
  }

  /////////////////////////////////////////////// the state machine

  datatype State = InSql | InSingleQuote | InDoubleQuote | InBacktick | InLineComment | InBlockComment

  datatype UnsafeKind = ExecutableComment | OptimizerHint

  /** One iteration of the machine: the next state and the next position. */
  function Step(sql: seq<byte>, i: nat, st: State, escapes: bool): (r: (State, nat))
    requires i < |sql|
    ensures i < r.1 <= |sql|
  {
    var b := sql[i];
    match st
    case InSql =>
      if b == SINGLE_QUOTE then (InSingleQuote, i + 1)
      else if b == DOUBLE_QUOTE then (InDoubleQuote, i + 1)
      else if b == BACKTICK then (InBacktick, i + 1)
      else if b == HASH then (InLineComment, i + 1)
      else if DashCommentAt(sql, i) then (InLineComment, i + 2)
      else if BlockCommentAt(sql, i) then (InBlockComment, i + 2)
      else (InSql, i + 1)
    case InSingleQuote => StepInQuotes(sql, i, st, SINGLE_QUOTE, escapes)
    case InDoubleQuote => StepInQuotes(sql, i, st, DOUBLE_QUOTE, escapes)
    case InBacktick => StepInQuotes(sql, i, st, BACKTICK, false)
    case InLineComment => if IsLineBreak(b) then (InSql, i + 1) else (st, i + 1)
    case InBlockComment => if BlockCloseAt(sql, i) then (InSql, i + 2) else (st, i + 1)
  }

  function StepInQuotes(sql: seq<byte>, i: nat, st: State, quote: byte, escapes: bool): (r: (State, nat))
    requires i < |sql|
    ensures i < r.1 <= |sql|
  {
    if escapes && sql[i] == BACKSLASH && i + 1 < |sql| then (st, i + 2)
    else if sql[i] != quote then (st, i + 1)
    else if i + 1 < |sql| && sql[i + 1] == quote then (st, i + 2)
    else (InSql, i + 1)
  }

  /** Where the machine meets its first unsafe comment in the SQL state, or the end of the input. */
  function FirstUnsafe(sql: seq<byte>, i: nat, st: State, escapes: bool): (at: nat)
    requires i <= |sql|
    ensures i <= at <= |sql|
    ensures at < |sql| ==> UnsafeCommentAt(sql, at)
    decreases |sql| - i
  {
    if i == |sql| then |sql|
    else if st == InSql && UnsafeCommentAt(sql, i) then i
    else
      var r := Step(sql, i, st, escapes);
      FirstUnsafe(sql, r.1, r.0, escapes)
  }

  datatype UnsafeResult = NothingFound | Found(kind: UnsafeKind)

  function UnsafeResultAt(sql: seq<byte>, at: nat): UnsafeResult
    requires at <= |sql| && (at < |sql| ==> UnsafeCommentAt(sql, at))
  {
    if at == |sql| then NothingFound
    else if sql[at + 2] == BANG then Found(ExecutableComment)
    else Found(OptimizerHint)
  }

  method ScanUnsafeComment(sql: seq<byte>, escapes: bool) returns (r: UnsafeResult)
    ensures r == UnsafeResultAt(sql, FirstUnsafe(sql, 0, InSql, escapes))
  {
    var st := InSql;
    var i := 0;
    while i < |sql|
      invariant 0 <= i <= |sql|
      invariant FirstUnsafe(sql, i, st, escapes) == FirstUnsafe(sql, 0, InSql, escapes)
    {
      ghost var next := Step(sql, i, st, escapes);
      ghost var unsafe := st == InSql && UnsafeCommentAt(sql, i);
      var b := sql[i];
      match st {
        case InSql =>
          if b == SINGLE_QUOTE {
            st := InSingleQuote;
          } else if b == DOUBLE_QUOTE {
            st := InDoubleQuote;
          } else if b == BACKTICK {
            st := InBacktick;
          } else if b == HASH {
            st := InLineComment;
          } else if b == DASH {
            if i + 1 < |sql| && sql[i + 1] == DASH && (i + 2 == |sql| || IsSpace(sql[i + 2])) {
              st := InLineComment;
              i := i + 1;
            }
          } else if b == SLASH {
            if i + 1 < |sql| && sql[i + 1] == ASTERISK {
              if i + 2 < |sql| {
                if sql[i + 2] == BANG {
                  return Found(ExecutableComment);
                } else if sql[i + 2] == PLUS {
                  return Found(OptimizerHint);
                }
              }
              st := InBlockComment;
              i := i + 1;
            }
          }
        case InSingleQuote =>
          if escapes && b == BACKSLASH && i + 1 < |sql| {
            i := i + 1;
          } else if b == SINGLE_QUOTE {
            if i + 1 < |sql| && sql[i + 1] == SINGLE_QUOTE {
              i := i + 1;
            } else {
              st := InSql;
            }
          }
        case InDoubleQuote =>
          if escapes && b == BACKSLASH && i + 1 < |sql| {
            i := i + 1;
          } else if b == DOUBLE_QUOTE {
            if i + 1 < |sql| && sql[i + 1] == DOUBLE_QUOTE {
              i := i + 1;
            } else {
              st := InSql;
            }
          }
        case InBacktick =>
          if b == BACKTICK {
            if i + 1 < |sql| && sql[i + 1] == BACKTICK {
              i := i + 1;
            } else {
              st := InSql;
            }
          }
        case InLineComment =>
          if b == LINE_FEED || b == CARRIAGE_RETURN {
            st := InSql;
          }
        case InBlockComment =>
          if b == ASTERISK && i + 1 < |sql| && sql[i + 1] == SLASH {
            st := InSql;
            i := i + 1;
          }
      }
      i := i + 1;
      assert !unsafe && (st, i) == next;
    }
    return NothingFound;
  }

  /** Both backslash modes are scanned, the escaping one first. */
  method FindUnsafeComment(sql: seq<byte>) returns (r: UnsafeResult)
    ensures var first := UnsafeResultAt(sql, FirstUnsafe(sql, 0, InSql, true));
            r == if first.Found? then first else UnsafeResultAt(sql, FirstUnsafe(sql, 0, InSql, false))
  {
    r := ScanUnsafeComment(sql, true);
    if r.NothingFound? {
      r := ScanUnsafeComment(sql, false);
    }
  }
}
