/** The one SQL text the server builds itself: the SELECT that calls a configured stored function. The identifier
    printer is the inverse of the scanner's identifier reader, so the text lexes to what was meant. */
module FunctionStatement {
  import opened Results
  import opened Utf8
  import opened SchemaFilter
  import opened Lexer
  import Regions

  const COMMA: byte := 0x2C
  const DOT: byte := 0x2E
  const CLOSE_PAREN: byte := 0x29
  const QUESTION: byte := 0x3F
  const SELECT: seq<byte> := [0x53, 0x45, 0x4C, 0x45, 0x43, 0x54]
  const AS: seq<byte> := [0x41, 0x53]
  const RESULT: seq<byte> := [0x72, 0x65, 0x73, 0x75, 0x6C, 0x74]

  function DoubleBackticks(id: seq<byte>): seq<byte> {
    if id == [] then []
    else (if id[0] == BACKTICK then [BACKTICK, BACKTICK] else [id[0]]) + DoubleBackticks(id[1..])
  }

  function Quoted(id: seq<byte>): seq<byte> {
    [BACKTICK] + DoubleBackticks(id) + [BACKTICK]
  }

  function QuoteIdentifier(id: seq<byte>): Result<seq<byte>, PatternError> {
    match PatternProblem(id)
    case Some(problem) => Failure(problem)
    case None => Success(Quoted(id))
  }

  /** `text` stands in `sql` at position `i`. */
  ghost predicate Spells(sql: seq<byte>, i: nat, text: seq<byte>) {
    i + |text| <= |sql| && forall k :: i <= k < i + |text| ==> sql[k] == text[k - i]
  }

  lemma SpellsParts(sql: seq<byte>, i: nat, a: seq<byte>, b: seq<byte>)
    requires Spells(sql, i, a + b)
    ensures Spells(sql, i, a) && Spells(sql, i + |a|, b)
  {
    assert forall k :: 0 <= k < |a| ==> (a + b)[k] == a[k];
    assert forall k :: 0 <= k < |b| ==> (a + b)[|a| + k] == b[k];
  }

  lemma SpelledByte(sql: seq<byte>, i: nat, b: byte)
    requires Spells(sql, i, [b])
    ensures i < |sql| && sql[i] == b
  {
  }

  /** Reading what the printer wrote gives the identifier back, wherever it stands and whatever follows, as long as
      that does not start with another backtick. */
  lemma {:induction false} ReadBack(sql: seq<byte>, i: nat, id: seq<byte>)
    requires Spells(sql, i, DoubleBackticks(id)) && i + |DoubleBackticks(id)| < |sql|
    requires var end := i + |DoubleBackticks(id)|;
             sql[end] == BACKTICK && (end + 1 < |sql| ==> sql[end + 1] != BACKTICK)
    ensures BacktickFrom(sql, i) == Backticked(id, i + |DoubleBackticks(id)| + 1, true)
    decreases |id|
  {
    if id != [] {
      var first := if id[0] == BACKTICK then [BACKTICK, BACKTICK] else [id[0]];
      var rest := DoubleBackticks(id[1..]);
      assert DoubleBackticks(id) == first + rest;
      SpellsParts(sql, i, first, rest);
      ReadBack(sql, i + |first|, id[1..]);
      ReadOne(sql, i, first, Backticked(id[1..], i + |first| + |rest| + 1, true));
      assert [id[0]] + id[1..] == id;
    }
  }

  lemma ReadOne(sql: seq<byte>, i: nat, first: seq<byte>, rest: Backticked)
    requires first == [BACKTICK, BACKTICK] || (|first| == 1 && first[0] != BACKTICK)
    requires Spells(sql, i, first) && BacktickFrom(sql, i + |first|) == rest
    ensures BacktickFrom(sql, i) == PrependTo(first[0], rest)
  {
    assert sql[i] == first[0];
    if |first| == 2 {
      assert sql[i + 1] == first[1];
    }
  }

  lemma QuotedReadsBack(id: seq<byte>, prefix: seq<byte>, rest: seq<byte>)
    requires rest != [] ==> rest[0] != BACKTICK
    ensures BacktickFrom(prefix + Quoted(id) + rest, |prefix| + 1)
            == Backticked(id, |prefix| + |Quoted(id)|, true)
  {
    hide BacktickFrom, DoubleBackticks;
    var sql := prefix + Quoted(id) + rest;
    SpellsBetween(prefix, Quoted(id), rest);
    SpellsParts(sql, |prefix|, [BACKTICK] + DoubleBackticks(id), [BACKTICK]);
    SpellsParts(sql, |prefix|, [BACKTICK], DoubleBackticks(id));
    ReadBack(sql, |prefix| + 1, id);
  }

  lemma SpellsBetween(prefix: seq<byte>, piece: seq<byte>, rest: seq<byte>)
    ensures Spells(prefix + piece + rest, |prefix|, piece)
  {
  }

  /** The condition on what follows is needed: before another backtick, the reader runs on. */
  lemma BacktickContinuationRunsOn()
    ensures BacktickFrom(Quoted([0x61]) + [BACKTICK], 1) != Backticked([0x61], 3, true)
  {
    var id: seq<byte> := [0x61];
    assert id[1..] == [] && DoubleBackticks(id) == id;
    var sql := Quoted(id) + [BACKTICK];
    assert sql == [BACKTICK, 0x61, BACKTICK, BACKTICK];
    assert BacktickFrom(sql, 4) == Backticked([], 4, false);
    assert BacktickFrom(sql, 2) == BacktickFrom(sql, 4);
  }

  /////////////////////////////////////////////// the generated text

  function Repeat(piece: seq<byte>, n: nat): seq<byte> {
    if n == 0 then [] else piece + Repeat(piece, n - 1)
  }

  function TrimSuffix(text: seq<byte>, b: byte): seq<byte> {
    if text != [] && text[|text| - 1] == b then text[..|text| - 1] else text
  }

  function CallStatement(quotedSchema: seq<byte>, quotedName: seq<byte>, arguments: nat): seq<byte> {
    SELECT + [BLANK] + quotedSchema + [DOT] + quotedName + [OPEN_PAREN]
    + TrimSuffix(Repeat([QUESTION, COMMA], arguments), COMMA)
    + [CLOSE_PAREN, BLANK] + AS + [BLANK] + Quoted(RESULT)
  }

  function BuildCall(schema: seq<byte>, name: seq<byte>, arguments: nat): Result<seq<byte>, PatternError> {
    var quotedSchema := QuoteIdentifier(schema);
    if quotedSchema.Failure? then quotedSchema
    else
      var quotedName := QuoteIdentifier(name);
      if quotedName.Failure? then quotedName
      else Success(CallStatement(quotedSchema.value, quotedName.value, arguments))
  }

  /////////////////////////////////////////////// tokens

  datatype Token = Plain(text: seq<byte>) | Id(value: seq<byte>) | Comment | StringText | Symbol(b: byte) | Unclosed

  function TokenOf(sql: seq<byte>, u: Unit): Token
    requires u.start < u.end <= |sql|
  {
    match u.kind
    case Word => Plain(sql[u.start..u.end])
    case Identifier(value, closed) => if closed then Id(value) else Unclosed
    case Text(_) => StringText
    case Other => Symbol(sql[u.start])
    case _ => Comment
  }

  /** The tokens from `i` on: whitespace is dropped, comments are not. */
  function Tokens(sql: seq<byte>, i: nat, escapes: bool): seq<Token>
    requires i <= |sql|
    decreases |sql| - i
  {
    if i == |sql| then []
    else
      var u := UnitAt(sql, i, escapes);
      (if u.kind.Space? then [] else [TokenOf(sql, u)]) + Tokens(sql, u.end, escapes)
  }

  function Placeholders(n: nat): seq<Token> {
    if n == 0 then [] else if n == 1 then [Symbol(QUESTION)]
    else [Symbol(QUESTION), Symbol(COMMA)] + Placeholders(n - 1)
  }

  lemma {:induction false} WordEndAt(sql: seq<byte>, i: nat, end: nat)
    requires i <= end <= |sql| && forall k :: i <= k < end ==> IsIdentifierPart(sql[k])
    requires end < |sql| ==> !IsIdentifierPart(sql[end])
    ensures WordEnd(sql, i) == end
    decreases end - i
  {
    if i < end {
      WordEndAt(sql, i + 1, end);
    }
  }

  lemma WordToken(sql: seq<byte>, i: nat, word: seq<byte>, escapes: bool)
    requires word != [] && Spells(sql, i, word) && IsIdentifierStart(word[0])
    requires forall k :: 0 <= k < |word| ==> IsIdentifierPart(word[k])
    requires i + |word| < |sql| ==> !IsIdentifierPart(sql[i + |word|])
    ensures Tokens(sql, i, escapes) == [Plain(word)] + Tokens(sql, i + |word|, escapes)
  {
    hide WordEnd;
    SpellsSlice(sql, i, word);
    WordEndAt(sql, i + 1, i + |word|);
    assert UnitAt(sql, i, escapes) == Unit(i, i + |word|, Word) by {
      assert sql[i] == word[0];
    }
  }

  lemma SpellsSlice(sql: seq<byte>, i: nat, text: seq<byte>)
    requires Spells(sql, i, text)
    ensures sql[i..i + |text|] == text
  {
  }

  lemma TokensStep(sql: seq<byte>, i: nat, escapes: bool)
    requires i < |sql|
    ensures var u := UnitAt(sql, i, escapes);
            Tokens(sql, i, escapes)
            == (if u.kind.Space? then [] else [TokenOf(sql, u)]) + Tokens(sql, u.end, escapes)
  {
    hide UnitAt, TokenOf;
  }

  lemma IdentifierUnit(sql: seq<byte>, i: nat, escapes: bool)
    requires i < |sql| && sql[i] == BACKTICK
    ensures var id := BacktickFrom(sql, i + 1);
            UnitAt(sql, i, escapes) == Unit(i, id.next, Identifier(id.value, id.closed))
  {
    hide BacktickFrom, LineEnd, BlockEnd, QuotedEnd, WordEnd;
  }

  lemma OpeningBacktick(sql: seq<byte>, i: nat, id: seq<byte>)
    requires Spells(sql, i, Quoted(id))
    ensures |Quoted(id)| == |DoubleBackticks(id)| + 2 && i + |Quoted(id)| <= |sql|
    ensures sql[i] == BACKTICK && Spells(sql, i + 1, DoubleBackticks(id)) && sql[i + |Quoted(id)| - 1] == BACKTICK
  {
    hide DoubleBackticks;
    SpellsParts(sql, i, [BACKTICK] + DoubleBackticks(id), [BACKTICK]);
    SpellsParts(sql, i, [BACKTICK], DoubleBackticks(id));
  }

  lemma IdentifierToken(sql: seq<byte>, i: nat, id: seq<byte>, escapes: bool)
    requires Spells(sql, i, Quoted(id))
    requires i + |Quoted(id)| < |sql| ==> sql[i + |Quoted(id)|] != BACKTICK
    ensures Tokens(sql, i, escapes) == [Id(id)] + Tokens(sql, i + |Quoted(id)|, escapes)
  {
    hide BacktickFrom, DoubleBackticks, UnitAt, Spells, Quoted, Tokens;
    OpeningBacktick(sql, i, id);
    ReadBack(sql, i + 1, id);
    IdentifierUnit(sql, i, escapes);
    TokensStep(sql, i, escapes);
  }

  lemma SymbolToken(sql: seq<byte>, i: nat, b: byte, escapes: bool)
    requires i < |sql| && sql[i] == b
    requires b == DOT || b == OPEN_PAREN || b == CLOSE_PAREN || b == QUESTION || b == COMMA
    ensures Tokens(sql, i, escapes) == [Symbol(b)] + Tokens(sql, i + 1, escapes)
  {
    hide Tokens, LineEnd, BlockEnd, QuotedEnd, BacktickFrom, WordEnd;
    TokensStep(sql, i, escapes);
  }

  lemma BlankToken(sql: seq<byte>, i: nat, escapes: bool)
    requires i < |sql| && sql[i] == BLANK
    ensures Tokens(sql, i, escapes) == Tokens(sql, i + 1, escapes)
  {
    hide Tokens, LineEnd, BlockEnd, QuotedEnd, BacktickFrom, WordEnd;
    TokensStep(sql, i, escapes);
  }

  function ArgumentText(n: nat): seq<byte> {
    TrimSuffix(Repeat([QUESTION, COMMA], n), COMMA)
  }

  lemma {:induction false} RepeatEnds(n: nat)
    requires n > 0
    ensures var text := Repeat([QUESTION, COMMA], n); |text| == 2 * n && text[|text| - 1] == COMMA
  {
    if n > 1 {
      RepeatEnds(n - 1);
    }
  }

  lemma ArgumentTextStep(n: nat)
    ensures ArgumentText(0) == [] && ArgumentText(1) == [QUESTION]
    ensures n > 1 ==> ArgumentText(n) == [QUESTION, COMMA] + ArgumentText(n - 1)
  {
    assert Repeat([QUESTION, COMMA], 1) == [QUESTION, COMMA];
    if n > 1 {
      RepeatEnds(n);
      RepeatEnds(n - 1);
    }
  }

  lemma {:induction false} ArgumentTokens(sql: seq<byte>, i: nat, n: nat, escapes: bool)
    requires Spells(sql, i, ArgumentText(n))
    ensures Tokens(sql, i, escapes) == Placeholders(n) + Tokens(sql, i + |ArgumentText(n)|, escapes)
    decreases n
  {
    hide Tokens, UnitAt;
    ArgumentTextStep(n);
    if n == 1 {
      SymbolToken(sql, i, QUESTION, escapes);
    } else if n > 1 {
      SpellsParts(sql, i, [QUESTION, COMMA], ArgumentText(n - 1));
      assert sql[i] == QUESTION && sql[i + 1] == COMMA;
      SymbolToken(sql, i, QUESTION, escapes);
      SymbolToken(sql, i + 1, COMMA, escapes);
      ArgumentTokens(sql, i + 2, n - 1, escapes);
      JoinTokens([Symbol(QUESTION), Symbol(COMMA)], Placeholders(n - 1), Tokens(sql, i + |ArgumentText(n)|, escapes));
    }
  }

  lemma JoinTokens(a: seq<Token>, b: seq<Token>, c: seq<Token>)
    ensures a + (b + c) == a + b + c
  {
  }

  /** What the generated statement is meant to be. */
  function CallTokens(schema: seq<byte>, name: seq<byte>, arguments: nat): seq<Token> {
    [Plain([0x53, 0x45, 0x4C, 0x45, 0x43, 0x54]), Id(schema), Symbol(0x2E), Id(name), Symbol(0x28)]
    + Placeholders(arguments)
    + [Symbol(0x29), Plain([0x41, 0x53]), Id([0x72, 0x65, 0x73, 0x75, 0x6C, 0x74])]
  }

  lemma NoTokensAtEnd(sql: seq<byte>, escapes: bool)
    ensures Tokens(sql, |sql|, escapes) == []
  {
  }

  lemma TailTokens(sql: seq<byte>, i: nat, escapes: bool)
    requires Spells(sql, i, [CLOSE_PAREN, BLANK] + AS + [BLANK] + Quoted(RESULT))
    requires |sql| == i + 5 + |Quoted(RESULT)|
    ensures Tokens(sql, i, escapes) == [Symbol(CLOSE_PAREN), Plain(AS), Id(RESULT)]
  {
    hide Tokens, UnitAt, Spells, Quoted;
    SpellsParts(sql, i, [CLOSE_PAREN, BLANK] + AS + [BLANK], Quoted(RESULT));
    SpellsParts(sql, i, [CLOSE_PAREN, BLANK] + AS, [BLANK]);
    SpellsParts(sql, i, [CLOSE_PAREN, BLANK], AS);
    SpellsParts(sql, i, [CLOSE_PAREN], [BLANK]);
    SpelledByte(sql, i, CLOSE_PAREN);
    SpelledByte(sql, i + 1, BLANK);
    SpelledByte(sql, i + 4, BLANK);
    SymbolToken(sql, i, CLOSE_PAREN, escapes);
    BlankToken(sql, i + 1, escapes);
    WordToken(sql, i + 2, AS, escapes);
    BlankToken(sql, i + 4, escapes);
    IdentifierToken(sql, i + 5, RESULT, escapes);
    NoTokensAtEnd(sql, escapes);
  }

  function Head(schema: seq<byte>, name: seq<byte>): seq<byte> {
    SELECT + [BLANK] + Quoted(schema) + [DOT] + Quoted(name) + [OPEN_PAREN]
  }

  lemma HeadTokens(sql: seq<byte>, schema: seq<byte>, name: seq<byte>, escapes: bool)
    requires Spells(sql, 0, Head(schema, name))
    ensures Tokens(sql, 0, escapes)
            == [Plain(SELECT), Id(schema), Symbol(DOT), Id(name), Symbol(OPEN_PAREN)]
               + Tokens(sql, |Head(schema, name)|, escapes)
  {
    hide Tokens, UnitAt, Quoted, Spells;
    var beforeParen := SELECT + [BLANK] + Quoted(schema) + [DOT] + Quoted(name);
    var beforeName := SELECT + [BLANK] + Quoted(schema) + [DOT];
    SpellsParts(sql, 0, beforeParen, [OPEN_PAREN]);
    SpellsParts(sql, 0, beforeName, Quoted(name));
    SpellsParts(sql, 0, SELECT + [BLANK] + Quoted(schema), [DOT]);
    SpellsParts(sql, 0, SELECT + [BLANK], Quoted(schema));
    SpellsParts(sql, 0, SELECT, [BLANK]);
    SpelledByte(sql, 6, BLANK);
    SpelledByte(sql, |beforeName| - 1, DOT);
    SpelledByte(sql, |beforeParen|, OPEN_PAREN);
    WordToken(sql, 0, SELECT, escapes);
    BlankToken(sql, 6, escapes);
    IdentifierToken(sql, 7, schema, escapes);
    SymbolToken(sql, |beforeName| - 1, DOT, escapes);
    IdentifierToken(sql, |beforeName|, name, escapes);
    SymbolToken(sql, |beforeParen|, OPEN_PAREN, escapes);
  }

  /** For all identifiers and argument counts, and in both backslash modes, the statement lexes to exactly the call. */
  lemma GeneratedCallLexes(schema: seq<byte>, name: seq<byte>, arguments: nat, escapes: bool)
    ensures Tokens(CallStatement(Quoted(schema), Quoted(name), arguments), 0, escapes)
            == CallTokens(schema, name, arguments)
  {
    hide Tokens, UnitAt, Quoted, Placeholders, TrimSuffix, Repeat;
    var sql := CallStatement(Quoted(schema), Quoted(name), arguments);
    var head, middle := Head(schema, name), ArgumentText(arguments);
    var tail := [CLOSE_PAREN, BLANK] + AS + [BLANK] + Quoted(RESULT);
    assert sql == head + middle + tail;
    SpellsParts(sql, 0, head + middle, tail);
    SpellsParts(sql, 0, head, middle);
    HeadTokens(sql, schema, name, escapes);
    ArgumentTokens(sql, |head|, arguments, escapes);
    TailTokens(sql, |head| + |middle|, escapes);
  }

  /** The statement is built exactly for two valid identifiers, and then lexes to the call. */
  lemma BuildCallIsTheCall(schema: seq<byte>, name: seq<byte>, arguments: nat, escapes: bool)
    ensures BuildCall(schema, name, arguments).Success? <==> ValidIdentifier(schema) && ValidIdentifier(name)
    ensures BuildCall(schema, name, arguments).Success? ==>
              Tokens(BuildCall(schema, name, arguments).value, 0, escapes) == CallTokens(schema, name, arguments)
  {
    hide Tokens, CallTokens, Quoted, CallStatement;
    GeneratedCallLexes(schema, name, arguments, escapes);
  }

  /** A text without comment tokens has no unsafe comment. */
  lemma {:induction false} NoCommentTokensNoUnsafe(sql: seq<byte>, i: nat, escapes: bool)
    requires i <= |sql| && Comment !in Tokens(sql, i, escapes)
    ensures |Regions.UnitRegions(sql, i, escapes)| == |sql| - i
    decreases |sql| - i
  {
    if i < |sql| {
      var u := UnitAt(sql, i, escapes);
      if !u.kind.Space? {
        assert TokenOf(sql, u) == Tokens(sql, i, escapes)[0];
        assert Tokens(sql, u.end, escapes) == Tokens(sql, i, escapes)[1..];
      }
      NoCommentTokensNoUnsafe(sql, u.end, escapes);
    }
  }

  lemma {:induction false} PlaceholdersAreSymbols(n: nat)
    ensures Comment !in Placeholders(n)
  {
    if n > 1 {
      PlaceholdersAreSymbols(n - 1);
    }
  }

  /** So the comment scanner, in both modes, finds nothing in it. */
  lemma GeneratedCallIsSafe(schema: seq<byte>, name: seq<byte>, arguments: nat, escapes: bool)
    ensures var sql := CallStatement(Quoted(schema), Quoted(name), arguments);
            FirstUnsafe(sql, 0, InSql, escapes) == |sql|
  {
    var sql := CallStatement(Quoted(schema), Quoted(name), arguments);
    GeneratedCallLexes(schema, name, arguments, escapes);
    PlaceholdersAreSymbols(arguments);
    NoCommentTokensNoUnsafe(sql, 0, escapes);
    Regions.ScannersAgree(sql, escapes);
  }

  /** Distinct calls have distinct texts: nothing in an identifier can pass for another identifier or an argument. */
  lemma GeneratedCallInjective(
    schema: seq<byte>, name: seq<byte>, arguments: nat, schema': seq<byte>, name': seq<byte>, arguments': nat)
    requires CallStatement(Quoted(schema), Quoted(name), arguments)
             == CallStatement(Quoted(schema'), Quoted(name'), arguments')
    ensures schema == schema' && name == name' && arguments == arguments'
  {
    GeneratedCallLexes(schema, name, arguments, true);
    GeneratedCallLexes(schema', name', arguments', true);
    var tokens := CallTokens(schema, name, arguments);
    assert tokens == CallTokens(schema', name', arguments');
    assert tokens[1] == Id(schema) && tokens[1] == Id(schema');
    assert tokens[3] == Id(name) && tokens[3] == Id(name');
    PlaceholderCount(arguments);
    PlaceholderCount(arguments');
  }

  lemma {:induction false} PlaceholderCount(n: nat)
    ensures |Placeholders(n)| == if n == 0 then 0 else 2 * n - 1
  {
    if n > 1 {
      PlaceholderCount(n - 1);
    }
  }
}
