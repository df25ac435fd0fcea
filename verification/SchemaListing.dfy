/** `mysql.metadata.schemas`: the allow-list applied in SQL before the row bound, one look-ahead row, the same
    allow-list applied again in Go, and the truncation flag. */
module SchemaListing {
  import opened Results
  import opened Utf8
  import opened SchemaFilter
  import SqlLike

  const MAX_INT := 0x7FFF_FFFF_FFFF_FFFF

  datatype SchemaInfo = SchemaInfo(name: seq<byte>, charset: seq<byte>, collation: seq<byte>)

  datatype ListError = InvalidName(index: nat) | InvalidPattern(index: nat)

  /** A disjunct of the WHERE clause together with its bound arguments. */
  datatype Clause = NameIn(names: seq<Name>) | NameLike(pattern: seq<byte>)

  predicate Holds(clause: Clause, name: seq<byte>) {
    match clause
    case NameIn(names) => name in names
    case NameLike(pattern) => SqlLike.Like(pattern, name)
  }

  /** What the server answers: the catalogue rows, in its order, for which some disjunct holds. */
  function Selected(catalog: seq<SchemaInfo>, clauses: seq<Clause>): seq<SchemaInfo> {
    if catalog == [] then []
    else (if exists c :: c in clauses && Holds(c, catalog[0].name) then [catalog[0]] else [])
         + Selected(catalog[1..], clauses)
  }

  /** The promise: the catalogue rows, in order, that the allow-list permits. */
  function AllowedRows(catalog: seq<SchemaInfo>, exact: seq<Name>, patterns: seq<Name>)
    : (rows: seq<SchemaInfo>)
  {
    if catalog == [] then []
    else (if Permitted(catalog[0].name, exact, patterns) then [catalog[0]] else [])
         + AllowedRows(catalog[1..], exact, patterns)
  }

  function FirstRows<T>(rows: seq<T>, limit: nat): seq<T> {
    if |rows| <= limit then rows else rows[..limit]
  }

  /** The first list entry that configuration validation would have refused. */
  ghost predicate Refused(names: seq<Name>, patterns: seq<Name>) {
    (exists n :: n in names && !ValidIdentifier(n)) || (exists p :: p in patterns && !ValidPattern(p))
  }

  ghost function ClausesFor(names: seq<Name>, patterns: seq<Name>): seq<Clause> {
    (if names == [] then [] else [NameIn(names)])
    + seq(|patterns|, i requires 0 <= i < |patterns| => NameLike(SqlLike.Convert(Runes(patterns[i]))))
  }

  method BuildClauses(names: seq<Name>, patterns: seq<Name>) returns (r: Result<seq<Clause>, ListError>)
    ensures r.Success? <==> !Refused(names, patterns)
    ensures r.Success? ==> r.value == ClausesFor(names, patterns)
    ensures r.Failure? ==>
              match r.error
              case InvalidName(i) => i < |names| && !ValidIdentifier(names[i])
              case InvalidPattern(i) => i < |patterns| && !ValidPattern(patterns[i])
  {
    hide ValidIdentifier, ValidPattern, SqlLike.Convert, Runes;
    var clauses: seq<Clause> := [];
    if |names| > 0 {
      for i := 0 to |names|
        invariant forall j :: 0 <= j < i ==> ValidIdentifier(names[j])
      {
        if !ValidIdentifier(names[i]) {
          return Failure(InvalidName(i));
        }
      }
      clauses := [NameIn(names)];
    }
    ghost var head := clauses;
    for i := 0 to |patterns|
      invariant forall j :: 0 <= j < i ==> ValidPattern(patterns[j])
      invariant |clauses| == |head| + i && clauses[..|head|] == head
      invariant forall j :: 0 <= j < i ==> clauses[|head| + j] == NameLike(SqlLike.Convert(Runes(patterns[j])))
    {
      if !ValidPattern(patterns[i]) {
        return Failure(InvalidPattern(i));
      }
      var like := SqlLike.ToSQLLike(patterns[i]);
      clauses := clauses + [NameLike(like)];
    }
    assert clauses == ClausesFor(names, patterns);
    return Success(clauses);
  }

  /** The bounded read: rows are appended until the source ends or the bound is met. */
  method ListSchemas(rows: seq<SchemaInfo>, maxRows: nat) returns (result: seq<SchemaInfo>)
    ensures result == FirstRows(rows, maxRows)
  {
    result := [];
    var next := 0;
    while next < |rows|
      invariant 0 <= next <= |rows| && next <= maxRows
      invariant result == rows[..next]
    {
      if |result| >= maxRows {
        break;
      }
      result := result + [rows[next]];
      next := next + 1;
    }
  }

  method ListSchemasAllowed(catalog: seq<SchemaInfo>, names: seq<Name>, patterns: seq<Name>, maxRows: nat)
    returns (r: Result<seq<SchemaInfo>, ListError>)
    ensures r.Success? <==> !Refused(names, patterns)
    ensures r.Success? && (Restricted(names, patterns) ==> NamesValid(catalog)) ==>
              r.value == FirstRows(AllowedRows(catalog, names, patterns), maxRows)
  {
    if !Restricted(names, patterns) {
      UnrestrictedAllowsAll(catalog);
      var all := ListSchemas(catalog, maxRows);
      return Success(all);
    }
    var clauses := BuildClauses(names, patterns);
    if clauses.Failure? {
      return Failure(clauses.error);
    }
    if NamesValid(catalog) {
      SqlSelectsAllowed(catalog, names, patterns);
    }
    var rows := ListSchemas(Selected(catalog, clauses.value), maxRows);
    return Success(rows);
  }

  predicate NamesValid(catalog: seq<SchemaInfo>) {
    forall i :: 0 <= i < |catalog| ==> Valid(catalog[i].name)
  }

  lemma {:induction false} UnrestrictedAllowsAll(catalog: seq<SchemaInfo>)
    ensures AllowedRows(catalog, [], []) == catalog
  {
    if catalog != [] {
      UnrestrictedAllowsAll(catalog[1..]);
    }
  }

  /** The WHERE clause built from valid lists selects exactly the permitted rows. */
  lemma {:induction false} SqlSelectsAllowed(catalog: seq<SchemaInfo>, names: seq<Name>, patterns: seq<Name>)
    requires Restricted(names, patterns) && !Refused(names, patterns) && NamesValid(catalog)
    ensures Selected(catalog, ClausesFor(names, patterns)) == AllowedRows(catalog, names, patterns)
  {
    if catalog != [] {
      SqlPermits(catalog[0].name, names, patterns);
      SqlSelectsAllowed(catalog[1..], names, patterns);
    }
  }

  ghost function PatternIndex(names: seq<Name>, i: nat): nat {
    if names == [] then i else i + 1
  }

  lemma PatternClauseShape(names: seq<Name>, patterns: seq<Name>, i: nat)
    requires i < |patterns|
    ensures |ClausesFor(names, patterns)| == PatternIndex(names, |patterns|)
    ensures ClausesFor(names, patterns)[PatternIndex(names, i)] == NameLike(SqlLike.Convert(Runes(patterns[i])))
  {
  }

  lemma PatternClause(name: seq<byte>, names: seq<Name>, patterns: seq<Name>, i: nat)
    requires Valid(name) && i < |patterns| && ValidPattern(patterns[i])
    requires |ClausesFor(names, patterns)| == PatternIndex(names, |patterns|)
    ensures Holds(ClausesFor(names, patterns)[PatternIndex(names, i)], name) <==> GlobAllows(patterns[i], name)
  {
    PatternClauseShape(names, patterns, i);
    SqlLike.LikeAgreesWithMatch(patterns[i], name);
  }

  lemma SqlPermits(name: seq<byte>, names: seq<Name>, patterns: seq<Name>)
    requires Restricted(names, patterns) && !Refused(names, patterns) && Valid(name)
    ensures (exists c :: c in ClausesFor(names, patterns) && Holds(c, name)) <==> Permitted(name, names, patterns)
  {
    var clauses := ClausesFor(names, patterns);
    if name in names {
      assert clauses[0] == NameIn(names) && clauses[0] in clauses;
    } else if p :| p in patterns && GlobAllows(p, name) {
      var i :| 0 <= i < |patterns| && patterns[i] == p;
      PatternClause(name, names, patterns, i);
      assert clauses[PatternIndex(names, i)] in clauses;
    } else {
      forall c | c in clauses
        ensures !Holds(c, name)
      {
        var j :| 0 <= j < |clauses| && clauses[j] == c;
        if names == [] || j > 0 {
          var i := if names == [] then j else j - 1;
          assert patterns[i] in patterns;
          PatternClause(name, names, patterns, i);
        }
      }
    }
  }

  lemma {:induction false} AllowedRowsConcat(
    a: seq<SchemaInfo>, b: seq<SchemaInfo>, exact: seq<Name>, patterns: seq<Name>)
    ensures AllowedRows(a + b, exact, patterns) == AllowedRows(a, exact, patterns) + AllowedRows(b, exact, patterns)
  {
    if a == [] {
      assert a + b == b;
    } else {
      assert (a + b)[1..] == a[1..] + b;
      AllowedRowsConcat(a[1..], b, exact, patterns);
    }
  }

  lemma {:induction false} AllowedRowsArePermitted(catalog: seq<SchemaInfo>, exact: seq<Name>, patterns: seq<Name>)
    ensures forall s :: s in AllowedRows(catalog, exact, patterns) <==>
                        s in catalog && Permitted(s.name, exact, patterns)
  {
    if catalog != [] {
      AllowedRowsArePermitted(catalog[1..], exact, patterns);
      assert catalog == [catalog[0]] + catalog[1..];
    }
  }

  lemma {:induction false} PermittedRowsUnfiltered(rows: seq<SchemaInfo>, exact: seq<Name>, patterns: seq<Name>)
    requires forall s :: s in rows ==> Permitted(s.name, exact, patterns)
    ensures AllowedRows(rows, exact, patterns) == rows
  {
    if rows != [] {
      assert rows[0] in rows && forall s :: s in rows[1..] ==> s in rows;
      PermittedRowsUnfiltered(rows[1..], exact, patterns);
    }
  }

  lemma BoundedRowsUnfiltered(catalog: seq<SchemaInfo>, limit: nat, exact: seq<Name>, patterns: seq<Name>)
    ensures var rows := FirstRows(AllowedRows(catalog, exact, patterns), limit);
            AllowedRows(rows, exact, patterns) == rows
  {
    hide AllowedRows, Permitted, FirstRows;
    AllowedRowsArePermitted(catalog, exact, patterns);
    FirstRowsAreRows(AllowedRows(catalog, exact, patterns), limit);
    PermittedRowsUnfiltered(FirstRows(AllowedRows(catalog, exact, patterns), limit), exact, patterns);
  }

  lemma FirstRowsIsPrefix<T>(rows: seq<T>, limit: nat)
    ensures FirstRows(rows, limit) == rows[..if |rows| < limit then |rows| else limit]
  {
  }

  lemma FirstRowsAreRows<T>(rows: seq<T>, limit: nat)
    ensures forall r :: r in FirstRows(rows, limit) ==> r in rows
  {
  }

  /** Reading one row too many and trimming shows the bound and whether it cut anything off. */
  lemma TrimOfLookAhead<T>(rows: seq<T>, maxRows: nat)
    requires maxRows <= MAX_INT
    ensures var read := FirstRows(rows, LookAhead(maxRows));
            && FirstRows(read, maxRows) == FirstRows(rows, maxRows)
            && (|read| > maxRows <==> maxRows < MAX_INT && |rows| > maxRows)
  {
  }

  lemma NoRowsAllowed(exact: seq<Name>, patterns: seq<Name>)
    ensures AllowedRows([], exact, patterns) == []
  {
  }

  lemma OneMoreRow(rows: seq<SchemaInfo>, i: nat, exact: seq<Name>, patterns: seq<Name>)
    requires i < |rows|
    ensures AllowedRows(rows[..i + 1], exact, patterns)
            == AllowedRows(rows[..i], exact, patterns)
               + if Permitted(rows[i].name, exact, patterns) then [rows[i]] else []
  {
    hide Permitted;
    assert rows[..i + 1] == rows[..i] + [rows[i]];
    AllowedRowsConcat(rows[..i], [rows[i]], exact, patterns);
    assert [rows[i]][1..] == [];
    NoRowsAllowed(exact, patterns);
  }

  lemma {:induction false} NoMoreAllowedRows(catalog: seq<SchemaInfo>, exact: seq<Name>, patterns: seq<Name>)
    ensures |AllowedRows(catalog, exact, patterns)| <= |catalog|
  {
    if catalog != [] {
      NoMoreAllowedRows(catalog[1..], exact, patterns);
    }
  }

  datatype SchemasOutput = SchemasOutput(schemas: seq<SchemaInfo>, truncated: bool)

  /** `trimMetadataRows`. */
  function Trim<T>(values: seq<T>, limit: nat): (r: (seq<T>, bool))
    ensures r == (FirstRows(values, limit), |values| > limit)
  {
    if |values| <= limit then (values, false) else (values[..limit], true)
  }

  /** The row bound the registry gives the metadata reader: one more than the response may hold, if there is one. */
  function LookAhead(maxRows: nat): nat {
    if maxRows < MAX_INT then maxRows + 1 else maxRows
  }

  /**
    * The tool. Whatever the catalogue holds, nothing outside the allow-list gets out. When its names are valid UTF-8
    * (or nothing is restricted), the rows are exactly the first `maxRows` permitted ones, and the flag tells exactly
    * whether more exist. (Without room for a look-ahead row it is false, and no Go slice could hold one more.)
    */
  method SchemasTool(catalog: seq<SchemaInfo>, exact: seq<Name>, patterns: seq<Name>, maxRows: nat)
    returns (r: Result<SchemasOutput, ListError>)
    requires maxRows <= MAX_INT
    ensures r.Success? <==> !Refused(exact, patterns)
    ensures r.Success? ==> forall s :: s in r.value.schemas ==> Permitted(s.name, exact, patterns)
    ensures r.Success? && (Restricted(exact, patterns) ==> NamesValid(catalog)) ==>
              var allowed := AllowedRows(catalog, exact, patterns);
              && r.value.schemas == FirstRows(allowed, maxRows)
              && r.value.truncated == (maxRows < MAX_INT && |allowed| > maxRows)
              && (|catalog| <= MAX_INT ==> r.value.truncated == (|allowed| > maxRows))
              && r.value.schemas == allowed[..if |allowed| < maxRows then |allowed| else maxRows]
  {
    hide AllowedRows, Permitted, FirstRows;
    var listed := ListSchemasAllowed(catalog, exact, patterns, LookAhead(maxRows));
    if listed.Failure? {
      return Failure(listed.error);
    }
    var schemas := listed.value;
    var filtered: seq<SchemaInfo> := [];
    NoRowsAllowed(exact, patterns);
    for i := 0 to |schemas|
      invariant filtered == AllowedRows(schemas[..i], exact, patterns)
    {
      var allowed := Allows(schemas[i].name, exact, patterns);
      OneMoreRow(schemas, i, exact, patterns);
      if allowed {
        filtered := filtered + [schemas[i]];
      }
    }
    assert schemas[..|schemas|] == schemas;
    AllowedRowsArePermitted(schemas, exact, patterns);
    if Restricted(exact, patterns) ==> NamesValid(catalog) {
      BoundedRowsUnfiltered(catalog, LookAhead(maxRows), exact, patterns);
      TrimOfLookAhead(AllowedRows(catalog, exact, patterns), maxRows);
      NoMoreAllowedRows(catalog, exact, patterns);
      FirstRowsIsPrefix(AllowedRows(catalog, exact, patterns), maxRows);
    }
    FirstRowsAreRows(filtered, maxRows);
    var trimmed := Trim(filtered, maxRows);
    return Success(SchemasOutput(trimmed.0, trimmed.1));
  }
}
