/** Configuration validation, as far as the other modules rely on it. Checks with no bearing on them (addresses, TLS,
    pool sizes, credential sources, timeouts) are one flag. */
module Config {
  import opened Results
  import opened Utf8
  import opened SchemaFilter
  import opened Functions
  import opened Text
  import SchemaListing
  import SchemaPolicy
  import StatementPolicy
  import Glob
  import Limiter
  import QueryScan
  import QueryWire

  datatype Features = Features(dml: bool, ddl: bool, admin: bool, functionWrite: bool) {
    predicate AnyWrite() {
      dml || ddl || admin || functionWrite
    }
  }

  datatype Server = Server(readOnly: bool, features: Features, defaultRows: int, maxRows: int, maxResultBytes: int,
                           maxConcurrency: int, plumbingValid: bool)

  datatype Datasource = Datasource(
    name: Name, defaultDb: Name, exact: seq<Name>, patterns: seq<Name>, readOnly: bool, writeConfigured: bool,
    monitorConfigured: bool, monitoring: bool, functions: seq<FunctionAllow>, plumbingValid: bool)

  datatype ServerConfig = ServerConfig(server: Server, datasources: seq<Datasource>)

  predicate IsAlphanumeric(b: byte) {
    0x30 <= b <= 0x39 || 0x41 <= b <= 0x5A || 0x61 <= b <= 0x7A
  }

  /** `^[A-Za-z0-9][A-Za-z0-9_-]{0,63}$`. */
  predicate ValidSourceName(name: Name) {
    && 1 <= |name| <= 64 && IsAlphanumeric(name[0])
    && forall i :: 0 <= i < |name| ==> IsAlphanumeric(name[i]) || name[i] == 0x5F || name[i] == 0x2D
  }

  ghost predicate Distinct(names: seq<Name>) {
    forall i, j :: 0 <= i < j < |names| ==> names[i] != names[j]
  }

  predicate EffectiveReadOnly(server: Server, d: Datasource) {
    server.readOnly || d.readOnly
  }

  ghost predicate SchemaListsValid(d: Datasource) {
    && (forall i :: 0 <= i < |d.exact| ==> ValidIdentifier(d.exact[i])) && Distinct(d.exact)
    && (forall i :: 0 <= i < |d.patterns| ==> (Glob.STAR in d.patterns[i]) && ValidPattern(d.patterns[i]))
    && Distinct(d.patterns)
    && (d.defaultDb != [] ==> ValidIdentifier(d.defaultDb) && Permitted(d.defaultDb, d.exact, d.patterns))
  }

  /** Neither the server nor the source is read-only, and some feature writes. */
  ghost predicate MayWrite(server: Server, d: Datasource) {
    && !server.readOnly && !d.readOnly
    && (server.features.dml || server.features.ddl || server.features.admin || server.features.functionWrite)
  }

  ghost predicate DatasourceValid(d: Datasource, server: Server, lower: Name -> Name) {
    && ValidSourceName(d.name) && SchemaListsValid(d) && d.plumbingValid
    && (MayWrite(server, d) ==> d.writeConfigured)
    && EntriesValid(d.functions, server.features.functionWrite, server.readOnly || d.readOnly, lower)
    && (forall i :: 0 <= i < |d.functions| ==> Permitted(Cut(d.functions[i].name, DOT).0, d.exact, d.patterns))
  }

  ghost predicate ServerValid(s: Server) {
    && s.plumbingValid
    && (s.readOnly ==> !s.features.dml && !s.features.ddl && !s.features.admin && !s.features.functionWrite)
    && 0 < s.defaultRows <= s.maxRows && 0 < s.maxResultBytes && 0 < s.maxConcurrency
  }

  ghost predicate ConfigValid(c: ServerConfig, lower: Name -> Name) {
    && ServerValid(c.server) && c.datasources != []
    && (forall i :: 0 <= i < |c.datasources| ==> DatasourceValid(c.datasources[i], c.server, lower))
    && (forall i, j :: 0 <= i < j < |c.datasources| ==> c.datasources[i].name != c.datasources[j].name)
  }

  method NoDuplicates(names: seq<Name>) returns (ok: bool)
    ensures ok <==> Distinct(names)
  {
    var seen: set<Name> := {};
    for i := 0 to |names|
      invariant forall j, k :: 0 <= j < k < i ==> names[j] != names[k]
      invariant seen == set j | 0 <= j < i :: names[j]
    {
      if names[i] in seen {
        return false;
      }
      seen := seen + {names[i]};
    }
    return true;
  }

  method ValidateSchemaLists(d: Datasource) returns (ok: bool)
    ensures ok <==> SchemaListsValid(d)
  {
    hide PatternProblem, GlobAllows;
    if d.defaultDb != [] && !ValidIdentifier(d.defaultDb) {
      return false;
    }
    for i := 0 to |d.exact|
      invariant forall j :: 0 <= j < i ==> ValidIdentifier(d.exact[j])
    {
      if !ValidIdentifier(d.exact[i]) {
        return false;
      }
    }
    var exactDistinct := NoDuplicates(d.exact);
    for i := 0 to |d.patterns|
      invariant forall j :: 0 <= j < i ==> (Glob.STAR in d.patterns[j]) && ValidPattern(d.patterns[j])
    {
      if Glob.STAR !in d.patterns[i] || !ValidPattern(d.patterns[i]) {
        return false;
      }
    }
    var patternsDistinct := NoDuplicates(d.patterns);
    if !exactDistinct || !patternsDistinct {
      return false;
    }
    if d.defaultDb != [] && Restricted(d.exact, d.patterns) {
      ok := Allows(d.defaultDb, d.exact, d.patterns);
    } else {
      ok := true;
    }
  }

  method ValidateDatasource(d: Datasource, server: Server, lower: Name -> Name) returns (ok: bool)
    ensures ok <==> DatasourceValid(d, server, lower)
  {
    hide SchemaListsValid, EntriesValid, ValidSourceName;
    if !ValidSourceName(d.name) || !d.plumbingValid {
      return false;
    }
    ok := ValidateSchemaLists(d);
    if !ok {
      return;
    }
    var readOnly := EffectiveReadOnly(server, d);
    if server.features.AnyWrite() && !readOnly && !d.writeConfigured {
      return false;
    }
    var problem := ValidateFunctions(d.functions, server.features.functionWrite, readOnly, lower);
    if problem.Some? {
      return false;
    }
    if Restricted(d.exact, d.patterns) {
      for i := 0 to |d.functions|
        invariant forall j :: 0 <= j < i ==> Permitted(Cut(d.functions[j].name, DOT).0, d.exact, d.patterns)
      {
        var allowed := Allows(Cut(d.functions[i].name, DOT).0, d.exact, d.patterns);
        if !allowed {
          return false;
        }
      }
    }
    return true;
  }

  method Validate(c: ServerConfig, lower: Name -> Name) returns (ok: bool)
    ensures ok <==> ConfigValid(c, lower)
  {
    hide DatasourceValid;
    var s := c.server;
    if !s.plumbingValid || (s.readOnly && s.features.AnyWrite()) {
      return false;
    }
    if s.defaultRows <= 0 || s.maxRows <= 0 || s.defaultRows > s.maxRows {
      return false;
    }
    if s.maxResultBytes <= 0 || s.maxConcurrency <= 0 {
      return false;
    }
    if c.datasources == [] {
      return false;
    }
    var seen: set<Name> := {};
    for i := 0 to |c.datasources|
      invariant forall j :: 0 <= j < i ==> DatasourceValid(c.datasources[j], s, lower)
      invariant forall j, k :: 0 <= j < k < i ==> c.datasources[j].name != c.datasources[k].name
      invariant seen == set j | 0 <= j < i :: c.datasources[j].name
    {
      var valid := ValidateDatasource(c.datasources[i], s, lower);
      if !valid || c.datasources[i].name in seen {
        return false;
      }
      seen := seen + {c.datasources[i].name};
    }
    return true;
  }

  /** One more exact name keeps the lists valid exactly if it is a new identifier and, as the first restriction, does
      not shut out the default database. */
  lemma OneMoreExactName(d: Datasource, e: Name)
    requires SchemaListsValid(d)
    ensures SchemaListsValid(d.(exact := d.exact + [e])) <==>
            && ValidIdentifier(e) && e !in d.exact
            && (d.exact != [] || d.patterns != [] || d.defaultDb == [] || d.defaultDb == e)
  {
    hide ValidIdentifier, ValidPattern, GlobAllows;
    var more := d.exact + [e];
    assert more[|d.exact|] == e && forall i :: 0 <= i < |d.exact| ==> more[i] == d.exact[i];
    if e in d.exact {
      var i: nat :| i < |d.exact| && d.exact[i] == e;
      assert more[i] == more[|d.exact|];
    }
  }

  /** Likewise one more pattern, which must have a star. */
  lemma OneMorePattern(d: Datasource, p: Name)
    requires SchemaListsValid(d)
    ensures SchemaListsValid(d.(patterns := d.patterns + [p])) <==>
            && 0x2A in p && ValidPattern(p) && p !in d.patterns
            && (d.exact != [] || d.patterns != [] || d.defaultDb == [] || GlobAllows(p, d.defaultDb))
  {
    hide ValidIdentifier, ValidPattern, GlobAllows;
    var more := d.patterns + [p];
    assert more[|d.patterns|] == p && forall i :: 0 <= i < |d.patterns| ==> more[i] == d.patterns[i];
    if p in d.patterns {
      var i: nat :| i < |d.patterns| && d.patterns[i] == p;
      assert more[i] == more[|d.patterns|];
    }
  }

  /////////////////////////////////////////////// what the other modules get from it

  function RulesOf(d: Datasource, lower: Name -> Name, fold: Name -> Name): SchemaPolicy.Rules {
    SchemaPolicy.Rules(lower, fold, d.defaultDb, d.exact, d.patterns)
  }

  /** The schema tool of a validated source cannot fail on its lists: it answers with the permitted rows. */
  method ListValidated(d: Datasource, server: Server, catalog: seq<SchemaListing.SchemaInfo>)
    returns (output: SchemaListing.SchemasOutput)
    requires SchemaListsValid(d) && ServerValid(server) && server.maxRows <= SchemaListing.MAX_INT
    requires |catalog| <= SchemaListing.MAX_INT
    ensures forall s :: s in output.schemas ==> Permitted(s.name, d.exact, d.patterns)
    ensures (Restricted(d.exact, d.patterns) ==> SchemaListing.NamesValid(catalog)) ==>
              var allowed := SchemaListing.AllowedRows(catalog, d.exact, d.patterns);
              && output.schemas == SchemaListing.FirstRows(allowed, server.maxRows)
              && output.truncated == (|allowed| > server.maxRows)
  {
    hide Permitted, ValidIdentifier, ValidPattern;
    assert !SchemaListing.Refused(d.exact, d.patterns);
    var r := SchemaListing.SchemasTool(catalog, d.exact, d.patterns, server.maxRows);
    return r.value;
  }

  /** With a default database, a validated source judges a statement by the schemas it spells out alone. */
  lemma ValidatedDefaultIsFlat(d: Datasource, lower: Name -> Name, fold: Name -> Name, stmt: StatementPolicy.Statement)
    requires SchemaListsValid(d) && d.defaultDb != []
    ensures var rules := RulesOf(d, lower, fold);
            StatementPolicy.SchemaVerdict(Some(stmt), rules) == SchemaPolicy.Allowed <==>
            !Restricted(d.exact, d.patterns) ||
            (StatementPolicy.Exposed(stmt.command) && StatementPolicy.SpelledOutAllowed(stmt, rules))
  {
    hide Permitted, StatementPolicy.SchemaVerdict, StatementPolicy.SpelledOutAllowed;
    StatementPolicy.AllowedDefaultMakesVerdictFlat(stmt, RulesOf(d, lower, fold));
  }

  /** Without one, a validated restricted source lets through what is left to the default exactly when it has a pattern
      of stars alone. */
  lemma ValidatedEmptyDefault(d: Datasource, lower: Name -> Name, fold: Name -> Name, stmt: StatementPolicy.Statement)
    requires SchemaListsValid(d) && d.defaultDb == [] && Restricted(d.exact, d.patterns)
    ensures var rules := RulesOf(d, lower, fold);
            StatementPolicy.SchemaVerdict(Some(stmt), rules) == SchemaPolicy.Allowed <==>
            && StatementPolicy.Exposed(stmt.command) && StatementPolicy.SpelledOutAllowed(stmt, rules)
            && ((exists p :: p in d.patterns && Glob.AllStars(p)) || StatementPolicy.NothingLeftToDefault(stmt, rules))
  {
    hide Permitted, StatementPolicy.SchemaVerdict, StatementPolicy.SpelledOutAllowed,
      StatementPolicy.NothingLeftToDefault, Glob.AllStars;
    assert forall p :: p in d.patterns ==> ValidPattern(p);
    assert [] !in d.exact;
    StatementPolicy.EmptyDefaultVerdict(stmt, RulesOf(d, lower, fold));
  }

  /** No routine outside the allowed schemas can be called: the policies of a validated source are all inside. */
  lemma CallableSchemasAreAllowed(d: Datasource, server: Server, lower: Name -> Name,
                                  policies: map<Name, FunctionPolicy>, key: Name)
    requires DatasourceValid(d, server, lower) && Indexes(policies, PoliciesOf(d.functions), lower) && key in policies
    ensures Permitted(policies[key].schema, d.exact, d.patterns)
  {
    hide Permitted, SchemaListsValid, EntriesValid, Cut;
    var i :| 0 <= i < |d.functions| && key == KeyOf(PoliciesOf(d.functions)[i], lower);
    assert policies[key] == PolicyOf(d.functions[i]);
  }

  /** The query tool under a validated server: every request from zero to the configured rows is answered with the exact
      scan for its bound, the default one if it asks for none. */
  method AnswerValidated(server: Server, maxColumns: nat, maxCellBytes: nat, requested: int, src: QueryScan.Source)
    returns (r: Result<QueryScan.QueryResult, QueryWire.QueryError>)
    requires ServerValid(server) && server.maxResultBytes <= QueryScan.MAX_INT64 && QueryScan.WellFormed(src)
    ensures requested < 0 || requested > server.maxRows ==> r.Failure?
    ensures 0 <= requested <= server.maxRows ==>
              var rows := if requested == 0 then server.defaultRows else requested;
              && 0 < rows <= server.maxRows
              && QueryWire.Answers(src, QueryScan.Limits(rows, maxColumns, maxCellBytes, server.maxResultBytes), r)
  {
    hide QueryWire.Answers, QueryScan.WellFormed;
    var limits := QueryScan.Limits(server.maxRows, maxColumns, maxCellBytes, server.maxResultBytes);
    r := QueryWire.QueryTool(limits, server.defaultRows, requested, src);
  }

  /** A validated source serves: whenever none of its slots is held, a waiting request can have one. */
  lemma FreeSourceServes(server: Server, events: seq<Limiter.Event>, s: Limiter.State, id: nat)
    requires ServerValid(server) && Limiter.Run(server.maxConcurrency, events) == Some(s)
    requires Limiter.In(s, id, Limiter.Waiting) && Limiter.Holders(s) == {}
    ensures Limiter.Enabled(s, Limiter.Acquire(id))
  {
    Limiter.LimiterIsExact(server.maxConcurrency, events, s);
  }
}
