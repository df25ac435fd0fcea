/** `ValidateAllowedSchemas` as a whole: the root command's own targets, then every reference in its tree. */
module StatementPolicy {
  import opened Results
  import opened Utf8
  import opened SchemaFilter
  import opened SqlAst
  import opened SchemaPolicy
  import opened SchemaScope
  import Glob

  /** What the policy reads off the root statement besides its tree. */
  datatype Command =
    | QueryOrDml
    | TableDdl(fullyParsed: bool, temporary: bool, storedProgram: bool,
               affected: seq<TableName>, like: Option<TableName>)
    | SchemaDdl(fullyParsed: bool, database: Name)
    | UseSchema(database: Name)
    | AnalyzeTable(table: TableName)
    | FlushTables(tables: seq<TableName>)
    | CallProcedure(name: TableName)
    | OpaqueCommand

  datatype Statement = Statement(kind: StatementType, command: Command, root: Node)

  predicate FullyParsed(command: Command) {
    match command
    case TableDdl(parsed, _, _, _, _) => parsed
    case SchemaDdl(parsed, _) => parsed
    case _ => true
  }

  /** The tables a command names as its own targets: no common table expression and no virtual table can stand in. */
  function Targets(command: Command): seq<TableName> {
    match command
    case TableDdl(_, _, _, affected, like) => affected + if like.Some? then [like.value] else []
    case AnalyzeTable(table) => [table]
    case FlushTables(tables) => tables
    case CallProcedure(name) => [name]
    case _ => []
  }

  function TargetSchema(command: Command): Option<Name> {
    match command
    case SchemaDdl(_, database) => Some(database)
    case UseSchema(database) => Some(database)
    case _ => None
  }

  function DirectVerdict(command: Command, rules: Rules): Verdict {
    var tables := FirstBad(PlainRefs(Targets(command)), rules);
    if tables != Allowed then tables
    else if TargetSchema(command).Some? && !Permitted(TargetSchema(command).value, rules.exact, rules.patterns) then
      NotAllowed(TargetSchema(command).value)
    else if command.OpaqueCommand? then Undetermined
    else Allowed
  }

  method ValidateDirectCommandSchemas(command: Command, rules: Rules) returns (v: Verdict)
    ensures v == DirectVerdict(command, rules)
  {
    match command {
      case TableDdl(_, _, _, affected, like) =>
        v := ValidateTables(affected, rules);
        TargetsOfDdl(command, rules);
        if v == Allowed && like.Some? {
          v := ValidatePhysicalTable(like.value, {}, false, rules);
        }
      case SchemaDdl(_, database) =>
        v := ValidateSchemaName(database, rules);
      case UseSchema(database) =>
        v := ValidateSchemaName(database, rules);
      case AnalyzeTable(table) =>
        v := ValidatePhysicalTable(table, {}, false, rules);
        OneTarget(table, rules);
      case FlushTables(tables) =>
        v := ValidateTables(tables, rules);
      case CallProcedure(name) =>
        v := ValidatePhysicalTable(name, {}, false, rules);
        OneTarget(name, rules);
      case OpaqueCommand =>
        v := Undetermined;
      case QueryOrDml =>
        v := Allowed;
    }
  }

  lemma OneTarget(table: TableName, rules: Rules)
    ensures var ref := Ref(table, {}, false);
            FirstBad(PlainRefs([table]), rules)
            == if RefAllowed(ref, rules) then Allowed else NotAllowed(SchemaOf(ref, rules))
  {
    assert PlainRefs([table]) == [Ref(table, {}, false)];
    SingleRef(Ref(table, {}, false), rules);
  }

  lemma TargetsOfDdl(command: Command, rules: Rules)
    requires command.TableDdl?
    ensures var v := FirstBad(PlainRefs(command.affected), rules);
            FirstBad(PlainRefs(Targets(command)), rules)
            == if v != Allowed || command.like.None? then v else FirstBad(PlainRefs([command.like.value]), rules)
    ensures command.like.Some? ==>
              var ref := Ref(command.like.value, {}, false);
              FirstBad(PlainRefs([command.like.value]), rules)
              == if RefAllowed(ref, rules) then Allowed else NotAllowed(SchemaOf(ref, rules))
  {
    if command.like.Some? {
      OneTarget(command.like.value, rules);
      assert PlainRefs(Targets(command)) == PlainRefs(command.affected) + PlainRefs([command.like.value]);
      FirstBadConcat(PlainRefs(command.affected), PlainRefs([command.like.value]), rules);
    } else {
      assert Targets(command) == command.affected;
    }
  }

  function SchemaVerdict(stmt: Option<Statement>, rules: Rules): Verdict {
    if !Restricted(rules.exact, rules.patterns) then Allowed
    else if stmt.None? || !FullyParsed(stmt.value.command) then InvalidSql
    else if DirectVerdict(stmt.value.command, rules) != Allowed then DirectVerdict(stmt.value.command, rules)
    else FirstBad(ScopeRefs(stmt.value.root, {}, rules), rules)
  }

  method ValidateAllowedSchemas(stmt: Option<Statement>, rules: Rules) returns (v: Verdict)
    requires stmt.Some? ==> WellFormed(stmt.value.root)
    ensures v == SchemaVerdict(stmt, rules)
  {
    if !Restricted(rules.exact, rules.patterns) {
      return Allowed;
    }
    match stmt {
      case None =>
        return InvalidSql;
      case Some(statement) =>
        if !FullyParsed(statement.command) {
          return InvalidSql;
        }
        v := ValidateDirectCommandSchemas(statement.command, rules);
        if v == Allowed {
          v := ValidateSchemaScope(statement.root, {}, rules);
        }
    }
  }

  /**
    * Under a restriction, a statement of any depth is accepted exactly when it is there and fully parsed, exposes its
    * targets, and every target and every reference that its own scope does not resolve lies in an allowed schema.
    */
  lemma StatementAcceptedExactly(stmt: Statement, rules: Rules)
    requires Restricted(rules.exact, rules.patterns)
    ensures SchemaVerdict(Some(stmt), rules) == Allowed <==>
            && FullyParsed(stmt.command) && !stmt.command.OpaqueCommand?
            && (forall i :: 0 <= i < |Targets(stmt.command)| ==>
                  RefAllowed(Ref(Targets(stmt.command)[i], {}, false), rules))
            && (TargetSchema(stmt.command).Some? ==>
                  Permitted(TargetSchema(stmt.command).value, rules.exact, rules.patterns))
            && (forall path, ref :: InScope(stmt.root, path, rules, ref) ==> RefAllowed(ref, rules))
  {
    hide Permitted, InScope, ScopeRefs, FirstBad, RefAllowed;
    ScopeAcceptsExactly(stmt.root, rules);
    AllowedMeansAll(PlainRefs(Targets(stmt.command)), rules);
    var refs := PlainRefs(Targets(stmt.command));
    assert |refs| == |Targets(stmt.command)|;
    assert forall i :: 0 <= i < |refs| ==> refs[i] == Ref(Targets(stmt.command)[i], {}, false);
    if forall i :: 0 <= i < |Targets(stmt.command)| ==> RefAllowed(Ref(Targets(stmt.command)[i], {}, false), rules) {
      assert forall i :: 0 <= i < |refs| ==> RefAllowed(refs[i], rules);
    }
  }

  /** What each command may name as its own targets, and which commands cannot be judged. */
  ghost predicate CommandAllowed(command: Command, rules: Rules) {
    match command
    case QueryOrDml => true
    case TableDdl(fullyParsed, _, _, affected, like) =>
      && fullyParsed && (forall t :: t in affected ==> TableAllowed(t, rules))
      && (like.Some? ==> TableAllowed(like.value, rules))
    case SchemaDdl(fullyParsed, database) => fullyParsed && Permitted(database, rules.exact, rules.patterns)
    case UseSchema(database) => Permitted(database, rules.exact, rules.patterns)
    case AnalyzeTable(table) => TableAllowed(table, rules)
    case FlushTables(tables) => forall t :: t in tables ==> TableAllowed(t, rules)
    case CallProcedure(name) => TableAllowed(name, rules)
    case OpaqueCommand => false
  }

  /** The verdict without references: a restricted statement is accepted exactly when its command names only allowed
      targets and every node that the walk comes to may name what it names. */
  lemma StatementAcceptedByKind(stmt: Statement, rules: Rules)
    ensures SchemaVerdict(Some(stmt), rules) == Allowed <==>
            || (rules.exact == [] && rules.patterns == [])
            || (&& CommandAllowed(stmt.command, rules)
                && forall path :: OpenBelow(stmt.root, path) ==>
                                    NodeAt(stmt.root, path).Some? && NodeAllowed(stmt.root, path, rules))
  {
    hide Permitted, OpenBelow, NodeAllowed, ScopeRefs, FirstBad, NodeAt;
    if Restricted(rules.exact, rules.patterns) {
      ScopeAcceptsByKind(stmt.root, rules);
      var refs := PlainRefs(Targets(stmt.command));
      AllowedMeansAll(refs, rules);
      assert |refs| == |Targets(stmt.command)|;
      forall i | 0 <= i < |refs|
        ensures RefAllowed(refs[i], rules) <==> TableAllowed(Targets(stmt.command)[i], rules)
      {
        assert refs[i] == Ref(Targets(stmt.command)[i], {}, false);
      }
      TargetsByKind(stmt.command, rules);
    }
  }

  lemma TargetsByKind(command: Command, rules: Rules)
    ensures CommandAllowed(command, rules) <==>
            && FullyParsed(command) && !command.OpaqueCommand?
            && (forall i :: 0 <= i < |Targets(command)| ==> TableAllowed(Targets(command)[i], rules))
            && (TargetSchema(command).Some? ==> Permitted(TargetSchema(command).value, rules.exact, rules.patterns))
  {
    hide Permitted, TableAllowed;
    var targets := Targets(command);
    if command.TableDdl? {
      var like: seq<TableName> := if command.like.Some? then [command.like.value] else [];
      assert targets == command.affected + like;
      assert forall t :: t in targets <==> t in command.affected || (command.like.Some? && t == command.like.value);
    }
    assert (forall i :: 0 <= i < |targets| ==> TableAllowed(targets[i], rules)) <==>
           (forall t :: t in targets ==> TableAllowed(t, rules));
  }

  /** What a rejection says: an invalid statement is missing or not fully parsed, a schema that is reported is not
      allowed, and only a command that does not expose its targets is undetermined. */
  lemma RejectionSaysWhy(stmt: Option<Statement>, rules: Rules)
    requires rules.exact != [] || rules.patterns != []
    ensures SchemaVerdict(stmt, rules) == InvalidSql <==>
            || stmt.None?
            || (stmt.value.command.TableDdl? && !stmt.value.command.fullyParsed)
            || (stmt.value.command.SchemaDdl? && !stmt.value.command.fullyParsed)
    ensures SchemaVerdict(stmt, rules).NotAllowed? ==>
              !Permitted(SchemaVerdict(stmt, rules).schema, rules.exact, rules.patterns)
    ensures SchemaVerdict(stmt, rules) == Undetermined <==> stmt.Some? && stmt.value.command.OpaqueCommand?
  {
    hide Permitted, ScopeRefs;
    if stmt.Some? {
      BadIsNotPermitted(PlainRefs(Targets(stmt.value.command)), rules);
      BadIsNotPermitted(ScopeRefs(stmt.value.root, {}, rules), rules);
    }
  }

  lemma {:induction false} BadIsNotPermitted(refs: seq<Ref>, rules: Rules)
    ensures var v := FirstBad(refs, rules);
            v == Allowed || (v.NotAllowed? && !Permitted(v.schema, rules.exact, rules.patterns))
  {
    hide Permitted;
    if refs != [] {
      BadIsNotPermitted(refs[1..], rules);
    }
  }

  /** The policy can see what the command is about. */
  predicate Exposed(command: Command) {
    FullyParsed(command) && !command.OpaqueCommand?
  }

  /** Every schema that the statement spells out, as a target or in a reference, is allowed. */
  ghost predicate SpelledOutAllowed(stmt: Statement, rules: Rules) {
    && (TargetSchema(stmt.command).Some? ==>
          Permitted(TargetSchema(stmt.command).value, rules.exact, rules.patterns))
    && (forall t :: t in Targets(stmt.command) && t.qualifier != [] ==>
                      Permitted(t.qualifier, rules.exact, rules.patterns))
    && (forall path, ref :: InScope(stmt.root, path, rules, ref) && ref.table.qualifier != [] ==>
                              Permitted(ref.table.qualifier, rules.exact, rules.patterns))
  }

  /** No target is unqualified, and every unqualified reference is DUAL or a visible common table expression. */
  ghost predicate NothingLeftToDefault(stmt: Statement, rules: Rules) {
    && (forall t :: t in Targets(stmt.command) ==> t.qualifier != [])
    && (forall path, ref :: InScope(stmt.root, path, rules, ref) && ref.table.qualifier == [] ==> Resolved(ref, rules))
  }

  /** With an allowed default database, the verdict on a whole statement does not depend on CTE scoping. */
  lemma AllowedDefaultMakesVerdictFlat(stmt: Statement, rules: Rules)
    requires Permitted(rules.defaultDb, rules.exact, rules.patterns)
    ensures SchemaVerdict(Some(stmt), rules) == Allowed <==>
            !Restricted(rules.exact, rules.patterns) || (Exposed(stmt.command) && SpelledOutAllowed(stmt, rules))
  {
    hide Permitted, InScope, DirectVerdict, ScopeRefs, FirstBad;
    if Restricted(rules.exact, rules.patterns) {
      StatementAcceptedExactly(stmt, rules);
    }
  }

  /** Without a default database, a restriction rejects what is left to the default exactly when no valid pattern is all
      stars and the empty name is not listed. */
  lemma EmptyDefaultVerdict(stmt: Statement, rules: Rules)
    requires rules.defaultDb == [] && Restricted(rules.exact, rules.patterns)
    ensures SchemaVerdict(Some(stmt), rules) == Allowed <==>
            && Exposed(stmt.command) && SpelledOutAllowed(stmt, rules)
            && ([] in rules.exact || (exists p :: p in rules.patterns && ValidPattern(p) && Glob.AllStars(p)) ||
                NothingLeftToDefault(stmt, rules))
  {
    hide Permitted, InScope, SchemaVerdict;
    StatementAcceptedExactly(stmt, rules);
    EmptyNamePermitted(rules.exact, rules.patterns);
  }

  /** `UPDATE dual` (or a DELETE of that form) passes under every restriction, because its target is an aliased table;
      only as a target that the command itself names is a table called dual physical. */
  lemma DmlOnDualPasses(kind: QueryKind, name: Name, rules: Rules)
    requires (kind == Update || kind == Delete) && rules.fold(name) == rules.fold(DUAL)
    requires Restricted(rules.exact, rules.patterns)
    ensures var target := AliasedTable(TableName([], name), []);
            var stmt := Statement(if kind == Update then StmtUpdate else StmtDelete, QueryOrDml,
                                  Query(kind, false, false, [], [target]));
            SchemaVerdict(Some(stmt), rules) == Allowed
    ensures SchemaVerdict(Some(Statement(StmtAnalyze, AnalyzeTable(TableName([], name)), Other([]))), rules) == Allowed
            <==> Permitted(rules.defaultDb, rules.exact, rules.patterns)
  {
    hide Permitted;
    var target := AliasedTable(TableName([], name), []);
    var update := Query(kind, false, false, [], [target]);
    var ref := Ref(TableName([], name), {}, true);
    assert Child(update, 0) == target && ChildCount(update) == 1;
    assert {} + DeclaredNames(update, rules) == {};
    assert RefsBelow(update, 1, {}, rules) == [];
    assert Refs(target, {}, rules) == [ref];
    assert ScopeRefs(update, {}, rules) == [ref] + [];
    SingleRef(ref, rules);
    assert Targets(QueryOrDml) == [] && PlainRefs([]) == [];
    OneTarget(TableName([], name), rules);
    assert ScopeRefs(Other([]), {}, rules) == [];
  }

  /** Adding exact names or patterns to a restriction never rejects a statement that was accepted. */
  lemma WiderListsAcceptMore(stmt: Statement, rules: Rules, wider: Rules)
    requires Restricted(rules.exact, rules.patterns)
    requires wider.lower == rules.lower && wider.fold == rules.fold && wider.defaultDb == rules.defaultDb
    requires forall e :: e in rules.exact ==> e in wider.exact
    requires forall p :: p in rules.patterns ==> p in wider.patterns
    ensures SchemaVerdict(Some(stmt), rules) == Allowed ==> SchemaVerdict(Some(stmt), wider) == Allowed
  {
    hide InScope, SchemaVerdict, RefAllowed, Permitted;
    assert Restricted(wider.exact, wider.patterns) by {
      assert rules.exact != [] ==> rules.exact[0] in wider.exact;
      assert rules.patterns != [] ==> rules.patterns[0] in wider.patterns;
    }
    if SchemaVerdict(Some(stmt), rules) == Allowed {
      StatementAcceptedExactly(stmt, rules);
      StatementAcceptedExactly(stmt, wider);
      forall ref | RefAllowed(ref, rules)
        ensures RefAllowed(ref, wider)
      {
        WiderListsAllowRef(ref, rules, wider);
      }
      forall path, ref | InScope(stmt.root, path, wider, ref)
        ensures InScope(stmt.root, path, rules, ref)
      {
        SameScope(stmt.root, path, rules, wider, ref);
      }
      if TargetSchema(stmt.command).Some? {
        GrowingTheListsOnlyAllowsMore(TargetSchema(stmt.command).value, rules.exact, rules.patterns,
                                      wider.exact, wider.patterns);
      }
    }
  }

  lemma WiderListsAllowRef(ref: Ref, rules: Rules, wider: Rules)
    requires Restricted(rules.exact, rules.patterns) && RefAllowed(ref, rules)
    requires wider.lower == rules.lower && wider.fold == rules.fold && wider.defaultDb == rules.defaultDb
    requires forall e :: e in rules.exact ==> e in wider.exact
    requires forall p :: p in rules.patterns ==> p in wider.patterns
    ensures RefAllowed(ref, wider)
  {
    hide Permitted;
    GrowingTheListsOnlyAllowsMore(SchemaOf(ref, rules), rules.exact, rules.patterns, wider.exact, wider.patterns);
  }

  /** Which references occur where, and in what scope, depends on nothing but the lowering of names. */
  lemma {:induction false} SameEnv(root: Node, path: Path, inherited: set<Name>, rules: Rules, rules': Rules)
    requires rules.lower == rules'.lower
    ensures EnvAlong(root, path, inherited, rules) == EnvAlong(root, path, inherited, rules')
    decreases |path|
  {
    hide Child;
    if path != [] && path[0] < ChildCount(root) {
      SameEnv(Child(root, path[0]), path[1..], inherited + DeclaredNames(root, rules), rules, rules');
    }
  }

  lemma SameScope(root: Node, path: Path, rules: Rules, rules': Rules, ref: Ref)
    requires rules.lower == rules'.lower && InScope(root, path, rules', ref)
    ensures InScope(root, path, rules, ref)
  {
    hide EnvAlong, OwnRefs, Reached, Child;
    SameEnv(Child(root, path[0]), path[1..], DeclaredNames(root, rules), rules, rules');
  }
}
