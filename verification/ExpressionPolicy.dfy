/** The read and command walks: no forbidden construct at any depth, with version gates on built-in functions. The
    function-name tables and Go's Unicode lowering, folding and trimming are parameters. */
module ExpressionPolicy {
  import opened Results
  import opened Utf8
  import opened SqlAst
  import opened StatementPolicy

  datatype Code = InvalidSqlCode | NotCommand | StoredProgramDdl | TemporaryObject | SelectInto | LockingRead
                | UnsafeTableOption | UnapprovedFunction | UserVariableAssignment | QualifiedFunction
                | DangerousFunction | SequenceOperation

  datatype Catalog = Catalog(lower: Name -> Name, fold: Name -> Name, trim: Name -> Name, dangerous: set<Name>,
                             common: set<Name>, versioned: map<Name, nat>, unsafeOptions: set<Name>)

  const ENGINE: Name := [0x65, 0x6E, 0x67, 0x69, 0x6E, 0x65]
  const INNODB: Name := [0x69, 0x6E, 0x6E, 0x6F, 0x64, 0x62]

  /** The oldest server that knows a built-in; zero when there is no version rule. */
  function MinimumVersion(builtin: Builtin, over: bool): nat {
    if over then (if builtin == JsonAggregate then 80014 else 80002)
    else match builtin
      case PlainAggregate => 0
      case AnyValue => 50705
      case JsonCore => 50708
      case JsonAdditions => 50722
      case JsonAggregate => 50722
      case JsonStorageFree => 80002
      case JsonTable => 80004
      case Regexp => 80004
      case PerformanceSchema => 80016
      case JsonAdvanced => 80017
      case JsonValue => 80021
  }

  predicate SafeBuiltin(name: Name, version: nat, c: Catalog) {
    name in c.common || (name in c.versioned && version >= c.versioned[name])
  }

  /** `validateSafeExpressionNode`. */
  function ExpressionProblem(e: Expr, version: nat, c: Catalog): Option<Code> {
    match e
    case Assignment => Some(UserVariableAssignment)
    case Func(qualifier, name) =>
      if qualifier != [] then Some(QualifiedFunction)
      else if c.lower(name) in c.dangerous then Some(DangerousFunction)
      else if !SafeBuiltin(c.lower(name), version, c) then Some(UnapprovedFunction)
      else None
    case LockingFunction => Some(DangerousFunction)
    case GtidFunction(waits) => if waits then Some(DangerousFunction) else None
    case NextValue => Some(SequenceOperation)
    case BuiltinCall(builtin, over) =>
      if version < MinimumVersion(builtin, over) then Some(UnapprovedFunction) else None
    case PlainExpr => None
  }

  function EngineProblem(engine: Name, c: Catalog): Option<Code> {
    if c.fold(c.trim(engine)) == c.fold(INNODB) then None else Some(UnsafeTableOption)
  }

  function OptionProblem(option: TableOption, c: Catalog): Option<Code> {
    if option.NilOption? then Some(UnsafeTableOption)
    else
      var name := c.lower(c.trim(option.name));
      if name == ENGINE then EngineProblem(option.text, c)
      else if name in c.unsafeOptions then Some(UnsafeTableOption)
      else None
  }

  function OptionsProblem(options: seq<TableOption>, c: Catalog): Option<Code> {
    if options == [] then None
    else if OptionProblem(options[0], c).Some? then OptionProblem(options[0], c)
    else OptionsProblem(options[1..], c)
  }

  function QueryProblem(node: Node): Option<Code> {
    if node.Query? && (node.kind == Select || node.kind == Union) then
      if node.into then Some(SelectInto) else if node.locking then Some(LockingRead) else None
    else None
  }

  function ResourceProblem(node: Node, c: Catalog): Option<Code> {
    match node
    case TableOptions(options, _) => OptionsProblem(options, c)
    case PartitionOptions(placed, engine, _) =>
      if placed then Some(UnsafeTableOption)
      else if engine.Some? then EngineProblem(engine.value, c)
      else None
    case _ => None
  }

  /** The callback of the read walk. */
  function ReadProblem(node: Node, version: nat, c: Catalog): Option<Code> {
    if QueryProblem(node).Some? then QueryProblem(node)
    else if node.Expression? then ExpressionProblem(node.e, version, c)
    else None
  }

  /** The callback of the command walk. */
  function CommandProblem(node: Node, version: nat, c: Catalog): Option<Code> {
    if QueryProblem(node).Some? then QueryProblem(node)
    else if ResourceProblem(node, c).Some? then ResourceProblem(node, c)
    else if node.Expression? then ExpressionProblem(node.e, version, c)
    else None
  }

  /////////////////////////////////////////////// the walk

  /** `node` and everything below its children from the `i`-th on, in visiting order. */
  function PreorderFrom(node: Node, i: nat): seq<Node>
    requires i <= ChildCount(node)
    decreases node, 0, ChildCount(node) - i
  {
    if i == ChildCount(node) then [] else Preorder(Child(node, i)) + PreorderFrom(node, i + 1)
  }

  function Preorder(node: Node): seq<Node>
    decreases node, 1, 0
  {
    [node] + PreorderFrom(node, 0)
  }

  function FirstProblem(nodes: seq<Node>, check: Node -> Option<Code>): Option<Code> {
    if nodes == [] then None
    else if check(nodes[0]).Some? then check(nodes[0])
    else FirstProblem(nodes[1..], check)
  }

  lemma {:induction false} FirstProblemConcat(a: seq<Node>, b: seq<Node>, check: Node -> Option<Code>)
    ensures FirstProblem(a + b, check)
            == if FirstProblem(a, check).Some? then FirstProblem(a, check) else FirstProblem(b, check)
  {
    if a == [] {
      assert a + b == b;
    } else {
      assert (a + b)[1..] == a[1..] + b;
      FirstProblemConcat(a[1..], b, check);
    }
  }

  /** Vitess's Walk with a callback that never prunes: it stops at the first problem in preorder. */
  method Walk(node: Node, check: Node -> Option<Code>) returns (problem: Option<Code>)
    ensures problem == FirstProblem(Preorder(node), check)
    decreases node
  {
    hide FirstProblem, Child;
    HeadFirst(node, check);
    problem := check(node);
    if problem.Some? {
      return;
    }
    for i := 0 to ChildCount(node)
      invariant FirstProblem(Preorder(node), check) == FirstProblem(PreorderFrom(node, i), check)
    {
      problem := Walk(Child(node, i), check);
      FirstProblemConcat(Preorder(Child(node, i)), PreorderFrom(node, i + 1), check);
      if problem.Some? {
        return;
      }
    }
    NoProblem(check);
    problem := None;
  }

  lemma HeadFirst(node: Node, check: Node -> Option<Code>)
    ensures FirstProblem(Preorder(node), check)
            == if check(node).Some? then check(node) else FirstProblem(PreorderFrom(node, 0), check)
  {
    assert Preorder(node)[1..] == PreorderFrom(node, 0);
  }

  lemma NoProblem(check: Node -> Option<Code>)
    ensures FirstProblem([], check) == None
  {
  }

  lemma {:induction false} PathIsInPreorder(root: Node, path: Path)
    requires NodeAt(root, path).Some?
    ensures NodeAt(root, path).value in Preorder(root)
    decreases |path|
  {
    hide Child;
    if path != [] {
      PathIsInPreorder(Child(root, path[0]), path[1..]);
      InPreorderFrom(root, 0, path[0], NodeAt(root, path).value);
    }
  }

  lemma {:induction false} InPreorderFrom(root: Node, i: nat, j: nat, node: Node)
    requires i <= j < ChildCount(root) && node in Preorder(Child(root, j))
    ensures node in PreorderFrom(root, i)
    decreases j - i
  {
    hide Child, Preorder;
    if i < j {
      InPreorderFrom(root, i + 1, j, node);
    }
  }

  lemma {:induction false} PreorderHasPath(root: Node, node: Node) returns (path: Path)
    requires node in Preorder(root)
    ensures NodeAt(root, path) == Some(node)
    decreases root, 1, 0
  {
    hide Child;
    if node == root {
      path := [];
    } else {
      path := PreorderFromHasPath(root, 0, node);
    }
  }

  lemma {:induction false} PreorderFromHasPath(root: Node, i: nat, node: Node) returns (path: Path)
    requires i <= ChildCount(root) && node in PreorderFrom(root, i)
    ensures NodeAt(root, path) == Some(node)
    decreases root, 0, ChildCount(root) - i
  {
    hide Child;
    if node in Preorder(Child(root, i)) {
      var rest := PreorderHasPath(Child(root, i), node);
      path := [i] + rest;
      assert path[1..] == rest;
    } else {
      path := PreorderFromHasPath(root, i + 1, node);
    }
  }

  lemma {:induction false} NoneMeansNoProblem(nodes: seq<Node>, check: Node -> Option<Code>)
    ensures FirstProblem(nodes, check).None? <==> forall node :: node in nodes ==> check(node).None?
  {
    if nodes != [] {
      NoneMeansNoProblem(nodes[1..], check);
      assert nodes == [nodes[0]] + nodes[1..];
    }
  }

  /** A walk accepts exactly the trees with no problem node on any path. */
  lemma WalkAcceptsExactly(root: Node, check: Node -> Option<Code>)
    ensures FirstProblem(Preorder(root), check).None? <==>
            forall path :: NodeAt(root, path).Some? ==> check(NodeAt(root, path).value).None?
  {
    hide Preorder, FirstProblem, NodeAt;
    NoneMeansNoProblem(Preorder(root), check);
    if FirstProblem(Preorder(root), check).None? {
      forall path | NodeAt(root, path).Some?
        ensures check(NodeAt(root, path).value).None?
      {
        PathIsInPreorder(root, path);
      }
    } else {
      var node :| node in Preorder(root) && check(node).Some?;
      var path := PreorderHasPath(root, node);
      assert NodeAt(root, path).Some? && check(NodeAt(root, path).value).Some?;
    }
  }

  /////////////////////////////////////////////// the two policies

  method ValidateReadAst(root: Node, version: nat, c: Catalog) returns (problem: Option<Code>)
    ensures problem == FirstProblem(Preorder(root), node => ReadProblem(node, version, c))
  {
    problem := Walk(root, node => ReadProblem(node, version, c));
  }

  datatype Class = ClassRead | ClassExplain | ClassWrite | ClassDDL | ClassTransaction | ClassSession
                 | ClassStoredProgram | ClassAdmin | ClassOther

  /** `classForVitessType`. */
  function ClassOf(kind: StatementType): Class {
    match kind
    case StmtSelect | StmtShow => ClassRead
    case StmtExplain => ClassExplain
    case StmtInsert | StmtReplace | StmtUpdate | StmtDelete => ClassWrite
    case StmtDDL => ClassDDL
    case StmtBegin | StmtCommit | StmtRollback | StmtSavepoint | StmtSRollback | StmtRelease => ClassTransaction
    case StmtSet | StmtUse | StmtPrepare | StmtExecute | StmtDeallocate => ClassSession
    case StmtCallProc => ClassStoredProgram
    case StmtAnalyze | StmtOther | StmtPriv | StmtLockTables | StmtUnlockTables | StmtFlush | StmtKill
      | StmtMigration => ClassAdmin
    case StmtUnlisted => ClassOther
  }

  /** What `validateCommandAST` asks before it walks. */
  function RootProblem(stmt: Option<Statement>): Option<Code> {
    if stmt.None? || !FullyParsed(stmt.value.command) then Some(InvalidSqlCode)
    else if ClassOf(stmt.value.kind) != ClassWrite && ClassOf(stmt.value.kind) != ClassDDL then Some(NotCommand)
    else if stmt.value.command.TableDdl? && stmt.value.command.storedProgram then Some(StoredProgramDdl)
    else if stmt.value.command.TableDdl? && stmt.value.command.temporary then Some(TemporaryObject)
    else None
  }

  function CommandVerdict(stmt: Option<Statement>, version: nat, c: Catalog): Option<Code> {
    var root := RootProblem(stmt);
    if root.Some? || stmt.None? then root
    else FirstProblem(Preorder(stmt.value.root), node => CommandProblem(node, version, c))
  }

  method ValidateCommandAst(stmt: Option<Statement>, version: nat, c: Catalog) returns (problem: Option<Code>)
    ensures problem == CommandVerdict(stmt, version, c)
  {
    problem := RootProblem(stmt);
    if problem.None? {
      problem := Walk(stmt.value.root, node => CommandProblem(node, version, c));
    }
  }

  /** What may stand in a read query: no INTO and no lock, no assignment, no lock or wait function, no sequence, and no
      function that is qualified, dangerous, or unknown to a server of that version. */
  ghost predicate ReadOnlyNode(node: Node, version: nat, c: Catalog) {
    && (node.Query? && (node.kind == Select || node.kind == Union) ==> !node.into && !node.locking)
    && (node.Expression? ==>
          && node.e !in {Assignment, LockingFunction, NextValue, GtidFunction(true)}
          && (node.e.Func? ==>
                && node.e.qualifier == [] && c.lower(node.e.name) !in c.dangerous
                && (c.lower(node.e.name) !in c.common ==>
                      c.lower(node.e.name) in c.versioned && c.versioned[c.lower(node.e.name)] <= version))
          && (node.e.BuiltinCall? ==> MinimumVersion(node.e.builtin, node.e.over) <= version))
  }

  /** What may stand in a command besides: tables and partitions stay in InnoDB and name no outside resource. */
  ghost predicate ConfinedNode(node: Node, c: Catalog) {
    && (node.TableOptions? ==> forall i :: 0 <= i < |node.options| ==> ConfinedOption(node.options[i], c))
    && (node.PartitionOptions? ==> !node.placed && (node.engine.Some? ==> IsInnoDb(node.engine.value, c)))
  }

  ghost predicate ConfinedOption(option: TableOption, c: Catalog) {
    && option.TableOption?
    && var name := c.lower(c.trim(option.name));
       if name == [0x65, 0x6E, 0x67, 0x69, 0x6E, 0x65] then IsInnoDb(option.text, c) else name !in c.unsafeOptions
  }

  ghost predicate IsInnoDb(engine: Name, c: Catalog) {
    c.fold(c.trim(engine)) == c.fold([0x69, 0x6E, 0x6E, 0x6F, 0x64, 0x62])
  }

  lemma {:induction false} OptionsConfined(options: seq<TableOption>, c: Catalog)
    ensures OptionsProblem(options, c).None? <==> forall i :: 0 <= i < |options| ==> ConfinedOption(options[i], c)
  {
    if options != [] {
      OptionsConfined(options[1..], c);
      assert forall i :: 0 <= i < |options[1..]| ==> options[1..][i] == options[i + 1];
    }
  }

  lemma CommandNode(node: Node, version: nat, c: Catalog)
    ensures CommandProblem(node, version, c).None? <==> ReadOnlyNode(node, version, c) && ConfinedNode(node, c)
  {
    if node.TableOptions? {
      OptionsConfined(node.options, c);
    }
  }

  /** What a code says about the node that is refused. */
  ghost predicate CodeFits(code: Code, node: Node, version: nat, c: Catalog) {
    match code
    case SelectInto => node.Query? && node.kind in {Select, Union} && node.into
    case LockingRead => node.Query? && node.kind in {Select, Union} && !node.into && node.locking
    case UserVariableAssignment => node.Expression? && node.e == Assignment
    case QualifiedFunction => node.Expression? && node.e.Func? && node.e.qualifier != []
    case DangerousFunction =>
      && node.Expression?
      && (node.e == LockingFunction || node.e == GtidFunction(true) ||
          (node.e.Func? && node.e.qualifier == [] && c.lower(node.e.name) in c.dangerous))
    case SequenceOperation => node.Expression? && node.e == NextValue
    case UnapprovedFunction =>
      && node.Expression?
      && (|| (&& node.e.Func? && node.e.qualifier == []
              && c.lower(node.e.name) !in c.dangerous && c.lower(node.e.name) !in c.common
              && (c.lower(node.e.name) in c.versioned ==> version < c.versioned[c.lower(node.e.name)]))
          || (node.e.BuiltinCall? && TooNew(node.e.builtin, node.e.over, version)))
    case UnsafeTableOption => !ConfinedNode(node, c)
    case _ => false
  }

  /** A rejection by either policy names a node of the tree that deserves its code, or says what is wrong with the
      statement itself. */
  lemma RejectionSaysWhy(stmt: Statement, version: nat, c: Catalog)
    ensures var problem := FirstProblem(Preorder(stmt.root), node => ReadProblem(node, version, c));
            problem.Some? ==>
              exists path :: NodeAt(stmt.root, path).Some?
                             && CodeFits(problem.value, NodeAt(stmt.root, path).value, version, c)
    ensures var problem := CommandVerdict(Some(stmt), version, c);
            problem.Some? ==>
              match problem.value
              case InvalidSqlCode => (stmt.command.TableDdl? || stmt.command.SchemaDdl?) && !stmt.command.fullyParsed
              case NotCommand => stmt.kind !in {StmtInsert, StmtReplace, StmtUpdate, StmtDelete, StmtDDL}
              case StoredProgramDdl => stmt.command.TableDdl? && stmt.command.storedProgram
              case TemporaryObject => stmt.command.TableDdl? && stmt.command.temporary
              case code => exists path :: NodeAt(stmt.root, path).Some?
                                          && CodeFits(code, NodeAt(stmt.root, path).value, version, c)
  {
    hide NodeAt, Preorder, FirstProblem, CodeFits, ReadProblem, CommandProblem;
    var read, command := FirstProblem(Preorder(stmt.root), node => ReadProblem(node, version, c)),
                         FirstProblem(Preorder(stmt.root), node => CommandProblem(node, version, c));
    if read.Some? {
      var path := ProblemHasPath(stmt.root, node => ReadProblem(node, version, c), read.value);
      CodesFit(NodeAt(stmt.root, path).value, version, c);
    }
    if command.Some? {
      var path := ProblemHasPath(stmt.root, node => CommandProblem(node, version, c), command.value);
      CodesFit(NodeAt(stmt.root, path).value, version, c);
      CodesAreOfNodes(command.value, NodeAt(stmt.root, path).value, version, c);
    }
  }

  lemma ProblemHasPath(root: Node, check: Node -> Option<Code>, code: Code) returns (path: Path)
    requires FirstProblem(Preorder(root), check) == Some(code)
    ensures NodeAt(root, path).Some? && check(NodeAt(root, path).value) == Some(code)
  {
    hide NodeAt, Preorder;
    var node := FirstProblemIsThere(Preorder(root), check, code);
    path := PreorderHasPath(root, node);
  }

  lemma {:induction false} FirstProblemIsThere(nodes: seq<Node>, check: Node -> Option<Code>, code: Code)
    returns (node: Node)
    requires FirstProblem(nodes, check) == Some(code)
    ensures node in nodes && check(node) == Some(code)
  {
    if check(nodes[0]).Some? {
      node := nodes[0];
    } else {
      node := FirstProblemIsThere(nodes[1..], check, code);
    }
  }

  lemma CodesFit(node: Node, version: nat, c: Catalog)
    ensures ReadProblem(node, version, c).Some? ==> CodeFits(ReadProblem(node, version, c).value, node, version, c)
    ensures CommandProblem(node, version, c).Some? ==>
              CodeFits(CommandProblem(node, version, c).value, node, version, c)
  {
    ResourceCode(node, c);
  }

  lemma ResourceCode(node: Node, c: Catalog)
    ensures ResourceProblem(node, c).Some? ==>
              ResourceProblem(node, c).value == UnsafeTableOption && !ConfinedNode(node, c)
  {
    if node.TableOptions? {
      OptionsConfined(node.options, c);
      OptionsCode(node.options, c);
    }
  }

  lemma {:induction false} OptionsCode(options: seq<TableOption>, c: Catalog)
    ensures OptionsProblem(options, c).Some? ==> OptionsProblem(options, c).value == UnsafeTableOption
  {
    if options != [] {
      OptionsCode(options[1..], c);
    }
  }

  lemma CodesAreOfNodes(code: Code, node: Node, version: nat, c: Catalog)
    requires CodeFits(code, node, version, c)
    ensures code !in {InvalidSqlCode, NotCommand, StoredProgramDdl, TemporaryObject}
  {
  }

  /** The read policy accepts exactly the trees in which every node, at any depth, is read-only. */
  lemma ReadAcceptsExactly(root: Node, version: nat, c: Catalog)
    ensures FirstProblem(Preorder(root), node => ReadProblem(node, version, c)).None? <==>
            forall path :: NodeAt(root, path).Some? ==> ReadOnlyNode(NodeAt(root, path).value, version, c)
  {
    hide NodeAt, Preorder, FirstProblem;
    assert forall node :: ReadProblem(node, version, c).None? <==> ReadOnlyNode(node, version, c);
    WalkAcceptsExactly(root, node => ReadProblem(node, version, c));
  }

  /** The command policy accepts exactly the fully parsed, permanent DML and DDL in which every node is as safe as in a
      read query and confined. */
  lemma CommandAcceptsExactly(stmt: Statement, version: nat, c: Catalog)
    ensures CommandVerdict(Some(stmt), version, c).None? <==>
            && (stmt.command.TableDdl? || stmt.command.SchemaDdl? ==> stmt.command.fullyParsed)
            && stmt.kind in {StmtInsert, StmtReplace, StmtUpdate, StmtDelete, StmtDDL}
            && (stmt.command.TableDdl? ==> !stmt.command.storedProgram && !stmt.command.temporary)
            && forall path :: NodeAt(stmt.root, path).Some? ==>
                                && ReadOnlyNode(NodeAt(stmt.root, path).value, version, c)
                                && ConfinedNode(NodeAt(stmt.root, path).value, c)
  {
    hide NodeAt, Preorder, FirstProblem, ReadOnlyNode, ConfinedNode, CommandProblem;
    forall node: Node
      ensures CommandProblem(node, version, c).None? <==> ReadOnlyNode(node, version, c) && ConfinedNode(node, c)
    {
      CommandNode(node, version, c);
    }
    WalkAcceptsExactly(stmt.root, node => CommandProblem(node, version, c));
  }

  /** A built-in that the server does not know yet: a window call before 8.0.2 (of a JSON aggregate before 8.0.14), or a
      function before the release that introduced it. */
  predicate TooNew(builtin: Builtin, over: bool, version: nat) {
    || (over && version < 80002)
    || (over && builtin == JsonAggregate && version < 80014)
    || (!over && builtin == AnyValue && version < 50705)
    || (!over && builtin == JsonCore && version < 50708)
    || (!over && builtin in {JsonAdditions, JsonAggregate} && version < 50722)
    || (!over && builtin == JsonStorageFree && version < 80002)
    || (!over && builtin in {JsonTable, Regexp} && version < 80004)
    || (!over && builtin == PerformanceSchema && version < 80016)
    || (!over && builtin == JsonAdvanced && version < 80017)
    || (!over && builtin == JsonValue && version < 80021)
  }

  /** One built-in call anywhere in a tree that is too new for the server is refused by both policies, and if it is all
      there is, it is refused for nothing else. */
  lemma TooNewIsRefused(stmt: Statement, path: Path, builtin: Builtin, over: bool, parts: seq<Node>, version: nat,
                        c: Catalog)
    requires NodeAt(stmt.root, path) == Some(Expression(BuiltinCall(builtin, over), parts))
    ensures TooNew(builtin, over, version) ==>
              && FirstProblem(Preorder(stmt.root), node => ReadProblem(node, version, c)).Some?
              && CommandVerdict(Some(stmt), version, c).Some?
    ensures path == [] && parts == [] ==>
              (FirstProblem(Preorder(stmt.root), node => ReadProblem(node, version, c)).Some? <==>
               TooNew(builtin, over, version))
  {
    hide NodeAt, Preorder, FirstProblem, CommandVerdict;
    assert TooNew(builtin, over, version) <==> version < MinimumVersion(builtin, over);
    ReadAcceptsExactly(stmt.root, version, c);
    CommandAcceptsExactly(stmt, version, c);
    if path == [] && parts == [] {
      LeafHasOnlyItself(stmt.root);
    }
  }

  lemma LeafHasOnlyItself(node: Node)
    ensures NodeAt(node, []) == Some(node)
    ensures ChildCount(node) == 0 ==> forall path :: NodeAt(node, path).Some? ==> path == []
  {
  }

  /** Newer servers only allow more, in both policies; in particular the version-zero profile is the strictest. */
  lemma NewerServersAllowMore(stmt: Statement, version: nat, newer: nat, c: Catalog)
    requires version <= newer
    ensures FirstProblem(Preorder(stmt.root), node => ReadProblem(node, version, c)).None? ==>
              FirstProblem(Preorder(stmt.root), node => ReadProblem(node, newer, c)).None?
    ensures CommandVerdict(Some(stmt), version, c).None? ==>
              CommandVerdict(Some(stmt), newer, c).None?
  {
    hide NodeAt, Preorder, FirstProblem, CommandVerdict, ConfinedNode;
    ReadAcceptsExactly(stmt.root, version, c);
    ReadAcceptsExactly(stmt.root, newer, c);
    CommandAcceptsExactly(stmt, version, c);
    CommandAcceptsExactly(stmt, newer, c);
    assert forall node :: ReadOnlyNode(node, version, c) ==> ReadOnlyNode(node, newer, c);
  }

  /** Whatever passes as a command has also passed every check of the read walk. */
  lemma CommandChecksIncludeReadChecks(stmt: Statement, version: nat, c: Catalog)
    requires CommandVerdict(Some(stmt), version, c).None?
    ensures FirstProblem(Preorder(stmt.root), node => ReadProblem(node, version, c)).None?
  {
    hide NodeAt, Preorder, FirstProblem, CommandVerdict;
    ReadAcceptsExactly(stmt.root, version, c);
    CommandAcceptsExactly(stmt, version, c);
  }
}
