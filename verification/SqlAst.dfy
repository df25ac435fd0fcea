/** A small SQL syntax tree after Vitess: what the policy walks look at, with everything else reduced to children. */
module SqlAst {
  import opened Results
  import opened Utf8

  datatype TableName = TableName(qualifier: Name, name: Name)

  /** What Vitess's `ASTToStatementType` tells apart, as far as the policy's classes do. */
  datatype StatementType =
    | StmtSelect | StmtShow | StmtExplain | StmtInsert | StmtReplace | StmtUpdate | StmtDelete | StmtDDL
    | StmtBegin | StmtCommit | StmtRollback | StmtSavepoint | StmtSRollback | StmtRelease
    | StmtSet | StmtUse | StmtPrepare | StmtExecute | StmtDeallocate | StmtCallProc
    | StmtAnalyze | StmtOther | StmtPriv | StmtLockTables | StmtUnlockTables | StmtFlush | StmtKill | StmtMigration
    | StmtUnlisted

  /** The five statement kinds that can carry a WITH clause. */
  datatype QueryKind = Select | Union | Values | Update | Delete

  datatype Cte = Cte(id: Name, body: Node)

  /** Built-ins that Vitess gives a node of their own, grouped by the release that introduced them. */
  datatype Builtin = PlainAggregate | AnyValue | JsonCore | JsonAdditions | JsonAggregate | JsonStorageFree | JsonTable
                   | Regexp | PerformanceSchema | JsonAdvanced | JsonValue

  datatype Expr = Assignment | Func(qualifier: Name, name: Name) | LockingFunction | GtidFunction(waits: bool)
                | NextValue | BuiltinCall(builtin: Builtin, over: bool) | PlainExpr

  datatype TableOption = NilOption | TableOption(name: Name, text: Name, tables: seq<TableName>)

  datatype Node =
    | Query(kind: QueryKind, into: bool, locking: bool, ctes: seq<Cte>, parts: seq<Node>)
    | Ddl(parts: seq<Node>)
    | DatabaseDdl(parts: seq<Node>)
    | AliasedTable(table: TableName, parts: seq<Node>)
    | ForeignKey(table: TableName, parts: seq<Node>)
    | Partitioning(exchange: TableName, parts: seq<Node>)
    | AutoIncrement(sequence: TableName, parts: seq<Node>)
    | TableOptions(options: seq<TableOption>, parts: seq<Node>)
    | PartitionOptions(placed: bool, engine: Option<Name>, parts: seq<Node>)
    | Expression(e: Expr, parts: seq<Node>)
    | Other(parts: seq<Node>)

  function Ctes(node: Node): seq<Cte> {
    if node.Query? then node.ctes else []
  }

  /** The children in visiting order: Vitess walks the WITH clause first. */
  function ChildCount(node: Node): nat {
    |Ctes(node)| + |node.parts|
  }

  function Child(node: Node, i: nat): (child: Node)
    requires i < ChildCount(node)
    ensures child < node
  {
    if i < |Ctes(node)| then
      assert node.ctes[i] < node;
      node.ctes[i].body
    else node.parts[i - |Ctes(node)|]
  }

  ghost predicate HasChild(node: Node, child: Node) {
    exists i: nat :: i < ChildCount(node) && Child(node, i) == child
  }

  /** Nothing in a node is skipped: its children are the bodies of its common table expressions and its parts. */
  lemma ChildrenAreAll(node: Node, child: Node)
    ensures HasChild(node, child) <==>
            child in node.parts || (node.Query? && exists c :: c in node.ctes && c.body == child)
  {
    if child in node.parts {
      var k: nat :| k < |node.parts| && node.parts[k] == child;
      assert Child(node, |Ctes(node)| + k) == child;
    }
    if node.Query? && exists c :: c in node.ctes && c.body == child {
      var k: nat :| k < |node.ctes| && node.ctes[k].body == child;
      assert Child(node, k) == child;
    }
  }

  /** What Vitess's types guarantee: a common table expression is a table statement. */
  ghost predicate WellFormed(node: Node) {
    && (forall i :: 0 <= i < |Ctes(node)| ==> node.ctes[i].body.Query?)
    && (forall i :: 0 <= i < ChildCount(node) ==> WellFormed(Child(node, i)))
  }

  /** A way down the tree, as child numbers. */
  type Path = seq<nat>

  function NodeAt(root: Node, path: Path): Option<Node>
    decreases |path|
  {
    if path == [] then Some(root)
    else if path[0] < ChildCount(root) then NodeAt(Child(root, path[0]), path[1..])
    else None
  }
}
