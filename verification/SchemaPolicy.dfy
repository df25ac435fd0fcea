/** `ValidateAllowedSchemas`: every table a statement can touch lies in an allowed schema, with common table
    expressions resolved by lexical scope. Go's Unicode lowering, and the folding by which `strings.EqualFold`
    compares, are parameters. */
module SchemaPolicy {
  import opened Results
  import opened Utf8
  import opened SchemaFilter
  import opened SqlAst

  const DUAL: Name := [0x64, 0x75, 0x61, 0x6C]

  datatype Rules = Rules(lower: Name -> Name, fold: Name -> Name,
                         defaultDb: Name, exact: seq<Name>, patterns: seq<Name>)

  datatype Verdict = Allowed | NotAllowed(schema: Name) | Undetermined | InvalidSql

  /** A table reference with the common table expressions in scope for it; only an aliased table may be virtual DUAL,
      which the targets of UPDATE and DELETE are too. */
  datatype Ref = Ref(table: TableName, visible: set<Name>, fromItem: bool)

  /** Whether a reference resolves to something other than a physical table. */
  predicate Resolved(ref: Ref, rules: Rules) {
    && ref.table.qualifier == []
    && ((ref.fromItem && rules.fold(ref.table.name) == rules.fold(DUAL)) || rules.lower(ref.table.name) in ref.visible)
  }

  /** The schema that a physical reference reaches. */
  function SchemaOf(ref: Ref, rules: Rules): Name {
    if ref.table.qualifier == [] then rules.defaultDb else ref.table.qualifier
  }

  predicate RefAllowed(ref: Ref, rules: Rules) {
    Resolved(ref, rules) || Permitted(SchemaOf(ref, rules), rules.exact, rules.patterns)
  }

  method ValidateSchemaName(schema: Name, rules: Rules) returns (v: Verdict)
    ensures v == if Permitted(schema, rules.exact, rules.patterns) then Allowed else NotAllowed(schema)
  {
    var ok := Allows(schema, rules.exact, rules.patterns);
    return if ok then Allowed else NotAllowed(schema);
  }

  method ValidatePhysicalTable(table: TableName, visible: set<Name>, allowVirtualDual: bool, rules: Rules)
    returns (v: Verdict)
    ensures var ref := Ref(table, visible, allowVirtualDual);
            v == if RefAllowed(ref, rules) then Allowed else NotAllowed(SchemaOf(ref, rules))
  {
    if table.qualifier == [] {
      if allowVirtualDual && rules.fold(table.name) == rules.fold(DUAL) {
        return Allowed;
      }
      if rules.lower(table.name) in visible {
        return Allowed;
      }
      v := ValidateSchemaName(rules.defaultDb, rules);
    } else {
      v := ValidateSchemaName(table.qualifier, rules);
    }
  }

  /////////////////////////////////////////////// references in the order in which they are checked

  function CteNames(ctes: seq<Cte>, lower: Name -> Name): set<Name> {
    set i | 0 <= i < |ctes| :: lower(ctes[i].id)
  }

  function DeclaredNames(node: Node, rules: Rules): set<Name> {
    CteNames(Ctes(node), rules.lower)
  }

  function OptionTables(options: seq<TableOption>): seq<TableName> {
    if options == [] then []
    else (if options[0].NilOption? then [] else options[0].tables) + OptionTables(options[1..])
  }

  /** References of the nodes that name tables themselves; None for the nodes the walk descends into. */
  function OwnRefs(node: Node, visible: set<Name>): Option<seq<Ref>> {
    match node
    case AliasedTable(table, _) => Some([Ref(table, visible, true)])
    case ForeignKey(table, _) => Some([Ref(table, {}, false)])
    case Partitioning(table, _) => if table.name != [] then Some([Ref(table, {}, false)]) else None
    case AutoIncrement(table, _) => if table.name != [] then Some([Ref(table, {}, false)]) else None
    case TableOptions(options, _) =>
      var tables := OptionTables(options);
      Some(seq(|tables|, i requires 0 <= i < |tables| => Ref(tables[i], {}, false)))
    case _ => None
  }

  /** Everything below `node`, children from the `i`-th on, with the node's own declarations already visible. */
  function RefsBelow(node: Node, i: nat, visible: set<Name>, rules: Rules): seq<Ref>
    requires i <= ChildCount(node)
    decreases node, 0, ChildCount(node) - i
  {
    if i == ChildCount(node) then [] else Refs(Child(node, i), visible, rules) + RefsBelow(node, i + 1, visible, rules)
  }

  function Refs(node: Node, visible: set<Name>, rules: Rules): seq<Ref>
    decreases node, 1, 0
  {
    var own := OwnRefs(node, visible);
    if own.Some? then own.value else RefsBelow(node, 0, visible + DeclaredNames(node, rules), rules)
  }

  /** The references of a scope root: its own kind is not looked at, only what is below it. */
  function ScopeRefs(root: Node, inherited: set<Name>, rules: Rules): seq<Ref> {
    RefsBelow(root, 0, inherited + DeclaredNames(root, rules), rules)
  }

  function FirstBad(refs: seq<Ref>, rules: Rules): Verdict {
    if refs == [] then Allowed
    else if RefAllowed(refs[0], rules) then FirstBad(refs[1..], rules)
    else NotAllowed(SchemaOf(refs[0], rules))
  }

  lemma {:induction false} FirstBadConcat(a: seq<Ref>, b: seq<Ref>, rules: Rules)
    ensures FirstBad(a + b, rules) == if FirstBad(a, rules) == Allowed then FirstBad(b, rules) else FirstBad(a, rules)
  {
    if a == [] {
      assert a + b == b;
    } else {
      assert (a + b)[1..] == a[1..] + b;
      FirstBadConcat(a[1..], b, rules);
    }
  }

  lemma {:induction false} AllowedMeansAll(refs: seq<Ref>, rules: Rules)
    ensures FirstBad(refs, rules) == Allowed <==> forall i :: 0 <= i < |refs| ==> RefAllowed(refs[i], rules)
  {
    if refs != [] {
      AllowedMeansAll(refs[1..], rules);
      assert forall i :: 0 <= i < |refs[1..]| ==> refs[1..][i] == refs[i + 1];
    }
  }

  /////////////////////////////////////////////// the recursive check

  method ValidateSchemaScope(root: Node, inherited: set<Name>, rules: Rules) returns (v: Verdict)
    requires WellFormed(root)
    ensures v == FirstBad(ScopeRefs(root, inherited, rules), rules)
    decreases root, 3
  {
    hide FirstBad, CteNames, RefAllowed, OwnRefs, Child;
    var visible := inherited;
    var ctes := Ctes(root);
    assert inherited == inherited + CteNames(ctes[..0], rules.lower) by {
      NoNames(rules.lower);
    }
    for i := 0 to |ctes|
      invariant visible == inherited + CteNames(ctes[..i], rules.lower)
    {
      OneMoreName(ctes, i, rules.lower);
      visible := visible + {rules.lower(ctes[i].id)};
    }
    assert ctes[..|ctes|] == ctes;
    for i := 0 to |ctes|
      invariant FirstBad(ScopeRefs(root, inherited, rules), rules)
                == FirstBad(RefsBelow(root, i, visible, rules), rules)
    {
      CteChild(root, i);
      v := ValidateSchemaScope(ctes[i].body, visible, rules);
      QueryRefs(ctes[i].body, visible, rules);
      FirstBadConcat(Refs(Child(root, i), visible, rules), RefsBelow(root, i + 1, visible, rules), rules);
      if v != Allowed {
        return;
      }
    }
    var first := true;
    v, first := WalkScope(root, visible, first, rules);
  }

  lemma NoNames(lower: Name -> Name)
    ensures CteNames([], lower) == {}
  {
  }

  lemma OneMoreName(ctes: seq<Cte>, i: nat, lower: Name -> Name)
    requires i < |ctes|
    ensures CteNames(ctes[..i + 1], lower) == CteNames(ctes[..i], lower) + {lower(ctes[i].id)}
  {
    assert ctes[..i + 1] == ctes[..i] + [ctes[i]];
  }

  lemma CteChild(root: Node, i: nat)
    requires i < |Ctes(root)| && WellFormed(root)
    ensures Child(root, i) == root.ctes[i].body && root.ctes[i].body.Query?
    ensures WellFormed(root.ctes[i].body) && root.ctes[i].body < root
  {
    assert WellFormed(Child(root, i));
  }

  lemma PartChild(root: Node, i: nat)
    requires i < |root.parts| && WellFormed(root)
    ensures Child(root, |Ctes(root)| + i) == root.parts[i] && WellFormed(root.parts[i])
  {
    assert WellFormed(Child(root, |Ctes(root)| + i));
  }

  lemma QueryRefs(node: Node, visible: set<Name>, rules: Rules)
    requires node.Query? || node.Ddl? || node.DatabaseDdl?
    ensures Refs(node, visible, rules) == ScopeRefs(node, visible, rules)
  {
  }

  /** The walk and its callback: the first node visited is the scope root itself and is only descended into; nested
      scopes are handed back to the scope function; common table expressions below a WITH are skipped, their bodies
      having been checked already. */
  method WalkScope(node: Node, visible: set<Name>, first: bool, rules: Rules) returns (v: Verdict, first': bool)
    requires WellFormed(node)
    ensures !first'
    ensures v == FirstBad(if first then RefsBelow(node, |Ctes(node)|, visible, rules) else Refs(node, visible, rules),
                          rules)
    decreases node, if first then 2 else 4
  {
    hide FirstBad, RefAllowed, Child, WellFormed;
    first' := false;
    if !first {
      match node {
        case Query(_, _, _, _, _) =>
          QueryRefs(node, visible, rules);
          v := ValidateSchemaScope(node, visible, rules);
          return;
        case Ddl(_) =>
          QueryRefs(node, visible, rules);
          v := ValidateSchemaScope(node, visible, rules);
          return;
        case DatabaseDdl(_) =>
          QueryRefs(node, visible, rules);
          v := ValidateSchemaScope(node, visible, rules);
          return;
        case AliasedTable(table, _) =>
          v := ValidatePhysicalTable(table, visible, true, rules);
          SingleRef(Ref(table, visible, true), rules);
          return;
        case ForeignKey(table, _) =>
          v := ValidatePhysicalTable(table, {}, false, rules);
          SingleRef(Ref(table, {}, false), rules);
          return;
        case Partitioning(table, _) =>
          if table.name != [] {
            v := ValidatePhysicalTable(table, {}, false, rules);
            SingleRef(Ref(table, {}, false), rules);
            return;
          }
        case AutoIncrement(table, _) =>
          if table.name != [] {
            v := ValidatePhysicalTable(table, {}, false, rules);
            SingleRef(Ref(table, {}, false), rules);
            return;
          }
        case TableOptions(options, _) =>
          v := ValidateOptionTables(options, rules);
          return;
        case _ =>
      }
      NoDeclarations(node, visible, rules);
    }
    v := WalkParts(node, visible, rules);
  }

  lemma SingleRef(ref: Ref, rules: Rules)
    ensures FirstBad([ref], rules) == if RefAllowed(ref, rules) then Allowed else NotAllowed(SchemaOf(ref, rules))
  {
    assert [ref][1..] == [];
  }

  lemma NoDeclarations(node: Node, visible: set<Name>, rules: Rules)
    requires !node.Query? && OwnRefs(node, visible).None?
    ensures Refs(node, visible, rules) == RefsBelow(node, |Ctes(node)|, visible, rules)
  {
    assert visible + DeclaredNames(node, rules) == visible;
  }

  method WalkParts(node: Node, visible: set<Name>, rules: Rules) returns (v: Verdict)
    requires WellFormed(node)
    ensures v == FirstBad(RefsBelow(node, |Ctes(node)|, visible, rules), rules)
    decreases node, 1
  {
    hide FirstBad, RefAllowed, Child, WellFormed, Refs;
    var base := |Ctes(node)|;
    for i := 0 to |node.parts|
      invariant FirstBad(RefsBelow(node, base, visible, rules), rules)
                == FirstBad(RefsBelow(node, base + i, visible, rules), rules)
    {
      PartChild(node, i);
      var part := node.parts[i];
      var first := false;
      v, first := WalkScope(part, visible, first, rules);
      FirstBadConcat(Refs(part, visible, rules), RefsBelow(node, base + i + 1, visible, rules), rules);
      if v != Allowed {
        return;
      }
    }
    v := Allowed;
    NothingBad(rules);
  }

  lemma NothingBad(rules: Rules)
    ensures FirstBad([], rules) == Allowed
  {
  }

  function PlainRefs(tables: seq<TableName>): seq<Ref> {
    seq(|tables|, i requires 0 <= i < |tables| => Ref(tables[i], {}, false))
  }

  method ValidateTables(tables: seq<TableName>, rules: Rules) returns (v: Verdict)
    ensures v == FirstBad(PlainRefs(tables), rules)
  {
    for i := 0 to |tables|
      invariant FirstBad(PlainRefs(tables), rules) == FirstBad(PlainRefs(tables[i..]), rules)
    {
      v := ValidatePhysicalTable(tables[i], {}, false, rules);
      assert PlainRefs(tables[i..])[0] == Ref(tables[i], {}, false);
      assert PlainRefs(tables[i..])[1..] == PlainRefs(tables[i + 1..]);
      if v != Allowed {
        return;
      }
    }
    v := Allowed;
  }

  lemma OptionTablesStep(options: seq<TableOption>, i: nat, rules: Rules)
    requires i < |options|
    ensures var rest := FirstBad(PlainRefs(OptionTables(options[i + 1..])), rules);
            FirstBad(PlainRefs(OptionTables(options[i..])), rules)
            == if options[i].NilOption? then rest
               else
                 var own := FirstBad(PlainRefs(options[i].tables), rules);
                 if own != Allowed then own else rest
  {
    hide FirstBad;
    var rest := OptionTables(options[i + 1..]);
    assert options[i..][1..] == options[i + 1..];
    if options[i].NilOption? {
      assert [] + rest == rest;
    } else {
      assert PlainRefs(options[i].tables + rest) == PlainRefs(options[i].tables) + PlainRefs(rest);
      FirstBadConcat(PlainRefs(options[i].tables), PlainRefs(rest), rules);
    }
  }

  lemma NoOptions(rules: Rules)
    ensures FirstBad(PlainRefs(OptionTables([])), rules) == Allowed
  {
  }

  method ValidateOptionTables(options: seq<TableOption>, rules: Rules) returns (v: Verdict)
    ensures v == FirstBad(PlainRefs(OptionTables(options)), rules)
  {
    hide FirstBad, PlainRefs, OptionTables;
    assert options[0..] == options;
    for i := 0 to |options|
      invariant FirstBad(PlainRefs(OptionTables(options)), rules)
                == FirstBad(PlainRefs(OptionTables(options[i..])), rules)
    {
      OptionTablesStep(options, i, rules);
      if options[i].NilOption? {
        continue;
      }
      v := ValidateTables(options[i].tables, rules);
      if v != Allowed {
        return;
      }
    }
    assert options[|options|..] == [];
    NoOptions(rules);
    v := Allowed;
  }
}
