/** What the recursive schema check decides, said without recursion: about the table references found along the paths
    of the tree, each with the WITH clauses of its own ancestors. */
module SchemaScope {
  import opened Results
  import opened Utf8
  import opened SchemaFilter
  import opened SqlAst
  import opened SchemaPolicy
  import Glob

  /** The names visible at the end of a path: the inherited ones and those every node left behind declares. */
  function EnvAlong(root: Node, path: Path, inherited: set<Name>, rules: Rules): set<Name>
    decreases |path|
  {
    if path == [] || path[0] >= ChildCount(root) then inherited
    else EnvAlong(Child(root, path[0]), path[1..], inherited + DeclaredNames(root, rules), rules)
  }

  ghost predicate DeclaresAt(root: Node, path: Path, name: Name, rules: Rules) {
    NodeAt(root, path).Some? && name in DeclaredNames(NodeAt(root, path).value, rules)
  }

  /** Some node on the way, before the end of the path, declares the name. */
  ghost predicate DeclaredAbove(root: Node, path: Path, name: Name, rules: Rules) {
    exists k :: 0 <= k < |path| && DeclaresAt(root, path[..k], name, rules)
  }

  lemma DeclaresBelow(root: Node, path: Path, k: nat, name: Name, rules: Rules)
    requires path != [] && path[0] < ChildCount(root) && k < |path| - 1
    ensures DeclaresAt(Child(root, path[0]), path[1..][..k], name, rules)
            <==> DeclaresAt(root, path[..k + 1], name, rules)
  {
    hide Child, DeclaredNames;
    assert path[..k + 1][1..] == path[1..][..k];
  }

  lemma DeclaredAboveStep(root: Node, path: Path, name: Name, rules: Rules)
    requires path != [] && path[0] < ChildCount(root)
    ensures DeclaredAbove(root, path, name, rules) <==>
            name in DeclaredNames(root, rules) || DeclaredAbove(Child(root, path[0]), path[1..], name, rules)
  {
    hide Child, DeclaresAt;
    assert DeclaresAt(root, path[..0], name, rules) <==> name in DeclaredNames(root, rules) by {
      DeclaresHere(root, name, rules);
    }
    forall k: nat | k < |path| - 1
      ensures DeclaresAt(Child(root, path[0]), path[1..][..k], name, rules)
              <==> DeclaresAt(root, path[..k + 1], name, rules)
    {
      DeclaresBelow(root, path, k, name, rules);
    }
    if k :| 0 <= k < |path| && DeclaresAt(root, path[..k], name, rules) {
      if k > 0 {
        assert DeclaresAt(Child(root, path[0]), path[1..][..k - 1], name, rules);
      }
    }
  }

  lemma DeclaresHere(root: Node, name: Name, rules: Rules)
    ensures DeclaresAt(root, [], name, rules) <==> name in DeclaredNames(root, rules)
  {
  }

  /** Scope is lexical: a name is visible at the end of a path exactly if it is inherited or a node on the way, before
      the end, declares it. What other branches of the tree declare plays no part. */
  lemma {:induction false} ScopeIsLexical(root: Node, path: Path, inherited: set<Name>, rules: Rules, name: Name)
    requires NodeAt(root, path).Some?
    ensures name in EnvAlong(root, path, inherited, rules) <==>
            name in inherited || DeclaredAbove(root, path, name, rules)
    decreases |path|
  {
    hide Child, DeclaresAt, DeclaredNames;
    if path != [] {
      var child := Child(root, path[0]);
      ScopeIsLexical(child, path[1..], inherited + DeclaredNames(root, rules), rules, name);
      DeclaredAboveStep(root, path, name, rules);
    }
  }

  /** Nodes that name tables are not descended into, so nothing is looked at beyond them. */
  ghost predicate Reached(root: Node, path: Path)
    decreases |path|
  {
    && NodeAt(root, path).Some?
    && (path != [] ==> OwnRefs(root, {}).None? && Reached(Child(root, path[0]), path[1..]))
  }

  /** A reference occurs at a path below `root` when the node there names the table; common table expressions visible
      to it are those of its own lexical scope. */
  ghost predicate Occurs(root: Node, path: Path, inherited: set<Name>, rules: Rules, ref: Ref) {
    && Reached(root, path)
    && var own := OwnRefs(NodeAt(root, path).value, EnvAlong(root, path, inherited, rules));
       own.Some? && ref in own.value
  }

  ghost predicate OccursBelow(root: Node, i: nat, path: Path, visible: set<Name>, rules: Rules, ref: Ref) {
    path != [] && i <= path[0] < ChildCount(root) && Occurs(Child(root, path[0]), path[1..], visible, rules, ref)
  }

  lemma {:induction false} OccurrencesAreRefs(node: Node, path: Path, visible: set<Name>, rules: Rules, ref: Ref)
    requires Occurs(node, path, visible, rules, ref)
    ensures ref in Refs(node, visible, rules)
    decreases |path|
  {
    hide Child, OwnRefs;
    OwnRefsKind(node, visible, {});
    if path != [] {
      var below := visible + DeclaredNames(node, rules);
      OccurrencesAreRefs(Child(node, path[0]), path[1..], below, rules, ref);
      InRefsBelow(node, 0, path[0], below, rules, ref);
    }
  }

  /** Whether a node names tables does not depend on what is visible. */
  lemma OwnRefsKind(node: Node, a: set<Name>, b: set<Name>)
    ensures OwnRefs(node, a).Some? <==> OwnRefs(node, b).Some?
  {
  }

  lemma {:induction false} InRefsBelow(node: Node, i: nat, j: nat, visible: set<Name>, rules: Rules, ref: Ref)
    requires i <= j < ChildCount(node) && ref in Refs(Child(node, j), visible, rules)
    ensures ref in RefsBelow(node, i, visible, rules)
    decreases j - i
  {
    hide Child, Refs;
    if i < j {
      InRefsBelow(node, i + 1, j, visible, rules, ref);
    }
  }

  lemma {:induction false} RefsOccur(node: Node, visible: set<Name>, rules: Rules, ref: Ref) returns (path: Path)
    requires ref in Refs(node, visible, rules)
    ensures Occurs(node, path, visible, rules, ref)
    decreases node, 1, 0
  {
    hide Child, OwnRefs;
    OwnRefsKind(node, visible, {});
    if OwnRefs(node, visible).Some? {
      path := [];
    } else {
      path := RefsBelowOccur(node, 0, visible + DeclaredNames(node, rules), rules, ref);
    }
  }

  lemma {:induction false} RefsBelowOccur(node: Node, i: nat, visible: set<Name>, rules: Rules, ref: Ref)
    returns (path: Path)
    requires i <= ChildCount(node) && ref in RefsBelow(node, i, visible, rules)
    ensures OccursBelow(node, i, path, visible, rules, ref)
    decreases node, 0, ChildCount(node) - i
  {
    hide Child, Refs, OwnRefs;
    if ref in Refs(Child(node, i), visible, rules) {
      var rest := RefsOccur(Child(node, i), visible, rules, ref);
      path := [i] + rest;
      assert path[1..] == rest;
    } else {
      path := RefsBelowOccur(node, i + 1, visible, rules, ref);
    }
  }

  /** References below a scope root, by path. */
  ghost predicate InScope(root: Node, path: Path, rules: Rules, ref: Ref) {
    OccursBelow(root, 0, path, DeclaredNames(root, rules), rules, ref)
  }

  lemma InScopeIsRef(root: Node, path: Path, rules: Rules, ref: Ref)
    requires InScope(root, path, rules, ref)
    ensures ref in ScopeRefs(root, {}, rules)
  {
    hide Child;
    assert {} + DeclaredNames(root, rules) == DeclaredNames(root, rules);
    OccurrencesAreRefs(Child(root, path[0]), path[1..], DeclaredNames(root, rules), rules, ref);
    InRefsBelow(root, 0, path[0], DeclaredNames(root, rules), rules, ref);
  }

  lemma RefIsInScope(root: Node, rules: Rules, ref: Ref) returns (path: Path)
    requires ref in ScopeRefs(root, {}, rules)
    ensures InScope(root, path, rules, ref)
  {
    hide Child;
    assert {} + DeclaredNames(root, rules) == DeclaredNames(root, rules);
    path := RefsBelowOccur(root, 0, DeclaredNames(root, rules), rules, ref);
  }

  /** The scope check accepts a tree exactly when every reference, wherever it occurs, is allowed in its own scope. */
  lemma ScopeAcceptsExactly(root: Node, rules: Rules)
    ensures FirstBad(ScopeRefs(root, {}, rules), rules) == Allowed <==>
            forall path, ref :: InScope(root, path, rules, ref) ==> RefAllowed(ref, rules)
  {
    hide ScopeRefs, InScope, RefAllowed, FirstBad;
    var refs := ScopeRefs(root, {}, rules);
    AllowedMeansAll(refs, rules);
    forall path, ref | InScope(root, path, rules, ref)
      ensures ref in refs
    {
      InScopeIsRef(root, path, rules, ref);
    }
    forall i | 0 <= i < |refs|
      ensures exists path :: InScope(root, path, rules, refs[i])
    {
      var path := RefIsInScope(root, rules, refs[i]);
    }
  }

  /////////////////////////////////////////////// the same, kind by kind

  /** A node that is looked into: it names no table itself. */
  predicate IsLookedInto(node: Node) {
    match node
    case Query(_, _, _, _, _) => true
    case Ddl(_) => true
    case DatabaseDdl(_) => true
    case PartitionOptions(_, _, _) => true
    case Expression(_, _) => true
    case Other(_) => true
    case Partitioning(exchange, _) => exchange.name == []
    case AutoIncrement(sequence, _) => sequence.name == []
    case _ => false
  }

  /** Every node on the way, from the start of the path up to but without its end, is looked into. */
  ghost predicate OpenFrom(root: Node, path: Path) {
    && NodeAt(root, path).Some?
    && forall k :: 0 <= k < |path| ==> NodeAt(root, path[..k]).Some? && IsLookedInto(NodeAt(root, path[..k]).value)
  }

  /** The same below a scope root, whose own kind does not matter. */
  ghost predicate OpenBelow(root: Node, path: Path) {
    path != [] && path[0] < ChildCount(root) && OpenFrom(Child(root, path[0]), path[1..])
  }

  lemma OpenStep(root: Node, path: Path)
    requires path != [] && path[0] < ChildCount(root)
    ensures OpenFrom(root, path) <==> IsLookedInto(root) && OpenFrom(Child(root, path[0]), path[1..])
  {
    hide Child, IsLookedInto;
    var child, rest := Child(root, path[0]), path[1..];
    forall k | 0 < k <= |path|
      ensures NodeAt(root, path[..k]) == NodeAt(child, rest[..k - 1])
    {
      assert path[..k][1..] == rest[..k - 1];
    }
    assert path[..|path|] == path && rest[..|rest|] == rest && NodeAt(root, path[..0]) == Some(root);
    if OpenFrom(root, path) {
      assert IsLookedInto(NodeAt(root, path[..0]).value);
      forall k | 0 <= k < |rest|
        ensures NodeAt(child, rest[..k]).Some? && IsLookedInto(NodeAt(child, rest[..k]).value)
      {
        assert NodeAt(root, path[..k + 1]) == NodeAt(child, rest[..k]);
      }
    }
  }

  lemma {:induction false} ReachedIsOpen(root: Node, path: Path)
    ensures Reached(root, path) <==> OpenFrom(root, path)
    decreases |path|
  {
    hide Child, OpenFrom;
    if path == [] {
      OpenHere(root);
    } else if path[0] < ChildCount(root) {
      OpenStep(root, path);
      ReachedIsOpen(Child(root, path[0]), path[1..]);
      LookedIntoNamesNone(root);
    } else {
      NotOpenNowhere(root, path);
    }
  }

  lemma OpenHere(root: Node)
    ensures OpenFrom(root, [])
  {
  }

  lemma NotOpenNowhere(root: Node, path: Path)
    requires path != [] && path[0] >= ChildCount(root)
    ensures !OpenFrom(root, path)
  {
  }

  lemma LookedIntoNamesNone(node: Node)
    ensures IsLookedInto(node) <==> OwnRefs(node, {}).None?
  {
  }

  /** The schema in which a physical table lies is allowed. */
  predicate TableAllowed(table: TableName, rules: Rules) {
    Permitted(if table.qualifier == [] then rules.defaultDb else table.qualifier, rules.exact, rules.patterns)
  }

  /** A WITH clause of an ancestor defines a common table expression of that name. */
  ghost predicate DefinedAbove(root: Node, path: Path, name: Name, rules: Rules) {
    exists k, i :: 0 <= k < |path| && DefinesAt(root, path[..k], i, name, rules)
  }

  ghost predicate DefinesAt(root: Node, path: Path, i: int, name: Name, rules: Rules) {
    && NodeAt(root, path).Some? && NodeAt(root, path).value.Query?
    && 0 <= i < |NodeAt(root, path).value.ctes|
    && rules.lower(NodeAt(root, path).value.ctes[i].id) == rules.lower(name)
  }

  /** What each kind of node may name: an aliased table may also be `dual` or a common table expression in scope, the
      tables of foreign keys, exchanged partitions, sequences and table options may not. */
  ghost predicate NodeAllowed(root: Node, path: Path, rules: Rules)
    requires NodeAt(root, path).Some?
  {
    match NodeAt(root, path).value
    case AliasedTable(table, _) =>
      || TableAllowed(table, rules)
      || (table.qualifier == [] && (rules.fold(table.name) == rules.fold([0x64, 0x75, 0x61, 0x6C]) ||
                                    DefinedAbove(root, path, table.name, rules)))
    case ForeignKey(table, _) => TableAllowed(table, rules)
    case Partitioning(exchange, _) => exchange.name != [] ==> TableAllowed(exchange, rules)
    case AutoIncrement(sequence, _) => sequence.name != [] ==> TableAllowed(sequence, rules)
    case TableOptions(options, _) =>
      forall o, t :: o in options && o.TableOption? && t in o.tables ==> TableAllowed(t, rules)
    case _ => true
  }

  lemma DefinedIsDeclared(root: Node, path: Path, name: Name, rules: Rules)
    ensures DefinedAbove(root, path, name, rules) <==> DeclaredAbove(root, path, rules.lower(name), rules)
  {
    forall k | 0 <= k < |path|
      ensures DeclaresAt(root, path[..k], rules.lower(name), rules) <==>
              exists i :: DefinesAt(root, path[..k], i, name, rules)
    {
      DefinesIsDeclares(root, path[..k], name, rules);
    }
    if DeclaredAbove(root, path, rules.lower(name), rules) {
      var k :| 0 <= k < |path| && DeclaresAt(root, path[..k], rules.lower(name), rules);
      var i :| DefinesAt(root, path[..k], i, name, rules);
    }
  }

  lemma DefinesIsDeclares(root: Node, path: Path, name: Name, rules: Rules)
    ensures DeclaresAt(root, path, rules.lower(name), rules) <==> exists i :: DefinesAt(root, path, i, name, rules)
  {
    hide NodeAt;
    if i :| DefinesAt(root, path, i, name, rules) {
      assert DeclaresAt(root, path, rules.lower(name), rules);
    }
    if DeclaresAt(root, path, rules.lower(name), rules) {
      var ctes := Ctes(NodeAt(root, path).value);
      var i :| 0 <= i < |ctes| && rules.lower(ctes[i].id) == rules.lower(name);
      assert DefinesAt(root, path, i, name, rules);
    }
  }

  lemma {:induction false} OptionTablesAllowed(options: seq<TableOption>, rules: Rules)
    ensures (forall t :: t in OptionTables(options) ==> TableAllowed(t, rules)) <==>
            forall o, t :: o in options && o.TableOption? && t in o.tables ==> TableAllowed(t, rules)
  {
    hide TableAllowed;
    if options != [] {
      OptionTablesAllowed(options[1..], rules);
      assert options == [options[0]] + options[1..];
      var own: seq<TableName> := if options[0].NilOption? then [] else options[0].tables;
      assert OptionTables(options) == own + OptionTables(options[1..]);
    }
  }

  /** What a node names is allowed exactly when every one of its references is. */
  lemma OwnRefsByKind(root: Node, path: Path, visible: set<Name>, rules: Rules)
    requires NodeAt(root, path).Some?
    requires forall name :: rules.lower(name) in visible <==> DefinedAbove(root, path, name, rules)
    ensures var own := OwnRefs(NodeAt(root, path).value, visible);
            NodeAllowed(root, path, rules) <==>
            (own.Some? ==> forall i :: 0 <= i < |own.value| ==> RefAllowed(own.value[i], rules))
  {
    hide DefinedAbove, Permitted, NodeAt, OptionTables;
    var node := NodeAt(root, path).value;
    if node.TableOptions? {
      OptionTablesAllowed(node.options, rules);
      var tables, own := OptionTables(node.options), OwnRefs(node, visible).value;
      assert |own| == |tables| && forall i :: 0 <= i < |own| ==> own[i] == Ref(tables[i], {}, false);
      assert forall i :: 0 <= i < |own| ==> (RefAllowed(own[i], rules) <==> TableAllowed(tables[i], rules));
    } else if node.AliasedTable? {
      var own := OwnRefs(node, visible).value;
      assert own == [Ref(node.table, visible, true)] && own[0] == Ref(node.table, visible, true);
      assert rules.lower(node.table.name) in visible <==> DefinedAbove(root, path, node.table.name, rules);
      assert NodeAllowed(root, path, rules) <==> RefAllowed(own[0], rules);
      assert DUAL == [0x64, 0x75, 0x61, 0x6C];
    } else if OwnRefs(node, visible).Some? {
      var own := OwnRefs(node, visible).value;
      assert |own| == 1 && !own[0].fromItem && own[0].visible == {};
      assert NodeAllowed(root, path, rules) <==> RefAllowed(own[0], rules);
    }
  }

  lemma NodeByKind(root: Node, path: Path, rules: Rules)
    ensures (forall ref :: InScope(root, path, rules, ref) ==> RefAllowed(ref, rules)) <==>
            (OpenBelow(root, path) ==> NodeAllowed(root, path, rules))
  {
    hide Child, RefAllowed, NodeAllowed, OpenFrom, OwnRefs, DeclaredAbove, DefinedAbove, Reached;
    if path != [] && path[0] < ChildCount(root) {
      ReachedIsOpen(Child(root, path[0]), path[1..]);
      if OpenBelow(root, path) {
        OpenIsThere(root, path);
        var visible := EnvAlong(root, path, {}, rules);
        assert {} + DeclaredNames(root, rules) == DeclaredNames(root, rules);
        forall name
          ensures rules.lower(name) in visible <==> DefinedAbove(root, path, name, rules)
        {
          ScopeIsLexical(root, path, {}, rules, rules.lower(name));
          DefinedIsDeclared(root, path, name, rules);
        }
        OwnRefsByKind(root, path, visible, rules);
        var own := OwnRefs(NodeAt(root, path).value, visible);
        if own.Some? {
          forall i | 0 <= i < |own.value|
            ensures InScope(root, path, rules, own.value[i])
          {
          }
        }
      }
    }
  }

  lemma OpenIsThere(root: Node, path: Path)
    requires OpenBelow(root, path)
    ensures NodeAt(root, path).Some? && NodeAt(root, path) == NodeAt(Child(root, path[0]), path[1..])
  {
    hide Child;
  }

  /** The scope check without references: a tree is accepted exactly when every node that the walk comes to, wherever it
      is, may name what it names. */
  lemma ScopeAcceptsByKind(root: Node, rules: Rules)
    ensures FirstBad(ScopeRefs(root, {}, rules), rules) == Allowed <==>
            forall path :: OpenBelow(root, path) ==>
                             NodeAt(root, path).Some? && NodeAllowed(root, path, rules)
  {
    hide ScopeRefs, InScope, RefAllowed, FirstBad, NodeAllowed, OpenBelow;
    ScopeAcceptsExactly(root, rules);
    if FirstBad(ScopeRefs(root, {}, rules), rules) == Allowed {
      forall path | OpenBelow(root, path)
        ensures NodeAt(root, path).Some? && NodeAllowed(root, path, rules)
      {
        OpenIsThere(root, path);
        NodeByKind(root, path, rules);
      }
    } else {
      var path, ref :| InScope(root, path, rules, ref) && !RefAllowed(ref, rules);
      NodeByKind(root, path, rules);
    }
  }

  /**
    * With a default database that the configuration allows, CTE scoping cannot change the verdict: it equals the flat
    * check that every qualified reference is allowed.
    */
  lemma AllowedDefaultMakesScopeFlat(root: Node, rules: Rules)
    requires Permitted(rules.defaultDb, rules.exact, rules.patterns)
    ensures FirstBad(ScopeRefs(root, {}, rules), rules) == Allowed <==>
            forall path, ref :: InScope(root, path, rules, ref) && ref.table.qualifier != [] ==>
                                  Permitted(ref.table.qualifier, rules.exact, rules.patterns)
  {
    hide InScope, Permitted, ScopeRefs, FirstBad;
    ScopeAcceptsExactly(root, rules);
  }

  /**
    * Without a default database, an unqualified physical reference is let through exactly when some valid pattern
    * consists of stars alone, or the empty name itself is listed.
    */
  lemma EmptyDefaultRejectsUnqualified(root: Node, rules: Rules)
    requires rules.defaultDb == [] && Restricted(rules.exact, rules.patterns)
    ensures FirstBad(ScopeRefs(root, {}, rules), rules) == Allowed <==>
            && (forall path, ref :: InScope(root, path, rules, ref) && ref.table.qualifier != [] ==>
                                      Permitted(ref.table.qualifier, rules.exact, rules.patterns))
            && ([] in rules.exact || (exists p :: p in rules.patterns && ValidPattern(p) && Glob.AllStars(p)) ||
                forall path, ref :: InScope(root, path, rules, ref) && ref.table.qualifier == [] ==>
                                      Resolved(ref, rules))
  {
    hide InScope, Permitted, ScopeRefs, FirstBad;
    ScopeAcceptsExactly(root, rules);
    EmptyNamePermitted(rules.exact, rules.patterns);
  }

  /** So a restriction alone does not reject unqualified tables when there is no default database. */
  lemma StarPatternAdmitsUnqualified(lower: Name -> Name, fold: Name -> Name, table: Name)
    ensures var rules := Rules(lower, fold, [], [], [[Glob.STAR]]);
            && Restricted(rules.exact, rules.patterns)
            && RefAllowed(Ref(TableName([], table), {}, true), rules)
  {
    var p: Name := [Glob.STAR];
    assert DecodeRune(p) == Decoded(Glob.STAR, 1, true) && p[1..] == [];
    assert Runes(p) == [Glob.STAR];
    assert Valid(p) && 0 !in p;
    EmptyNamePermitted([], [p]);
    assert Glob.AllStars(p);
    assert p in [p];
  }
}
