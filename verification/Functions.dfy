/** Stored-function policies: what configuration validation accepts, and the service that is built from it. */
module Functions {
  import opened Results
  import opened Utf8
  import opened SchemaFilter
  import opened Text

  const DOT: byte := 0x2E
  const NUL: byte := 0

  datatype Effect = Read | Write | OtherEffect

  /** An entry of the configuration: a dotted name, an effect, and the definer switch. */
  datatype FunctionAllow = FunctionAllow(name: Name, effect: Effect, allowDefiner: bool)

  datatype FunctionPolicy = FunctionPolicy(schema: Name, name: Name, effect: Effect, allowDefiner: bool)

  /** The key of a routine: its schema exactly, its name without case. */
  function Key(schema: Name, name: Name, lower: Name -> Name): Name {
    schema + [NUL] + lower(name)
  }

  /** Keys of routines in schemas without NUL coincide exactly when schema and folded name do. */
  lemma KeyIsPair(schema: Name, name: Name, schema': Name, name': Name, lower: Name -> Name)
    requires NUL !in schema && NUL !in schema'
    ensures Key(schema, name, lower) == Key(schema', name', lower) <==> schema == schema' && lower(name) == lower(name')
  {
    var k, k' := Key(schema, name, lower), Key(schema', name', lower);
    if k == k' {
      assert k[|schema|] == NUL && forall i :: 0 <= i < |schema| ==> k[i] == schema[i];
      assert k'[|schema'|] == NUL && forall i :: 0 <= i < |schema'| ==> k'[i] == schema'[i];
      assert |schema| == |schema'|;
      assert schema == k[..|schema|] && schema' == k'[..|schema'|];
      assert lower(name) == k[|schema| + 1..] && lower(name') == k'[|schema'| + 1..];
    }
  }

  /////////////////////////////////////////////// configuration

  datatype ConfigProblem = NotQualified(i: nat) | BadSchema(i: nat) | BadName(i: nat) | BadEffect(i: nat)
                         | WriteNotAllowed(i: nat) | Duplicate(i: nat)

  predicate EntryValid(f: FunctionAllow, functionWrite: bool, readOnly: bool) {
    && |Split(f.name, DOT)| == 2 && ValidIdentifier(Split(f.name, DOT)[0]) && ValidIdentifier(Split(f.name, DOT)[1])
    && f.effect != OtherEffect
    && (f.effect == Write ==> functionWrite && !readOnly)
  }

  function EntryKey(f: FunctionAllow, lower: Name -> Name): Name
    requires |Split(f.name, DOT)| == 2
  {
    Key(Split(f.name, DOT)[0], Split(f.name, DOT)[1], lower)
  }

  ghost predicate EntriesValid(fs: seq<FunctionAllow>, functionWrite: bool, readOnly: bool, lower: Name -> Name) {
    && (forall i :: 0 <= i < |fs| ==> EntryValid(fs[i], functionWrite, readOnly))
    && (forall i, j :: 0 <= i < j < |fs| ==> EntryKey(fs[i], lower) != EntryKey(fs[j], lower))
  }

  /** What is wrong with the entry that is reported: its name has not two parts, one of them is no identifier, its
      effect is neither read nor write, it writes where nothing may, or it repeats a routine. */
  ghost predicate ProblemIsReal(p: ConfigProblem, fs: seq<FunctionAllow>, functionWrite: bool, readOnly: bool,
                                lower: Name -> Name)
  {
    && p.i < |fs|
    && var parts := Split(fs[p.i].name, DOT);
       match p
       case NotQualified(_) => |parts| != 2
       case BadSchema(_) => |parts| == 2 && !ValidIdentifier(parts[0])
       case BadName(_) => |parts| == 2 && !ValidIdentifier(parts[1])
       case BadEffect(i) => fs[i].effect == OtherEffect
       case WriteNotAllowed(i) => fs[i].effect == Write && (!functionWrite || readOnly)
       case Duplicate(i) =>
         && |parts| == 2
         && exists j :: 0 <= j < i && |Split(fs[j].name, DOT)| == 2
                        && Key(parts[0], parts[1], lower) == EntryKey(fs[j], lower)
  }

  /** A validated entry is one routine of one schema, with an effect that is allowed. */
  lemma ValidEntryIsARoutine(f: FunctionAllow, functionWrite: bool, readOnly: bool)
    ensures EntryValid(f, functionWrite, readOnly) <==>
            && (exists schema, routine :: IsFor(f, schema, routine) && 0x2E !in schema && 0x2E !in routine
                                          && ValidIdentifier(schema) && ValidIdentifier(routine))
            && (f.effect == Read || (f.effect == Write && functionWrite && !readOnly))
  {
    hide ValidIdentifier, Split;
    var parts := Split(f.name, DOT);
    if |parts| == 2 {
      JoinOfSplit(f.name, DOT);
      assert Join(parts[1..], DOT) == parts[1];
      NoSeparatorInside(f.name, DOT);
      assert IsFor(f, parts[0], parts[1]);
    }
    forall schema, routine | IsFor(f, schema, routine) && 0x2E !in schema && 0x2E !in routine
      ensures parts == [schema, routine]
    {
      SplitConcat(schema, routine, DOT);
      SplitOfPlain(schema, DOT);
      SplitOfPlain(routine, DOT);
    }
  }

  /** The entry is for this routine of this schema. */
  ghost predicate IsFor(f: FunctionAllow, schema: Name, routine: Name) {
    f.name == schema + [0x2E] + routine
  }

  method ValidateFunctions(fs: seq<FunctionAllow>, functionWrite: bool, readOnly: bool, lower: Name -> Name)
    returns (problem: Option<ConfigProblem>)
    ensures problem.None? <==> EntriesValid(fs, functionWrite, readOnly, lower)
    ensures problem.Some? ==> ProblemIsReal(problem.value, fs, functionWrite, readOnly, lower)
  {
    hide ValidIdentifier, Split, Key;
    var seen: set<Name> := {};
    for i := 0 to |fs|
      invariant forall j :: 0 <= j < i ==> EntryValid(fs[j], functionWrite, readOnly)
      invariant forall j, k :: 0 <= j < k < i ==> EntryKey(fs[j], lower) != EntryKey(fs[k], lower)
      invariant seen == set j | 0 <= j < i :: EntryKey(fs[j], lower)
    {
      var f := fs[i];
      var parts := Split(f.name, DOT);
      if |parts| != 2 {
        return Some(NotQualified(i));
      }
      if !ValidIdentifier(parts[0]) {
        return Some(BadSchema(i));
      }
      if !ValidIdentifier(parts[1]) {
        return Some(BadName(i));
      }
      if f.effect != Read && f.effect != Write {
        return Some(BadEffect(i));
      }
      if f.effect == Write && (!functionWrite || readOnly) {
        return Some(WriteNotAllowed(i));
      }
      var key := Key(parts[0], parts[1], lower);
      if key in seen {
        return Some(Duplicate(i));
      }
      seen := seen + {key};
    }
    return None;
  }

  /////////////////////////////////////////////// the service

  /** How the registry turns entries into policies. */
  function PolicyOf(f: FunctionAllow): FunctionPolicy {
    var (schema, name) := Cut(f.name, DOT);
    FunctionPolicy(schema, name, f.effect, f.allowDefiner)
  }

  function PoliciesOf(fs: seq<FunctionAllow>): seq<FunctionPolicy> {
    seq(|fs|, i requires 0 <= i < |fs| => PolicyOf(fs[i]))
  }

  datatype ServiceProblem = BadPolicyIdentifier(i: nat) | MissingWriter(i: nat) | BadPolicyEffect(i: nat)
                          | DuplicatePolicy(i: nat)

  predicate PolicyUsable(p: FunctionPolicy, hasWriter: bool) {
    ValidIdentifier(p.schema) && ValidIdentifier(p.name) && p.effect != OtherEffect && (p.effect == Write ==> hasWriter)
  }

  function KeyOf(p: FunctionPolicy, lower: Name -> Name): Name {
    Key(p.schema, p.name, lower)
  }

  ghost predicate PoliciesUsable(ps: seq<FunctionPolicy>, hasWriter: bool, lower: Name -> Name) {
    && (forall i :: 0 <= i < |ps| ==> PolicyUsable(ps[i], hasWriter))
    && (forall i, j :: 0 <= i < j < |ps| ==> KeyOf(ps[i], lower) != KeyOf(ps[j], lower))
  }

  /** Exactly the given policies, each under its own key. */
  ghost predicate Indexes(policies: map<Name, FunctionPolicy>, ps: seq<FunctionPolicy>, lower: Name -> Name) {
    && (forall i :: 0 <= i < |ps| ==>
          KeyOf(ps[i], lower) in policies && policies[KeyOf(ps[i], lower)] == ps[i])
    && (forall k :: k in policies ==> exists i :: 0 <= i < |ps| && k == KeyOf(ps[i], lower))
  }

  /** What is wrong with the policy that is refused. */
  ghost predicate RefusalIsReal(p: ServiceProblem, ps: seq<FunctionPolicy>, hasWriter: bool, lower: Name -> Name) {
    && p.i < |ps|
    && match p
       case BadPolicyIdentifier(i) => !ValidIdentifier(ps[i].schema) || !ValidIdentifier(ps[i].name)
       case MissingWriter(i) => ps[i].effect == Write && !hasWriter
       case BadPolicyEffect(i) => ps[i].effect == OtherEffect
       case DuplicatePolicy(i) => exists j :: 0 <= j < i && KeyOf(ps[j], lower) == KeyOf(ps[i], lower)
  }

  method NewFunctionService(ps: seq<FunctionPolicy>, hasWriter: bool, lower: Name -> Name)
    returns (r: Result<map<Name, FunctionPolicy>, ServiceProblem>)
    ensures r.Success? <==> PoliciesUsable(ps, hasWriter, lower)
    ensures r.Success? ==> Indexes(r.value, ps, lower)
    ensures r.Success? ==> forall i :: 0 <= i < |ps| ==>
                                          && ValidIdentifier(ps[i].schema) && ValidIdentifier(ps[i].name)
                                          && (ps[i].effect == Read || (ps[i].effect == Write && hasWriter))
    ensures r.Failure? ==> RefusalIsReal(r.error, ps, hasWriter, lower)
  {
    hide ValidIdentifier, KeyOf, Indexes;
    var policies: map<Name, FunctionPolicy> := map[];
    NothingIndexed(lower);
    for i := 0 to |ps|
      invariant Indexes(policies, ps[..i], lower)
      invariant forall j :: 0 <= j < i ==> PolicyUsable(ps[j], hasWriter)
      invariant forall j, k :: 0 <= j < k < i ==> KeyOf(ps[j], lower) != KeyOf(ps[k], lower)
    {
      var p := ps[i];
      if !ValidIdentifier(p.schema) || !ValidIdentifier(p.name) {
        return Failure(BadPolicyIdentifier(i));
      }
      match p.effect {
        case Read =>
        case Write =>
          if !hasWriter {
            return Failure(MissingWriter(i));
          }
        case OtherEffect =>
          return Failure(BadPolicyEffect(i));
      }
      var key := KeyOf(p, lower);
      IndexedKeys(policies, ps[..i], key, lower);
      if key in policies {
        return Failure(DuplicatePolicy(i));
      }
      AddIndexed(policies, ps[..i], p, lower);
      policies := policies[key := p];
      assert ps[..i + 1] == ps[..i] + [p];
    }
    assert ps[..|ps|] == ps;
    return Success(policies);
  }

  lemma NothingIndexed(lower: Name -> Name)
    ensures Indexes(map[], [], lower)
  {
  }

  lemma IndexedKeys(policies: map<Name, FunctionPolicy>, ps: seq<FunctionPolicy>, key: Name, lower: Name -> Name)
    requires Indexes(policies, ps, lower)
    ensures key in policies <==> exists i :: 0 <= i < |ps| && key == KeyOf(ps[i], lower)
  {
  }

  lemma AddIndexed(policies: map<Name, FunctionPolicy>, ps: seq<FunctionPolicy>, p: FunctionPolicy, lower: Name -> Name)
    requires Indexes(policies, ps, lower) && KeyOf(p, lower) !in policies
    ensures Indexes(policies[KeyOf(p, lower) := p], ps + [p], lower)
  {
    var key := KeyOf(p, lower);
    var all := ps + [p];
    forall k: Name | k in policies || k == key
      ensures exists i :: 0 <= i < |all| && k == KeyOf(all[i], lower)
    {
      if k == key {
        assert all[|ps|] == p;
      } else {
        var i :| 0 <= i < |ps| && k == KeyOf(ps[i], lower);
        assert all[i] == ps[i];
      }
    }
  }

  /** Every accepted configuration builds: validated entries give usable policies, given a writer when writes are on. */
  lemma ValidatedPoliciesAreUsable(
    fs: seq<FunctionAllow>, functionWrite: bool, readOnly: bool, hasWriter: bool, lower: Name -> Name)
    requires EntriesValid(fs, functionWrite, readOnly, lower)
    requires functionWrite && !readOnly ==> hasWriter
    ensures PoliciesUsable(PoliciesOf(fs), hasWriter, lower)
  {
    forall i | 0 <= i < |fs|
      ensures PolicyUsable(PolicyOf(fs[i]), hasWriter)
      ensures KeyOf(PolicyOf(fs[i]), lower) == EntryKey(fs[i], lower)
    {
      CutIsSplit(fs[i].name, DOT);
    }
  }

  lemma EntryParts(f: FunctionAllow)
    requires |Split(f.name, DOT)| == 2 && ValidIdentifier(Split(f.name, DOT)[0])
    ensures var p := PolicyOf(f);
            && f.name == p.schema + [0x2E] + p.name && NUL !in p.schema
            && p.effect == f.effect && p.allowDefiner == f.allowDefiner
  {
    hide Split, Cut;
    CutIsSplit(f.name, DOT);
    JoinOfSplit(f.name, DOT);
    var parts := Split(f.name, DOT);
    assert Join(parts[1..], DOT) == parts[1];
  }

  lemma OneDot(f: FunctionAllow, schema: Name, routine: Name)
    requires |Split(f.name, DOT)| == 2 && f.name == schema + [0x2E] + routine
    ensures PolicyOf(f).schema == schema && PolicyOf(f).name == routine
  {
    hide Split, Cut;
    SplitConcat(schema, routine, DOT);
    SplitWithoutSeparator(schema, DOT);
    SplitWithoutSeparator(routine, DOT);
    CutIsSplit(f.name, DOT);
  }

  /** End to end: in the service of validated entries, a call of a routine finds a policy exactly when an entry names
      its schema and, up to case, it; and then that entry's effect and definer switch are the ones that apply. */
  lemma CallFindsItsEntry(fs: seq<FunctionAllow>, functionWrite: bool, readOnly: bool, lower: Name -> Name,
                          policies: map<Name, FunctionPolicy>, schema: Name, name: Name)
    requires EntriesValid(fs, functionWrite, readOnly, lower) && Indexes(policies, PoliciesOf(fs), lower)
    requires NUL !in schema
    ensures Key(schema, name, lower) in policies <==>
            exists i, routine: Name ::
              0 <= i < |fs| && IsFor(fs[i], schema, routine) && lower(routine) == lower(name)
    ensures forall i, routine: Name ::
              0 <= i < |fs| && IsFor(fs[i], schema, routine) && lower(routine) == lower(name) ==>
                && Key(schema, name, lower) in policies
                && policies[Key(schema, name, lower)]
                   == FunctionPolicy(schema, routine, fs[i].effect, fs[i].allowDefiner)
  {
    hide ValidIdentifier, Split, Cut, Key;
    var ps := PoliciesOf(fs);
    forall i | 0 <= i < |fs|
      ensures NUL !in ps[i].schema && fs[i].name == ps[i].schema + [0x2E] + ps[i].name
      ensures KeyOf(ps[i], lower) == Key(schema, name, lower) <==>
              ps[i].schema == schema && lower(ps[i].name) == lower(name)
      ensures forall routine :: IsFor(fs[i], schema, routine) ==> ps[i].schema == schema && ps[i].name == routine
    {
      EntryParts(fs[i]);
      KeyIsPair(ps[i].schema, ps[i].name, schema, name, lower);
      forall routine | IsFor(fs[i], schema, routine)
        ensures ps[i].schema == schema && ps[i].name == routine
      {
        OneDot(fs[i], schema, routine);
      }
    }
  }

  /** A call finds a policy exactly when some configured routine has its schema and, up to case, its name. */
  lemma LookupFindsConfigured(
    policies: map<Name, FunctionPolicy>, ps: seq<FunctionPolicy>, schema: Name, name: Name, lower: Name -> Name)
    requires Indexes(policies, ps, lower) && NUL !in schema
    requires forall i :: 0 <= i < |ps| ==> NUL !in ps[i].schema
    ensures Key(schema, name, lower) in policies <==>
            exists i :: 0 <= i < |ps| && ps[i].schema == schema && lower(ps[i].name) == lower(name)
    ensures Key(schema, name, lower) in policies ==>
              var p := policies[Key(schema, name, lower)];
              p in ps && p.schema == schema && lower(p.name) == lower(name)
  {
    var key := Key(schema, name, lower);
    forall i | 0 <= i < |ps|
      ensures KeyOf(ps[i], lower) == key <==> ps[i].schema == schema && lower(ps[i].name) == lower(name)
    {
      KeyIsPair(ps[i].schema, ps[i].name, schema, name, lower);
    }
  }
}
