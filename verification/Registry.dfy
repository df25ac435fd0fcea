/** The registry of data sources: opened all or nothing, each pool closed exactly once. */
module Registry {
  import opened Utf8
  import opened Config
  import opened Pools

  class Registry {
    var sources: map<Name, Source>
    var names: seq<Name>
    ghost var owned: set<Pool>

    constructor ()
      ensures Valid() && names == [] && sources == map[] && owned == {}
    {
      sources := map[];
      names := [];
      owned := {};
    }

    /** Every name leads to its own source, sources share no pool, together they own all pools, and each has closed its
        pools once if it is closed and not at all otherwise. */
    ghost predicate Valid()
      reads this, sources.Values, owned
    {
      && (forall n :: n in sources <==> n in names)
      && (forall n :: n in sources ==> sources[n].Pools() <= owned && sources[n].Intact())
      && (forall n, m :: n in sources && m in sources && n != m ==>
            sources[n] != sources[m] && sources[n].Pools() !! sources[m].Pools())
      && (forall p :: p in owned ==> exists n :: n in sources && p in sources[n].Pools())
    }

    ghost predicate AllOpen()
      reads this, sources.Values
    {
      forall n :: n in sources ==> !sources[n].closed
    }

    /** Any number of calls: afterwards every pool this registry owns has been closed exactly once. */
    method Close()
      requires Valid()
      modifies sources.Values, owned
      ensures Valid()
      ensures forall n :: n in sources ==> sources[n].closed
      ensures forall p :: p in owned ==> p.closes == 1
    {
      CloseAll();
      ClosedPoolsClosedOnce();
    }

    lemma ClosedPoolsClosedOnce()
      requires Valid() && forall n :: n in sources ==> sources[n].closed
      ensures forall p :: p in owned ==> p.closes == 1
    {
    }

    lemma OpenPoolsUntouched()
      requires Valid() && AllOpen()
      ensures forall p :: p in owned ==> p.closes == 0
    {
    }

    lemma NamesAreKeys(i: nat)
      requires Valid() && i < |names|
      ensures names[i] in sources
    {
    }

    lemma NamesAreKeysAll()
      requires Valid()
      ensures forall n :: n in names ==> n in sources
    {
    }

    lemma KeysAreNames()
      requires Valid()
      ensures forall n :: n in sources ==> n in names
    {
    }

    method CloseAll()
      requires Valid()
      modifies sources.Values, owned
      ensures Valid()
      ensures forall n :: n in sources ==> sources[n].closed
    {
      hide Valid, Source.Intact, Source.Pools;
      for i := 0 to |names|
        invariant Valid()
        invariant forall j :: 0 <= j < i ==> names[j] in sources && sources[names[j]].closed
      {
        NamesAreKeys(i);
        CloseOne(names[i]);
      }
      KeysAreNames();
    }

    method CloseOne(name: Name)
      requires Valid() && name in sources
      modifies sources.Values, owned
      ensures Valid() && sources[name].closed
      ensures forall n :: n in sources && old(sources[n].closed) ==> sources[n].closed
    {
      hide Source.Pools, Source.Intact;
      var s := sources[name];
      s.Close();
      forall n | n in sources
        ensures sources[n].Pools() == old(sources[n].Pools()) && sources[n].Intact()
      {
        if n != name {
          assert sources[n] != s && sources[n].Pools() !! s.Pools();
        }
      }
    }

    /** Registering a freshly opened source. */
    method Add(s: Source, ghost mine: set<Pool>)
      requires Valid() && s.name !in names && s.Intact() && !s.closed
      requires s !in sources.Values && s.Pools() == mine && mine !! owned
      modifies this
      ensures Valid() && owned == old(owned) + mine
      ensures sources == old(sources)[s.name := s] && names == old(names) + [s.name]
      ensures old(AllOpen()) ==> AllOpen()
    {
      hide Source.Intact, Source.Pools;
      sources := sources[s.name := s];
      names := names + [s.name];
      owned := owned + mine;
      forall p | p in owned
        ensures exists n :: n in sources && p in sources[n].Pools()
      {
        if p in mine {
          assert s.name in sources && p in sources[s.name].Pools();
        } else {
          var n :| n in old(sources) && p in old(sources[n].Pools());
          assert n in sources && sources[n] == old(sources[n]);
        }
      }
    }
  }

  /** The registered name of every source is its configured one, and it is wired as its configuration says. */
  ghost predicate Registered(sources: map<Name, Source>, ds: seq<Datasource>, server: Server, lower: Name -> Name)
    reads sources.Values
  {
    && (forall n :: n in sources <==> exists i :: 0 <= i < |ds| && ds[i].name == n)
    && (forall i :: 0 <= i < |ds| ==>
          && ds[i].name in sources && sources[ds[i].name].name == ds[i].name
          && sources[ds[i].name].Wired(server, ds[i], lower))
  }

  /**
    * `OpenRegistry` on any configuration and for any plan of failures. It fails exactly when the configuration is
    * invalid or a step fails; a failed opening has closed every pool it opened exactly once; a successful one owns all
    * of them, open, spread over sources that share none.
    */
  method OpenRegistry(env: Environment, config: ServerConfig, lower: Name -> Name) returns (r: Registry?)
    modifies env
    ensures r != null <==> ConfigValid(config, lower) && !env.FailedBetween(old(env.step), env.step)
    ensures r == null ==> forall p :: p in env.allPools - old(env.allPools) ==> p.closes == 1
    ensures r != null ==>
              && fresh(r) && r.Valid() && r.AllOpen() && r.owned == env.allPools - old(env.allPools)
              && (forall p :: p in r.owned ==> p.closes == 0)
              && Registered(r.sources, config.datasources, config.server, lower)
  {
    hide DatasourceValid;
    var valid := Validate(config, lower);
    if !valid {
      return null;
    }
    r := OpenSources(env, config, lower);
  }

  method OpenSources(env: Environment, config: ServerConfig, lower: Name -> Name) returns (r: Registry?)
    requires ConfigValid(config, lower)
    modifies env
    ensures r != null <==> !env.FailedBetween(old(env.step), env.step)
    ensures r == null ==> forall p :: p in env.allPools - old(env.allPools) ==> p.closes == 1
    ensures r != null ==>
              && fresh(r) && r.Valid() && r.AllOpen() && r.owned == env.allPools - old(env.allPools)
              && (forall p :: p in r.owned ==> p.closes == 0)
              && Registered(r.sources, config.datasources, config.server, lower)
  {
    hide DatasourceValid, ServerValid, Registry.Valid, Registry.AllOpen, Registered, Source.Intact, Source.Pools;
    hide Source.Wired;
    var registry := NewRegistry(config.server, lower);
    var ds := config.datasources;
    for i := 0 to |ds|
      invariant fresh(registry) && fresh(registry.sources.Values) && fresh(registry.owned)
      invariant InProgress(registry, config, i, lower)
      invariant env.allPools == old(env.allPools) + registry.owned && old(env.allPools) !! registry.owned
      invariant env.step >= old(env.step) && !env.FailedBetween(old(env.step), env.step)
    {
      var ok := OpenNext(env, registry, config, i, lower);
      if !ok {
        registry.Close();
        return null;
      }
    }
    assert ds[..|ds|] == ds;
    registry.OpenPoolsUntouched();
    return registry;
  }

  /** The registry after the first `i` sources. */
  ghost predicate InProgress(r: Registry, config: ServerConfig, i: nat, lower: Name -> Name)
    requires i <= |config.datasources|
    reads r, r.sources.Values, r.owned
  {
    && r.Valid() && r.AllOpen()
    && r.sources.Keys == (set j | 0 <= j < i :: config.datasources[j].name)
    && Registered(r.sources, config.datasources[..i], config.server, lower)
  }

  method OpenNext(env: Environment, r: Registry, config: ServerConfig, i: nat, lower: Name -> Name) returns (ok: bool)
    requires ConfigValid(config, lower) && i < |config.datasources| && InProgress(r, config, i, lower)
    requires r.owned <= env.allPools
    modifies env, r
    ensures env.step >= old(env.step) && (ok <==> !env.FailedBetween(old(env.step), env.step))
    ensures env.allPools >= old(env.allPools) && fresh(env.allPools - old(env.allPools))
    ensures ok ==> InProgress(r, config, i + 1, lower)
    ensures ok ==> r.owned == old(r.owned) + (env.allPools - old(env.allPools))
    ensures ok ==> fresh(r.sources.Values - old(r.sources.Values))
    ensures !ok ==> r.Valid() && r.owned == old(r.owned) && r.sources == old(r.sources)
    ensures !ok ==> forall p :: p in env.allPools - old(env.allPools) ==> p.closes == 1
  {
    hide DatasourceValid, ServerValid, Registry.Valid, Registry.AllOpen, Registered, Source.Intact, Source.Pools;
    hide Source.Wired;
    ghost var before := env.allPools;
    ghost var registered := r.sources;
    var source := OpenSource(env, config.server, config.datasources[i], lower);
    if source == null {
      return false;
    }
    r.KeysAreNames();
    r.NamesAreKeysAll();
    r.Add(source, env.allPools - before);
    RegisterOneMore(registered, config.datasources, i, config.server, lower, source);
    return true;
  }

  method NewRegistry(server: Server, lower: Name -> Name) returns (r: Registry)
    ensures fresh(r) && r.Valid() && r.AllOpen() && r.names == [] && r.sources == map[] && r.owned == {}
    ensures Registered(r.sources, [], server, lower)
  {
    r := new Registry();
  }

  lemma RegisterOneMore(
    sources: map<Name, Source>, ds: seq<Datasource>, i: nat, server: Server, lower: Name -> Name, s: Source)
    requires i < |ds| && Registered(sources, ds[..i], server, lower) && ds[i].name !in sources
    requires s.name == ds[i].name && s.Wired(server, ds[i], lower)
    ensures Registered(sources[s.name := s], ds[..i + 1], server, lower)
  {
    hide Source.Wired;
    var more := ds[..i + 1];
    assert more == ds[..i] + [ds[i]];
    forall j | 0 <= j < i
      ensures more[j].name in sources && more[j].name != s.name
    {
      assert ds[..i][j] == more[j];
    }
    NamesOneMore(sources.Keys, ds[..i], ds[i], more);
  }

  lemma NamesOneMore(names: set<Name>, ds: seq<Datasource>, d: Datasource, more: seq<Datasource>)
    requires more == ds + [d] && forall n :: n in names <==> exists j :: 0 <= j < |ds| && ds[j].name == n
    ensures forall n :: n in names + {d.name} <==> exists j :: 0 <= j < |more| && more[j].name == n
  {
    forall n | n in names + {d.name}
      ensures exists j :: 0 <= j < |more| && more[j].name == n
    {
      if n == d.name {
        assert more[|ds|].name == n;
      } else {
        var j :| 0 <= j < |ds| && ds[j].name == n;
        assert more[j].name == n;
      }
    }
    forall j | 0 <= j < |ds|
      ensures more[j].name in names
    {
      assert more[j] == ds[j];
    }
  }

  /////////////////////////////////////////////// why validation must insist on unique names

  /** The map after registering sources one after the other, whatever their names. */
  function Registrations(all: seq<Source>): map<Name, Source> {
    if all == [] then map[]
    else Registrations(all[..|all| - 1])[all[|all| - 1].name := all[|all| - 1]]
  }

  /** A later source has the name of the `i`-th. */
  ghost predicate Overwritten(all: seq<Source>, i: nat) {
    exists j :: i < j < |all| && all[j].name == all[i].name
  }

  /** The pool belongs to a source in the map: only such pools can be used, and closed, through a registry. */
  ghost predicate Reached(sources: map<Name, Source>, p: Pool)
    reads sources.Values
  {
    exists n :: n in sources && p in sources[n].Pools()
  }

  ghost predicate ShareNoPool(all: seq<Source>)
    reads all
  {
    forall i, j :: 0 <= i < j < |all| ==> all[i].Pools() !! all[j].Pools()
  }

  /** The name leads to a source of that name that no later one replaced. */
  ghost predicate LeadsToLast(all: seq<Source>, sources: map<Name, Source>, n: Name)
    requires n in sources
  {
    exists k :: 0 <= k < |all| && all[k].name == n && !Overwritten(all, k) && sources[n] == all[k]
  }

  lemma OverwrittenOneMore(all: seq<Source>, s: Source, k: nat)
    requires k < |all|
    ensures Overwritten(all + [s], k) <==> Overwritten(all, k) || s.name == all[k].name
  {
    var more := all + [s];
    if Overwritten(all, k) {
      var j :| k < j < |all| && all[j].name == all[k].name;
      assert more[j].name == more[k].name;
    }
    if s.name == all[k].name {
      assert more[|all|].name == more[k].name;
    }
  }

  lemma {:induction false} LastRegistrationWins(all: seq<Source>)
    ensures forall n :: n in Registrations(all) ==> LeadsToLast(all, Registrations(all), n)
    ensures forall k :: 0 <= k < |all| && !Overwritten(all, k) ==>
                          all[k].name in Registrations(all) && Registrations(all)[all[k].name] == all[k]
  {
    hide Overwritten, LeadsToLast;
    if all != [] {
      var front, s := all[..|all| - 1], all[|all| - 1];
      assert all == front + [s];
      LastRegistrationWins(front);
      forall k | 0 <= k < |front|
        ensures Overwritten(all, k) <==> Overwritten(front, k) || s.name == front[k].name
      {
        OverwrittenOneMore(front, s, k);
      }
      forall n | n in Registrations(all)
        ensures LeadsToLast(all, Registrations(all), n)
      {
        if n == s.name {
          LastLeadsToItself(all, Registrations(all));
        } else {
          LeadsOn(front, s, Registrations(front), Registrations(all), n);
        }
      }
    }
  }

  lemma LastLeadsToItself(all: seq<Source>, sources: map<Name, Source>)
    requires all != [] && var s := all[|all| - 1]; s.name in sources && sources[s.name] == s
    ensures LeadsToLast(all, sources, all[|all| - 1].name)
  {
    assert !Overwritten(all, |all| - 1);
  }

  lemma LeadsOn(front: seq<Source>, s: Source, before: map<Name, Source>, after: map<Name, Source>, n: Name)
    requires n in before && n in after && after[n] == before[n] && n != s.name && LeadsToLast(front, before, n)
    ensures LeadsToLast(front + [s], after, n)
  {
    hide Overwritten;
    var k :| 0 <= k < |front| && front[k].name == n && !Overwritten(front, k) && before[n] == front[k];
    OverwrittenOneMore(front, s, k);
    assert (front + [s])[k] == front[k];
  }

  /** An opened pool is lost exactly when a later source takes the name of its own. */
  lemma LostExactlyIfOverwritten(all: seq<Source>, i: nat, p: Pool)
    requires ShareNoPool(all) && i < |all| && p in all[i].Pools()
    ensures !Reached(Registrations(all), p) <==> Overwritten(all, i)
  {
    hide Overwritten, Source.Pools;
    LastRegistrationWins(all);
    if Reached(Registrations(all), p) {
      var n :| n in Registrations(all) && p in Registrations(all)[n].Pools();
      var k :| 0 <= k < |all| && all[k].name == n && !Overwritten(all, k)
               && Registrations(all)[n] == all[k];
      assert k == i;
    }
  }

  /** Closing the registry closes the pools of the sources that kept their names, and leaves the others as they are. */
  method CloseWhatIsReached(r: Registry, all: seq<Source>, i: nat, p: Pool)
    requires r.Valid() && r.sources == Registrations(all) && ShareNoPool(all)
    requires i < |all| && p in all[i].Pools()
    modifies r.sources.Values, r.owned
    ensures p.closes == if Overwritten(all, i) then old(p.closes) else 1
  {
    hide Source.Pools, Source.Intact, Overwritten;
    LostExactlyIfOverwritten(all, i, p);
    assert p in r.owned <==> Reached(r.sources, p);
    r.Close();
  }

  /** So every opened pool can be reached, and closed, if and only if the names are distinct. */
  lemma AllReachedIffDistinct(all: seq<Source>)
    requires ShareNoPool(all) && forall i :: 0 <= i < |all| ==> all[i].Pools() != {}
    ensures (forall i, p :: 0 <= i < |all| && p in all[i].Pools() ==> Reached(Registrations(all), p)) <==>
            forall i, j :: 0 <= i < j < |all| ==> all[i].name != all[j].name
  {
    hide Source.Pools, Reached;
    if i, j :| 0 <= i < j < |all| && all[i].name == all[j].name {
      var p :| p in all[i].Pools();
      LostExactlyIfOverwritten(all, i, p);
    } else {
      forall i, p | 0 <= i < |all| && p in all[i].Pools()
        ensures Reached(Registrations(all), p)
      {
        LostExactlyIfOverwritten(all, i, p);
      }
    }
  }
}
