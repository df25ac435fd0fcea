/** Connection pools, one data source that owns up to three of them, and opening it step by step with any step able to
    fail. */
module Pools {
  import opened Utf8
  import opened Functions
  import opened Config

  class Pool {
    var closes: nat

    constructor ()
      ensures closes == 0
    {
      closes := 0;
    }

    method Close()
      modifies this
      ensures closes == old(closes) + 1
    {
      closes := closes + 1;
    }
  }

  /** What lies outside: every opened pool, ping or discovery query is a step, and a plan says which steps fail. */
  class Environment {
    const fails: nat -> bool
    var step: nat
    ghost var allPools: set<Pool>

    constructor (plan: nat -> bool)
      ensures fails == plan && step == 0 && allPools == {}
    {
      fails := plan;
      step := 0;
      allPools := {};
    }

    /** Some step between two points in time failed. */
    ghost predicate FailedBetween(from: nat, to: nat) {
      exists k: nat :: from <= k < to && fails(k)
    }

    method Discover() returns (ok: bool)
      modifies this
      ensures step == old(step) + 1 && allPools == old(allPools) && (ok <==> !fails(old(step)))
    {
      ok := !fails(step);
      step := step + 1;
    }

    method OpenPool() returns (p: Pool?)
      modifies this
      ensures step == old(step) + 1 && (p != null <==> !fails(old(step)))
      ensures p != null ==> fresh(p) && p.closes == 0 && allPools == old(allPools) + {p}
      ensures p == null ==> allPools == old(allPools)
    {
      p := null;
      if !fails(step) {
        p := new Pool();
        allPools := allPools + {p};
      }
      step := step + 1;
    }
  }

  /** Opening a source takes the read pool, the server's version and a policy for it, the write pool if it may write,
      and for monitoring the capabilities of the server in two steps, on a pool of its own if it has one. */
  ghost function OpeningSteps(server: Server, d: Datasource): nat {
    3 + (if MayWrite(server, d) then 1 else 0)
    + if !d.monitoring then 0 else if d.monitorConfigured then 3 else 2
  }

  class Source {
    const name: Name
    const readOnly: bool
    var readDb: Pool?
    var writeDb: Pool?
    var monitorDb: Pool?
    var closed: bool
    var hasCommand: bool
    var hasAdmin: bool
    var hasMonitor: bool
    var functionWriter: Pool?
    var policies: map<Name, FunctionPolicy>

    constructor (name: Name, readOnly: bool)
      ensures this.name == name && this.readOnly == readOnly && !closed
      ensures readDb == null && writeDb == null && monitorDb == null && functionWriter == null
      ensures !hasCommand && !hasAdmin && !hasMonitor
    {
      this.name := name;
      this.readOnly := readOnly;
      readDb, writeDb, monitorDb, functionWriter := null, null, null, null;
      closed, hasCommand, hasAdmin, hasMonitor := false, false, false, false;
      policies := map[];
    }

    /** The distinct pools of this source: the monitor may share the read pool. */
    ghost function Pools(): set<Pool>
      reads this
    {
      (if readDb != null then {readDb} else {}) + (if writeDb != null then {writeDb} else {})
      + (if monitorDb != null then {monitorDb} else {})
    }

    /** Closed sources have closed each of their pools once, open ones none. */
    ghost predicate Intact()
      reads this, Pools()
    {
      forall p :: p in Pools() ==> p.closes == if closed then 1 else 0
    }

    /** Only the first call closes anything, and it closes each distinct pool once. */
    method Close()
      requires Intact()
      modifies this`closed, Pools()
      ensures closed && Intact() && Pools() == old(Pools())
    {
      if closed {
        return;
      }
      closed := true;
      var seen: set<Pool> := {};
      var all := [monitorDb, writeDb, readDb];
      for i := 0 to 3
        invariant closed
        invariant forall p :: p in seen <==> p in Pools() && p in all[..i]
        invariant forall p :: p in Pools() ==> p.closes == if p in seen then 1 else 0
      {
        var db := all[i];
        assert all[..i + 1] == all[..i] + [db];
        if db != null && db !in seen {
          seen := seen + {db};
          db.Close();
        }
      }
      assert all[..3] == all;
    }

    /** Opening the read pool, discovering the version, wiring the services; each role's pool on its own credentials. */
    method Initialize(env: Environment, server: Server, d: Datasource, lower: Name -> Name) returns (ok: bool)
      requires ServerValid(server) && DatasourceValid(d, server, lower)
      requires readOnly == EffectiveReadOnly(server, d) && !closed
      requires readDb == null && writeDb == null && monitorDb == null && functionWriter == null
      requires !hasCommand && !hasAdmin && !hasMonitor
      modifies this, env
      ensures !closed && env.allPools == old(env.allPools) + Pools() && fresh(Pools())
      ensures forall p :: p in Pools() ==> p.closes == 0
      ensures env.step > old(env.step) && (ok <==> !env.FailedBetween(old(env.step), env.step))
      ensures ok ==> env.step == old(env.step) + OpeningSteps(server, d)
      ensures ok ==> Wired(server, d, lower)
    {
      hide DatasourceValid, ServerValid, Indexes, PoliciesOf;
      ok := OpenReader(env);
      if !ok {
        return;
      }
      ok := OpenWriter(env, server);
      if !ok {
        return;
      }
      OpenFunctions(server, d, lower);
      ok := OpenMonitor(env, d);
    }

    method OpenReader(env: Environment) returns (ok: bool)
      requires readDb == null && writeDb == null && monitorDb == null
      modifies this`readDb, env
      ensures env.allPools == old(env.allPools) + Pools() && fresh(Pools())
      ensures forall p :: p in Pools() ==> p.closes == 0
      ensures env.step > old(env.step) && (ok <==> !env.FailedBetween(old(env.step), env.step))
      ensures ok ==> readDb != null && env.step == old(env.step) + 3
    {
      readDb := env.OpenPool();
      if readDb == null {
        return false;
      }
      ok := env.Discover();
      if !ok {
        return;
      }
      ok := env.Discover();
    }

    method OpenWriter(env: Environment, server: Server) returns (ok: bool)
      requires writeDb == null && monitorDb == null && !hasCommand && !hasAdmin
      modifies this`writeDb, this`hasCommand, this`hasAdmin, env
      ensures Pools() >= old(Pools()) && fresh(Pools() - old(Pools()))
      ensures env.allPools == old(env.allPools) + (Pools() - old(Pools()))
      ensures forall p :: p in Pools() - old(Pools()) ==> p.closes == 0
      ensures env.step >= old(env.step) && (ok <==> !env.FailedBetween(old(env.step), env.step))
      ensures ok ==> (writeDb != null <==> !readOnly && server.features.AnyWrite())
      ensures ok ==> env.step == old(env.step) + if writeDb != null then 1 else 0
      ensures ok ==> (hasCommand <==> !readOnly && (server.features.dml || server.features.ddl))
      ensures ok ==> (hasAdmin <==> !readOnly && server.features.admin)
    {
      ok := true;
      if !readOnly && server.features.AnyWrite() {
        writeDb := env.OpenPool();
        if writeDb == null {
          return false;
        }
        if server.features.dml || server.features.ddl {
          hasCommand := true;
        }
        if server.features.admin {
          hasAdmin := true;
        }
      }
    }

    /** Validated entries always make a function service; its writer is the write pool, if functions may write. */
    method OpenFunctions(server: Server, d: Datasource, lower: Name -> Name)
      requires DatasourceValid(d, server, lower) && readOnly == EffectiveReadOnly(server, d)
      requires writeDb != null <==> !readOnly && server.features.AnyWrite()
      modifies this`functionWriter, this`policies
      ensures functionWriter == if readOnly || !server.features.functionWrite then null else writeDb
      ensures Indexes(policies, PoliciesOf(d.functions), lower)
    {
      hide EntriesValid, SchemaListsValid, ValidSourceName, Indexes, PoliciesOf;
      var writer := if readOnly || !server.features.functionWrite then null else writeDb;
      functionWriter := writer;
      ValidatedPoliciesAreUsable(d.functions, server.features.functionWrite, readOnly, writer != null, lower);
      var service := NewFunctionService(PoliciesOf(d.functions), writer != null, lower);
      policies := service.value;
    }

    method OpenMonitor(env: Environment, d: Datasource) returns (ok: bool)
      requires readDb != null && monitorDb == null && !hasMonitor
      modifies this`monitorDb, this`hasMonitor, env
      ensures Pools() >= old(Pools()) && fresh(Pools() - old(Pools()))
      ensures env.allPools == old(env.allPools) + (Pools() - old(Pools()))
      ensures forall p :: p in Pools() - old(Pools()) ==> p.closes == 0
      ensures env.step >= old(env.step) && (ok <==> !env.FailedBetween(old(env.step), env.step))
      ensures ok ==> (hasMonitor <==> d.monitoring) && (monitorDb != null <==> d.monitoring)
      ensures ok && d.monitoring ==> (monitorDb == readDb <==> !d.monitorConfigured)
      ensures ok ==> env.step == old(env.step) + if !d.monitoring then 0 else if d.monitorConfigured then 3 else 2
    {
      ok := true;
      if d.monitoring {
        monitorDb := readDb;
        if d.monitorConfigured {
          monitorDb := env.OpenPool();
          if monitorDb == null {
            return false;
          }
        }
        ok := env.Discover();
        if !ok {
          return;
        }
        ok := env.Discover();
        if !ok {
          return;
        }
        hasMonitor := true;
      }
    }

    /** The services that a configuration entitles a source to, and no others. */
    ghost predicate Wired(server: Server, d: Datasource, lower: Name -> Name)
      reads this
    {
      && readDb != null
      && readOnly == (server.readOnly || d.readOnly)
      && (writeDb != null <==> MayWrite(server, d))
      && (hasCommand <==> !server.readOnly && !d.readOnly && (server.features.dml || server.features.ddl))
      && (hasAdmin <==> !server.readOnly && !d.readOnly && server.features.admin)
      && functionWriter
         == (if server.readOnly || d.readOnly || !server.features.functionWrite then null else writeDb)
      && (hasMonitor <==> d.monitoring) && (monitorDb != null <==> d.monitoring)
      && (d.monitoring ==> (monitorDb == readDb <==> !d.monitorConfigured))
      && Indexes(policies, PoliciesOf(d.functions), lower)
    }
  }

  lemma ReadOnlyPoliciesRead(server: Server, d: Datasource, lower: Name -> Name)
    requires DatasourceValid(d, server, lower)
    requires server.readOnly || d.readOnly || !server.features.functionWrite
    ensures forall policies: map<Name, FunctionPolicy> :: Indexes(policies, PoliciesOf(d.functions), lower) ==>
              forall k :: k in policies ==> policies[k].effect == Read
  {
    var ps := PoliciesOf(d.functions);
    assert forall i :: 0 <= i < |ps| ==> ps[i].effect == d.functions[i].effect == Read;
  }

  /** `openSource`: a source that cannot be completed leaves none of its pools open. */
  method OpenSource(env: Environment, server: Server, d: Datasource, lower: Name -> Name) returns (s: Source?)
    requires ServerValid(server) && DatasourceValid(d, server, lower)
    modifies env
    ensures env.allPools >= old(env.allPools) && fresh(env.allPools - old(env.allPools)) && env.step > old(env.step)
    ensures s == null <==> env.FailedBetween(old(env.step), env.step)
    ensures s == null ==> forall p :: p in env.allPools - old(env.allPools) ==> p.closes == 1
    ensures s != null ==>
              && fresh(s) && s.name == d.name && !s.closed && s.Intact()
              && s.Pools() == env.allPools - old(env.allPools)
              && s.Wired(server, d, lower) && env.step == old(env.step) + OpeningSteps(server, d)
    ensures s != null ==>
              (s.writeDb != null <==>
               !server.readOnly && !d.readOnly && (server.features.dml || server.features.ddl ||
                                                   server.features.admin || server.features.functionWrite))
    ensures s != null && (server.readOnly || d.readOnly) ==>
              && s.readOnly && s.writeDb == null && !s.hasCommand && !s.hasAdmin && s.functionWriter == null
              && forall k :: k in s.policies ==> s.policies[k].effect == Read
    ensures s != null && !server.features.functionWrite ==>
              s.functionWriter == null && forall k :: k in s.policies ==> s.policies[k].effect == Read
  {
    hide DatasourceValid, EntriesValid;
    if server.readOnly || d.readOnly || !server.features.functionWrite {
      ReadOnlyPoliciesRead(server, d, lower);
    }
    var source := new Source(d.name, EffectiveReadOnly(server, d));
    var ok := source.Initialize(env, server, d, lower);
    if !ok {
      source.Close();
      return null;
    }
    return source;
  }
}
