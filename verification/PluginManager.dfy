/** Loading plugins with their dependencies, and shutting them down (src/plugin/plugin_manager.cpp).
    Calls into plugin libraries are answered by a parameter; type ids are the plugin names. */
module PluginManager {
  import opened Digraph

  datatype SemVer = SemVer(major: nat, minor: nat, patch: nat)

  datatype VersionRange = VersionRange(minInclusive: SemVer, maxExclusive: SemVer)

  datatype Dependency = Dependency(plugin: string, required: VersionRange)

  datatype Manifest = Manifest(name: string, capabilities: seq<string>, dependencies: seq<Dependency>, licenseToken: string)

  /** What a library call answers; `version` is what a created instance reports. */
  datatype Answer = Answer(ok: bool, version: SemVer)

  datatype Error =
    | NotFound(name: string)
    | CircularDependency(name: string)
    | VersionIncompatible(dependency: Dependency)
    | CapabilityUnsupported(name: string, capability: string)
    | LicenseInvalid(name: string)
    | ConstructionFailed(name: string)
    | AlreadyRegistered(name: string)
    | LifecycleFailed(name: string, call: nat)

  datatype Result = Ok | Err(error: Error)

  // ---- Versions ----

  predicate InRange(range: VersionRange, v: SemVer) {
    !(|| v.major < range.minInclusive.major
      || (v.major == range.minInclusive.major && v.minor < range.minInclusive.minor)
      || v.major > range.maxExclusive.major
      || (v.major == range.maxExclusive.major && v.minor >= range.maxExclusive.minor))
  }

  ghost predicate Precedes(a: SemVer, b: SemVer) {
    a.major < b.major || (a.major == b.major && a.minor < b.minor)
  }

  /** Half-open, by major and then minor number; patch numbers are not looked at. */
  lemma RangeIsHalfOpen(range: VersionRange, v: SemVer)
    ensures InRange(range, v) <==> !Precedes(v, range.minInclusive) && Precedes(v, range.maxExclusive)
    ensures forall patch :: InRange(range, v) == InRange(range, v.(patch := patch))
  {
  }

  // ---- The dependency graph and what is loaded ----

  ghost function Edges(manifests: map<string, Manifest>): set<(string, string)> {
    set a, d | a in manifests && d in manifests[a].dependencies :: (a, d.plugin)
  }

  ghost predicate DependenciesMet(manifests: map<string, Manifest>, registry: map<string, SemVer>, n: string) {
    && n in manifests
    && forall d :: d in manifests[n].dependencies ==> Met(d, registry)
  }

  ghost predicate Met(d: Dependency, registry: map<string, SemVer>) {
    d.plugin in registry && InRange(d.required, registry[d.plugin])
  }

  /** All listed dependencies are registered in range. */
  ghost predicate AllMet(dependencies: seq<Dependency>, registry: map<string, SemVer>) {
    dependencies == [] || (Met(dependencies[0], registry) && AllMet(dependencies[1..], registry))
  }

  lemma {:induction false} AllMetMeans(dependencies: seq<Dependency>, registry: map<string, SemVer>)
    requires AllMet(dependencies, registry)
    ensures forall d :: d in dependencies ==> Met(d, registry)
  {
    if dependencies != [] {
      AllMetMeans(dependencies[1..], registry);
      assert dependencies == [dependencies[0]] + dependencies[1..];
    }
  }

  ghost predicate Admitted(manifests: map<string, Manifest>, known: set<string>, n: string) {
    && n in manifests
    && (forall c :: c in manifests[n].capabilities ==> c in known)
    && manifests[n].licenseToken != ""
  }

  /** Dependency d of the plugin at position i has been started before it, or is registered although its start failed. */
  ghost predicate ComesAfter(manifests: map<string, Manifest>, loadOrder: seq<string>, failed: set<string>, i: nat)
    requires i < |loadOrder|
  {
    && loadOrder[i] in manifests
    && forall d :: d in manifests[loadOrder[i]].dependencies ==> d.plugin in failed || d.plugin in loadOrder[..i]
  }

  ghost predicate Distinct(s: seq<string>) {
    forall i, j :: 0 <= i < j < |s| ==> s[i] != s[j]
  }

  /** Registered plugins are the loaded ones and those whose OnInitialize or OnStart failed. */
  ghost predicate Sound(manifests: map<string, Manifest>, known: set<string>, registry: map<string, SemVer>,
                        loadOrder: seq<string>, failed: set<string>)
  {
    && (forall n :: n in manifests ==> manifests[n].name == n)
    && Distinct(loadOrder)
    && (forall n :: n in registry <==> n in loadOrder || n in failed)
    && (forall n :: n in loadOrder ==> n !in failed)
    && (forall n :: n in registry ==> DependenciesMet(manifests, registry, n) && Admitted(manifests, known, n))
    && (forall i :: 0 <= i < |loadOrder| ==> ComesAfter(manifests, loadOrder, failed, i))
  }

  lemma Registering(manifests: map<string, Manifest>, known: set<string>, registry: map<string, SemVer>,
                    loadOrder: seq<string>, failed: set<string>, n: string, v: SemVer)
    requires Sound(manifests, known, registry, loadOrder, failed)
    requires n !in registry && DependenciesMet(manifests, registry, n) && Admitted(manifests, known, n)
    ensures Sound(manifests, known, registry[n := v], loadOrder, failed + {n})
    ensures Sound(manifests, known, registry[n := v], loadOrder + [n], failed)
  {
    var more := loadOrder + [n];
    forall m | m in registry[n := v]
      ensures DependenciesMet(manifests, registry[n := v], m) && Admitted(manifests, known, m)
    {
      assert m == n || m in registry;
    }
    forall i | 0 <= i < |more|
      ensures ComesAfter(manifests, more, failed, i)
    {
      if i < |loadOrder| {
        assert ComesAfter(manifests, loadOrder, failed, i);
        assert more[..i] == loadOrder[..i];
      } else {
        assert more[..i] == loadOrder;
      }
    }
    forall i | 0 <= i < |loadOrder|
      ensures ComesAfter(manifests, loadOrder, failed + {n}, i)
    {
      assert ComesAfter(manifests, loadOrder, failed, i);
    }
  }

  ghost predicate SomeCallFailed(world: nat -> Answer, from: nat, to: nat) {
    exists k :: from <= k < to && !world(k).ok
  }

  ghost predicate OwnsBadDependency(manifests: map<string, Manifest>, registry: map<string, SemVer>, root: string, d: Dependency) {
    && d.plugin in registry && !InRange(d.required, registry[d.plugin])
    && exists owner :: Reaches(Edges(manifests), root, owner) && owner in manifests && d in manifests[owner].dependencies
  }

  /** The reported error names a real fault among the plugins that root depends on; a name is never registered twice. */
  ghost predicate Explains(manifests: map<string, Manifest>, known: set<string>, registry: map<string, SemVer>,
                           world: nat -> Answer, from: nat, to: nat, root: string, error: Error)
  {
    match error
    case NotFound(n) => Reaches(Edges(manifests), root, n) && n !in manifests
    case CircularDependency(n) => Reaches(Edges(manifests), root, n) && OnCycle(Edges(manifests), n)
    case VersionIncompatible(d) => OwnsBadDependency(manifests, registry, root, d)
    case CapabilityUnsupported(n, c) =>
      Reaches(Edges(manifests), root, n) && n in manifests && c in manifests[n].capabilities && c !in known
    case LicenseInvalid(n) => Reaches(Edges(manifests), root, n) && n in manifests && manifests[n].licenseToken == ""
    case ConstructionFailed(n) => Reaches(Edges(manifests), root, n) && SomeCallFailed(world, from, to)
    case LifecycleFailed(n, _) => Reaches(Edges(manifests), root, n) && SomeCallFailed(world, from, to)
    case AlreadyRegistered(_) => false
  }

  /** A fault below a dependency is a fault below the plugin that depends on it. */
  lemma ExplainsAbove(manifests: map<string, Manifest>, known: set<string>, registry: map<string, SemVer>, world: nat -> Answer,
                      from: nat, earlier: nat, to: nat, root: string, child: string, error: Error)
    requires Explains(manifests, known, registry, world, from, to, child, error)
    requires (root, child) in Edges(manifests) && earlier <= from
    ensures Explains(manifests, known, registry, world, earlier, to, root, error)
  {
    var e := Edges(manifests);
    ReachesEdge(e, root, child);
    forall n | Reaches(e, child, n)
      ensures Reaches(e, root, n)
    {
      ReachesTrans(e, root, child, n);
    }
  }

  lemma ExplainsEarlier(manifests: map<string, Manifest>, known: set<string>, registry: map<string, SemVer>, world: nat -> Answer,
                        earlier: nat, from: nat, to: nat, root: string, error: Error)
    requires Explains(manifests, known, registry, world, from, to, root, error) && earlier <= from
    ensures Explains(manifests, known, registry, world, earlier, to, root, error)
  {
  }

  lemma OnStackIsCyclic(e: set<(string, string)>, stack: seq<string>, name: string)
    requires IsPath(e, stack + [name]) && name in stack
    ensures OnCycle(e, name)
  {
    var i :| 0 <= i < |stack| && stack[i] == name;
    RepeatIsCycle(e, stack + [name], i, |stack|);
  }

  datatype Stage = Rejected | Registered | Started

  /** How far loading one plugin gets: both library calls and both lifecycle calls have to succeed. */
  ghost function StageReached(manifests: map<string, Manifest>, known: set<string>, registry: map<string, SemVer>,
                              world: nat -> Answer, clock: nat, name: string): Stage
  {
    if !Admitted(manifests, known, name) || name in registry || !world(clock).ok || !world(clock + 1).ok then Rejected
    else if !world(clock + 2).ok || !world(clock + 3).ok then Registered
    else Started
  }

  class Manager {
    const manifests: map<string, Manifest>
    const world: nat -> Answer
    var known: set<string>
    var registry: map<string, SemVer>
    var libraries: set<string>
    var loadOrder: seq<string>
    var clock: nat
    /** Registered plugins whose OnInitialize or OnStart failed. */
    ghost var failed: set<string>
    /** The OnStop calls made so far, with their clock times. */
    ghost var stops: seq<(string, nat)>

    ghost predicate Valid()
      reads this`known, this`registry, this`loadOrder, this`failed
    {
      Sound(manifests, known, registry, loadOrder, failed)
    }

    constructor (manifests: map<string, Manifest>, world: nat -> Answer)
      requires forall n :: n in manifests ==> manifests[n].name == n
      ensures Valid() && this.manifests == manifests && this.world == world
      ensures registry == map[] && loadOrder == [] && failed == {} && known == {} && stops == [] && clock == 0
    {
      this.manifests := manifests;
      this.world := world;
      known, registry, libraries, loadOrder, clock := {}, map[], {}, [], 0;
      failed, stops := {}, [];
    }

    method RegisterKnownCapability(capability: string) returns (isNew: bool)
      requires Valid()
      modifies this`known
      ensures Valid() && isNew == (capability !in old(known)) && known == old(known) + {capability}
    {
      isNew := capability !in known;
      known := known + {capability};
    }

    /** One call into a plugin library. */
    method Call() returns (answer: Answer)
      modifies this`clock
      ensures answer == world(old(clock)) && clock == old(clock) + 1
    {
      answer := world(clock);
      clock := clock + 1;
    }

    method ValidateCapabilities(name: string, declared: seq<string>) returns (r: Result)
      ensures r.Ok? <==> forall c :: c in declared ==> c in known
      ensures r.Err? ==> exists c :: c in declared && c !in known && r.error == CapabilityUnsupported(name, c)
    {
      for i: nat := 0 to |declared|
        invariant forall j :: 0 <= j < i ==> declared[j] in known
      {
        if declared[i] !in known {
          return Err(CapabilityUnsupported(name, declared[i]));
        }
      }
      r := Ok;
    }

    /** The checks and library calls that come before registration. */
    method Construct(manifest: Manifest) returns (r: Result, version: SemVer)
      requires manifest.name in manifests && manifests[manifest.name] == manifest
      modifies this`libraries, this`clock
      ensures old(clock) <= clock <= old(clock) + 2
      ensures r.Ok? <==> Admitted(manifests, known, manifest.name) && world(old(clock)).ok && world(old(clock) + 1).ok
      ensures r.Ok? ==> clock == old(clock) + 2 && version == world(old(clock) + 1).version
      ensures r.Err? ==> !r.error.LifecycleFailed? && !r.error.AlreadyRegistered?
                         && Explains(manifests, known, registry, world, old(clock), clock, manifest.name, r.error)
    {
      version := SemVer(0, 0, 0);
      ReachesSelf(Edges(manifests), manifest.name);
      r := ValidateCapabilities(manifest.name, manifest.capabilities);
      if r.Err? {
        return;
      }
      if manifest.licenseToken == "" {
        return Err(LicenseInvalid(manifest.name)), version;
      }
      assert Admitted(manifests, known, manifest.name);
      var handle := Call();
      if !handle.ok {
        return Err(ConstructionFailed(manifest.name)), version;
      }
      libraries := libraries + {manifest.name};
      var created := Call();
      if !created.ok {
        return Err(ConstructionFailed(manifest.name)), version;
      }
      version := created.version;
    }

    /** Checks, opens, creates, registers, initialises and starts one plugin; registration is not undone when a later step fails. */
    method LoadSingle(manifest: Manifest) returns (r: Result)
      requires Valid() && manifest.name in manifests && manifests[manifest.name] == manifest
      requires manifest.name !in registry ==> DependenciesMet(manifests, registry, manifest.name)
      modifies this`registry, this`libraries, this`loadOrder, this`clock, this`failed
      ensures Valid() && old(clock) <= clock
      ensures match StageReached(manifests, known, old(registry), world, old(clock), manifest.name)
              case Rejected => r.Err? && !r.error.LifecycleFailed? && registry == old(registry) && loadOrder == old(loadOrder) && failed == old(failed)
              case Registered => r.Err? && r.error.LifecycleFailed? && r.error.name == manifest.name && registry == old(registry)[manifest.name := world(old(clock) + 1).version]
                                 && loadOrder == old(loadOrder) && failed == old(failed) + {manifest.name}
                                 && clock == old(clock) + (if world(old(clock) + 2).ok then 4 else 3)
              case Started => r.Ok? && registry == old(registry)[manifest.name := world(old(clock) + 1).version]
                              && loadOrder == old(loadOrder) + [manifest.name] && failed == old(failed)
      ensures r.Err? && r.error.AlreadyRegistered? ==> manifest.name in old(registry)
      ensures r.Err? && !r.error.AlreadyRegistered? ==>
                Explains(manifests, known, registry, world, old(clock), clock, manifest.name, r.error)
    {
      var version;
      ReachesSelf(Edges(manifests), manifest.name);
      r, version := Construct(manifest);
      if r.Err? {
        return;
      }
      if manifest.name in registry {
        return Err(AlreadyRegistered(manifest.name));
      }
      r := Enter(manifest.name, version);
    }

    /** Registers a created plugin and starts it; it stays registered when the start fails. */
    method Enter(name: string, version: SemVer) returns (r: Result)
      requires Valid() && name !in registry && DependenciesMet(manifests, registry, name) && Admitted(manifests, known, name)
      modifies this`registry, this`loadOrder, this`clock, this`failed
      ensures Valid() && registry == old(registry)[name := version]
      ensures clock == old(clock) + (if world(old(clock)).ok then 2 else 1)
      ensures if world(old(clock)).ok && world(old(clock) + 1).ok
              then r.Ok? && loadOrder == old(loadOrder) + [name] && failed == old(failed)
              else r == Err(LifecycleFailed(name, clock - 1)) && !world(clock - 1).ok
                   && loadOrder == old(loadOrder) && failed == old(failed) + {name}
    {
      Registering(manifests, known, registry, loadOrder, failed, name, version);
      registry := registry[name := version];
      var started := Start();
      if !started {
        failed := failed + {name};
        return Err(LifecycleFailed(name, clock - 1));
      }
      loadOrder := loadOrder + [name];
      r := Ok;
    }

    /** OnInitialize and, if it succeeds, OnStart. */
    method Start() returns (started: bool)
      modifies this`clock
      ensures started == (world(old(clock)).ok && world(old(clock) + 1).ok)
      ensures clock == old(clock) + (if world(old(clock)).ok then 2 else 1) && (!started ==> !world(clock - 1).ok)
    {
      var initialized := Call();
      if !initialized.ok {
        return false;
      }
      var answer := Call();
      started := answer.ok;
    }

    /** Everything that was visited is registered by now or still being resolved on the stack. */
    ghost predicate Tracks(visiting: set<string>, stack: seq<string>)
      reads this`registry
    {
      forall v :: v in visiting ==> v in registry || v in stack
    }

    /** What loading may change: more plugins, none of them visited before; failed is only the one plugin the result names. */
    twostate predicate Grows(visiting: set<string>, visited: set<string>, r: Result)
      reads this
    {
      clock >= old(clock) && Growth(old(registry), old(loadOrder), old(failed), registry, loadOrder, failed, visiting, visited, r)
    }

    method EnsureLoaded(name: string, visiting: set<string>, ghost stack: seq<string>) returns (r: Result, visited: set<string>)
      requires Valid() && Tracks(visiting, stack) && IsPath(Edges(manifests), stack + [name])
      modifies this`registry, this`libraries, this`loadOrder, this`clock, this`failed
      ensures Valid() && Grows(visiting, visited, r)
      ensures name in old(registry) ==> r.Ok? && registry == old(registry) && loadOrder == old(loadOrder)
      ensures r.Ok? ==> name in registry && Tracks(visited, stack)
      ensures r.Err? ==> Explains(manifests, known, registry, world, old(clock), clock, name, r.error)
      decreases |manifests.Keys - visiting|, 0
    {
      visited := visiting;
      ReachesSelf(Edges(manifests), name);
      if name in registry {
        return Ok, visited;
      }
      if name in visiting {
        OnStackIsCyclic(Edges(manifests), stack, name);
        return Err(CircularDependency(name)), visited;
      }
      visited := visited + {name};
      if name !in manifests {
        return Err(NotFound(name)), visited;
      }
      assert manifests.Keys - visited < manifests.Keys - visiting by {
        assert name in manifests.Keys - visiting && name !in manifests.Keys - visited;
      }
      SmallerSet(manifests.Keys - visited, manifests.Keys - visiting);
      r, visited := LoadResolved(name, visited, stack);
    }

    /** Resolves the dependencies of a plugin that has a manifest, and then loads it. */
    method LoadResolved(name: string, visiting: set<string>, ghost stack: seq<string>) returns (r: Result, visited: set<string>)
      requires Valid() && Tracks(visiting, stack + [name]) && IsPath(Edges(manifests), stack + [name])
      requires name in manifests && name in visiting && name !in registry
      modifies this`registry, this`libraries, this`loadOrder, this`clock, this`failed
      ensures Valid() && Grows(visiting - {name}, visited, r)
      ensures r.Ok? ==> name in registry && Tracks(visited, stack)
      ensures r.Err? ==> Explains(manifests, known, registry, world, old(clock), clock, name, r.error)
      decreases |manifests.Keys - visiting|, 2 + |manifests[name].dependencies|
    {
      r, visited := ResolveEach(name, manifests[name].dependencies, visiting, stack + [name]);
      if r.Ok? {
        AllMetMeans(manifests[name].dependencies, registry);
        ghost var middle := clock;
        r := LoadSingle(manifests[name]);
        if r.Err? {
          ExplainsEarlier(manifests, known, registry, world, old(clock), middle, clock, name, r.error);
        }
      }
    }

    /** Loads one dependency and checks its version. */
    method ResolveOne(owner: string, head: Dependency, visiting: set<string>, ghost stack: seq<string>) returns (r: Result, visited: set<string>)
      requires Valid() && Tracks(visiting, stack) && owner in manifests && head in manifests[owner].dependencies
      requires IsPath(Edges(manifests), stack) && stack[|stack| - 1] == owner
      modifies this`registry, this`libraries, this`loadOrder, this`clock, this`failed
      ensures Valid() && Grows(visiting, visited, r)
      ensures r.Ok? ==> head.plugin in registry && InRange(head.required, registry[head.plugin]) && Tracks(visited, stack)
      ensures r.Err? ==> Explains(manifests, known, registry, world, old(clock), clock, owner, r.error)
      decreases |manifests.Keys - visiting|, 1
    {
      ghost var e := Edges(manifests);
      assert (owner, head.plugin) in e;
      AppendStep(e, stack, head.plugin);
      r, visited := EnsureLoaded(head.plugin, visiting, stack);
      if r.Err? {
        ExplainsAbove(manifests, known, registry, world, old(clock), old(clock), clock, owner, head.plugin, r.error);
        return;
      }
      if !InRange(head.required, registry[head.plugin]) {
        ReachesSelf(e, owner);
        return Err(VersionIncompatible(head)), visited;
      }
    }

    /** Resolves these dependencies of `owner`, first one first. */
    method ResolveEach(owner: string, dependencies: seq<Dependency>, visiting: set<string>, ghost stack: seq<string>)
      returns (r: Result, visited: set<string>)
      requires Valid() && Tracks(visiting, stack) && owner in manifests
      requires forall d :: d in dependencies ==> d in manifests[owner].dependencies
      requires IsPath(Edges(manifests), stack) && stack[|stack| - 1] == owner
      modifies this`registry, this`libraries, this`loadOrder, this`clock, this`failed
      ensures Valid() && Grows(visiting, visited, r)
      ensures r.Ok? ==> AllMet(dependencies, registry) && Tracks(visited, stack)
      ensures r.Err? ==> Explains(manifests, known, registry, world, old(clock), clock, owner, r.error)
      decreases |manifests.Keys - visiting|, 1 + |dependencies|
    {
      r, visited := Ok, visiting;
      if dependencies != [] {
        r, visited := ResolveOne(owner, dependencies[0], visiting, stack);
        if r.Ok? {
          ghost var middle, between, registry1, loadOrder1, failed1 := clock, visited, registry, loadOrder, failed;
          ShrinkingSet(manifests.Keys, visiting, visited);
          r, visited := ResolveEach(owner, dependencies[1..], visited, stack);
          GrowthChain(old(registry), old(loadOrder), old(failed), registry1, loadOrder1, failed1, registry, loadOrder, failed,
                      visiting, between, visited, r);
          if r.Err? {
            ExplainsEarlier(manifests, known, registry, world, old(clock), middle, clock, owner, r.error);
          }
        }
      }
    }

    /** Loads a plugin with everything it depends on. */
    method Load(name: string) returns (r: Result)
      requires Valid()
      modifies this`registry, this`libraries, this`loadOrder, this`clock, this`failed
      ensures Valid() && old(loadOrder) <= loadOrder && old(clock) <= clock
      ensures failed == old(failed) + FailedBy(r)
      ensures forall n :: n in old(registry) ==> n in registry && registry[n] == old(registry[n])
      ensures r.Ok? ==> name in registry
      ensures r.Err? ==> Explains(manifests, known, registry, world, old(clock), clock, name, r.error)
      ensures name in old(registry) ==> r.Ok? && registry == old(registry) && loadOrder == old(loadOrder)
    {
      var visited;
      assert IsPath(Edges(manifests), [] + [name]);
      r, visited := EnsureLoaded(name, {}, []);
    }

    /** A sequence of loads, going on after errors as a caller may. The load order then lists every plugin after its dependencies
        exactly when no loaded plugin needs one that failed to start, and who failed to start can be read off the results. */
    method LoadAll(names: seq<string>) returns (results: seq<Result>)
      requires Valid()
      modifies this`registry, this`libraries, this`loadOrder, this`clock, this`failed
      ensures Valid() && |results| == |names| && old(loadOrder) <= loadOrder && old(clock) <= clock
      ensures failed == old(failed) + FailedIn(results)
      ensures forall k :: 0 <= k < |names| && results[k].Ok? ==> names[k] in registry
      ensures FailedIn(results) != {} ==> SomeCallFailed(world, old(clock), clock)
      ensures Topological(manifests, loadOrder) <==> !NeedsFailed(manifests, loadOrder, old(failed) + FailedIn(results))
    {
      results := [];
      for i: nat := 0 to |names|
        invariant Valid() && |results| == i && old(loadOrder) <= loadOrder && old(clock) <= clock
        invariant failed == old(failed) + FailedIn(results)
        invariant forall k :: 0 <= k < i && results[k].Ok? ==> names[k] in registry
        invariant FailedIn(results) != {} ==> SomeCallFailed(world, old(clock), clock)
      {
        ghost var middle := clock;
        var r := Load(names[i]);
        FailedInStep(results, r);
        FailureHasCall(manifests, known, registry, world, old(clock), middle, clock, names[i], r);
        results := results + [r];
      }
      TopologicalExactlyWhen(manifests, known, registry, loadOrder, failed);
    }

    /** Loading into a fresh manager: if no load reports a failed start, and in particular if every library call succeeds, plugins are
        loaded once each, after all their dependencies, in version range and off every cycle. */
    method LoadAllFresh(names: seq<string>) returns (results: seq<Result>)
      requires Valid() && failed == {}
      modifies this`registry, this`libraries, this`loadOrder, this`clock, this`failed
      ensures Valid() && |results| == |names|
      ensures FailedIn(results) != {} ==> SomeCallFailed(world, old(clock), clock)
      ensures FailedIn(results) == {} ==>
                && Topological(manifests, loadOrder) && Distinct(loadOrder)
                && (forall k :: 0 <= k < |names| && results[k].Ok? ==> names[k] in loadOrder)
                && (forall n, d :: n in loadOrder && d in manifests[n].dependencies ==>
                      d.plugin in loadOrder && InRange(d.required, registry[d.plugin]))
    {
      results := LoadAll(names);
      if FailedIn(results) == {} {
        NoFailureMeansTopological(manifests, known, registry, loadOrder);
      }
    }

    /** Stops the first `remaining` loaded plugins, last one first; the first failure is what is reported. */
    method ShutdownFrom(remaining: nat, firstError: Result) returns (r: Result)
      requires Valid() && remaining <= |loadOrder|
      modifies this`clock, this`stops
      ensures clock == old(clock) + remaining
      ensures stops == old(stops) + StopsOf(loadOrder[..remaining], old(clock))
      ensures r == if firstError.Err? then firstError else FirstFailure(world, StopsOf(loadOrder[..remaining], old(clock)))
      decreases remaining
    {
      if remaining == 0 {
        return firstError;
      }
      var name := loadOrder[remaining - 1];
      ghost var rest := StopsOf(loadOrder[..remaining - 1], clock + 1);
      assert loadOrder[..remaining][..remaining - 1] == loadOrder[..remaining - 1];
      StopsStep(world, loadOrder[..remaining], clock);
      stops := stops + [(name, clock)];
      assert old(stops) + ([(name, old(clock))] + rest) == stops + rest;
      var answer := Call();
      var next := if answer.ok then Ok else Err(LifecycleFailed(name, clock - 1));
      r := ShutdownFrom(remaining - 1, if firstError.Ok? then next else firstError);
    }

    method Shutdown() returns (r: Result)
      requires Valid()
      modifies this`clock, this`stops
      ensures stops == old(stops) + StopsOf(loadOrder, old(clock))
      ensures r == FirstFailure(world, StopsOf(loadOrder, old(clock)))
    {
      assert loadOrder[..|loadOrder|] == loadOrder;
      r := ShutdownFrom(|loadOrder|, Ok);
    }
  }

  ghost predicate Growth(registry: map<string, SemVer>, loadOrder: seq<string>, failed: set<string>,
                         registry': map<string, SemVer>, loadOrder': seq<string>, failed': set<string>,
                         visiting: set<string>, visited: set<string>, r: Result)
  {
    match r
    case Ok => GrowsOnly(registry, loadOrder, registry', loadOrder', visiting, visited) && failed' == failed
    case Err(_) => GrowsOnly(registry, loadOrder, registry', loadOrder', visiting, visited) && failed' == failed + FailedBy(r)
  }

  ghost predicate GrowsOnly(registry: map<string, SemVer>, loadOrder: seq<string>, registry': map<string, SemVer>, loadOrder': seq<string>,
                            visiting: set<string>, visited: set<string>)
  {
    && visiting <= visited && loadOrder <= loadOrder'
    && (forall n :: n in registry ==> n in registry' && registry'[n] == registry[n])
    && (forall n :: n in registry' && n !in registry ==> n !in visiting)
  }

  lemma GrowthChain(registry0: map<string, SemVer>, loadOrder0: seq<string>, failed0: set<string>,
                    registry1: map<string, SemVer>, loadOrder1: seq<string>, failed1: set<string>,
                    registry2: map<string, SemVer>, loadOrder2: seq<string>, failed2: set<string>,
                    visiting: set<string>, middle: set<string>, visited: set<string>, r: Result)
    requires Growth(registry0, loadOrder0, failed0, registry1, loadOrder1, failed1, visiting, middle, Ok)
    requires Growth(registry1, loadOrder1, failed1, registry2, loadOrder2, failed2, middle, visited, r)
    ensures Growth(registry0, loadOrder0, failed0, registry2, loadOrder2, failed2, visiting, visited, r)
  {
  }

  /** The plugin whose start this result reports as failed. */
  ghost function FailedBy(r: Result): set<string> {
    if r.Err? && r.error.LifecycleFailed? then {r.error.name} else {}
  }

  ghost function FailedIn(results: seq<Result>): set<string> {
    if results == [] then {} else FailedIn(results[..|results| - 1]) + FailedBy(results[|results| - 1])
  }

  lemma FailedInStep(results: seq<Result>, r: Result)
    ensures FailedIn(results + [r]) == FailedIn(results) + FailedBy(r)
  {
    assert (results + [r])[..|results|] == results;
  }

  /** A failed start that is reported comes from a library call that failed. */
  lemma FailureHasCall(manifests: map<string, Manifest>, known: set<string>, registry: map<string, SemVer>, world: nat -> Answer,
                       earlier: nat, from: nat, to: nat, root: string, r: Result)
    requires earlier <= from && (r.Err? ==> Explains(manifests, known, registry, world, from, to, root, r.error))
    ensures FailedBy(r) != {} ==> SomeCallFailed(world, earlier, to)
  {
  }

  lemma SmallerSet(a: set<string>, b: set<string>)
    requires a < b
    ensures |a| < |b|
  {
    var x :| x in b && x !in a;
    assert a <= b - {x};
    SubsetSize(a, b - {x});
  }

  lemma {:induction false} SubsetSize(a: set<string>, b: set<string>)
    requires a <= b
    ensures |a| <= |b|
  {
    if x :| x in a {
      SubsetSize(a - {x}, b - {x});
    }
  }

  lemma ShrinkingSet(keys: set<string>, small: set<string>, big: set<string>)
    requires small <= big
    ensures |keys - big| <= |keys - small|
  {
    SubsetSize(keys - big, keys - small);
  }

  // ---- Shutdown ----

  /** The stop calls for a load order, from its end, at consecutive clock times. */
  ghost function StopsOf(loadOrder: seq<string>, clock: nat): seq<(string, nat)> {
    if loadOrder == [] then []
    else [(loadOrder[|loadOrder| - 1], clock)] + StopsOf(loadOrder[..|loadOrder| - 1], clock + 1)
  }

  /** Every loaded plugin is stopped once, in reverse load order. */
  lemma {:induction false} StopsInReverse(loadOrder: seq<string>, clock: nat)
    ensures |StopsOf(loadOrder, clock)| == |loadOrder|
    ensures forall k :: 0 <= k < |loadOrder| ==> StopsOf(loadOrder, clock)[k] == (loadOrder[|loadOrder| - 1 - k], clock + k)
  {
    if loadOrder != [] {
      StopsInReverse(loadOrder[..|loadOrder| - 1], clock + 1);
    }
  }

  lemma StopsStep(world: nat -> Answer, loadOrder: seq<string>, clock: nat)
    requires loadOrder != []
    ensures var last, rest := loadOrder[|loadOrder| - 1], StopsOf(loadOrder[..|loadOrder| - 1], clock + 1);
            && StopsOf(loadOrder, clock) == [(last, clock)] + rest
            && FirstFailure(world, StopsOf(loadOrder, clock)) ==
               if world(clock).ok then FirstFailure(world, rest) else Err(LifecycleFailed(last, clock))
  {
    assert StopsOf(loadOrder, clock)[1..] == StopsOf(loadOrder[..|loadOrder| - 1], clock + 1);
  }

  ghost function FirstFailure(world: nat -> Answer, stops: seq<(string, nat)>): Result {
    if stops == [] then Ok
    else if !world(stops[0].1).ok then Err(LifecycleFailed(stops[0].0, stops[0].1))
    else FirstFailure(world, stops[1..])
  }

  /** The reported failure is the earliest failing call, and none is reported exactly when none failed. */
  lemma {:induction false} FirstFailureIsFirst(world: nat -> Answer, stops: seq<(string, nat)>)
    ensures FirstFailure(world, stops).Ok? <==> forall k :: 0 <= k < |stops| ==> world(stops[k].1).ok
    ensures FirstFailure(world, stops).Err? ==>
              exists k :: 0 <= k < |stops| && !world(stops[k].1).ok && FirstFailure(world, stops) == Err(LifecycleFailed(stops[k].0, stops[k].1))
                          && forall j :: 0 <= j < k ==> world(stops[j].1).ok
  {
    if stops != [] && world(stops[0].1).ok {
      FirstFailureIsFirst(world, stops[1..]);
      var rest := FirstFailure(world, stops[1..]);
      assert forall k :: 0 < k < |stops| ==> stops[k] == stops[1..][k - 1];
      if rest.Err? {
        var k :| 0 <= k < |stops[1..]| && !world(stops[1..][k].1).ok && rest == Err(LifecycleFailed(stops[1..][k].0, stops[1..][k].1))
                 && forall j :: 0 <= j < k ==> world(stops[1..][j].1).ok;
        assert stops[k + 1] == stops[1..][k];
      }
    }
  }

  // ---- The load order ----

  /** Every plugin comes after all of its dependencies. */
  ghost predicate Topological(manifests: map<string, Manifest>, loadOrder: seq<string>) {
    forall i :: 0 <= i < |loadOrder| ==> ComesAfter(manifests, loadOrder, {}, i)
  }

  ghost predicate NeedsFailed(manifests: map<string, Manifest>, loadOrder: seq<string>, failed: set<string>) {
    exists n, d :: n in loadOrder && n in manifests && d in manifests[n].dependencies && d.plugin in failed
  }

  /** The load order lists every plugin after all its dependencies exactly when no loaded plugin needs one whose start failed. */
  lemma TopologicalExactlyWhen(manifests: map<string, Manifest>, known: set<string>, registry: map<string, SemVer>,
                               loadOrder: seq<string>, failed: set<string>)
    requires Sound(manifests, known, registry, loadOrder, failed)
    ensures Topological(manifests, loadOrder) <==> !NeedsFailed(manifests, loadOrder, failed)
  {
    if NeedsFailed(manifests, loadOrder, failed) {
      var n, d :| n in loadOrder && n in manifests && d in manifests[n].dependencies && d.plugin in failed;
      var i :| 0 <= i < |loadOrder| && loadOrder[i] == n;
      assert d.plugin !in loadOrder[..i];
      assert !ComesAfter(manifests, loadOrder, {}, i);
    } else {
      forall i | 0 <= i < |loadOrder|
        ensures ComesAfter(manifests, loadOrder, {}, i)
      {
        assert ComesAfter(manifests, loadOrder, failed, i);
        assert loadOrder[i] in loadOrder;
      }
    }
  }

  /** When no start failed, the plugins are loaded once each, after their dependencies, in version range. */
  lemma NoFailureMeansTopological(manifests: map<string, Manifest>, known: set<string>, registry: map<string, SemVer>, loadOrder: seq<string>)
    requires Sound(manifests, known, registry, loadOrder, {})
    ensures Topological(manifests, loadOrder) && Distinct(loadOrder)
    ensures forall n :: n in registry <==> n in loadOrder
    ensures forall n, d :: n in loadOrder && d in manifests[n].dependencies ==>
              d.plugin in loadOrder && InRange(d.required, registry[d.plugin])
  {
    TopologicalExactlyWhen(manifests, known, registry, loadOrder, {});
    forall n, d | n in loadOrder && d in manifests[n].dependencies
      ensures d.plugin in registry && InRange(d.required, registry[d.plugin])
    {
      assert n in registry && DependenciesMet(manifests, registry, n);
    }
  }

  // ---- Cycles ----

  /** When no start failed, no loaded plugin lies on or leads to a dependency cycle. */
  lemma LoadedIsAcyclic(manifests: map<string, Manifest>, known: set<string>, registry: map<string, SemVer>, loadOrder: seq<string>,
                        n: string, m: string)
    requires Sound(manifests, known, registry, loadOrder, {}) && n in loadOrder && Reaches(Edges(manifests), n, m)
    ensures m in loadOrder && !OnCycle(Edges(manifests), m)
  {
    var e := Edges(manifests);
    var loaded := set x | x in loadOrder;
    NoFailureMeansTopological(manifests, known, registry, loadOrder);
    assert Closed(e, loaded);
    ClosedHoldsReachable(e, loaded, n, m);
    if OnCycle(e, m) {
      var p :| Joins(e, p, m, m) && |p| >= 2;
      PositionsFall(manifests, loadOrder, e, p, |p| - 1);
    }
  }

  /** Along a path of dependencies the positions in the load order go down. */
  lemma {:induction false} PositionsFall(manifests: map<string, Manifest>, loadOrder: seq<string>, e: set<(string, string)>, p: seq<string>, k: nat)
    requires Topological(manifests, loadOrder) && Distinct(loadOrder) && e == Edges(manifests)
    requires IsPath(e, p) && p[0] in loadOrder && 1 <= k < |p|
    ensures exists i, j :: 0 <= j < i < |loadOrder| && loadOrder[i] == p[0] && loadOrder[j] == p[k]
  {
    var top;
    if k == 1 {
      top :| 0 <= top < |loadOrder| && loadOrder[top] == p[0];
    } else {
      PositionsFall(manifests, loadOrder, e, p, k - 1);
      var i, j :| 0 <= j < i < |loadOrder| && loadOrder[i] == p[0] && loadOrder[j] == p[k - 1];
      top := j;
    }
    assert (p[k - 1], p[k - 1 + 1]) in e;
    assert ComesAfter(manifests, loadOrder, {}, top);
    assert p[k] in loadOrder[..top];
    var j :| 0 <= j < |loadOrder[..top]| && loadOrder[..top][j] == p[k];
    assert loadOrder[j] == p[k];
  }

  // ---- A start that failed is forgotten ----

  /** "viewer" needs "camera", and the fourth library call, OnStart of "camera", fails. */
  function CameraAndViewer(): map<string, Manifest> {
    var any := VersionRange(SemVer(0, 0, 0), SemVer(2, 0, 0));
    map["camera" := Manifest("camera", [], [], "token"),
        "viewer" := Manifest("viewer", [], [Dependency("camera", any)], "token")]
  }

  function FourthCallFails(): nat -> Answer {
    n => Answer(n != 3, SemVer(1, 0, 0))
  }

  lemma ViewerCannotFail(known: set<string>, registry: map<string, SemVer>, from: nat, to: nat, error: Error)
    requires from >= 4 && "camera" in registry && registry["camera"] == SemVer(1, 0, 0)
    ensures !Explains(CameraAndViewer(), known, registry, FourthCallFails(), from, to, "viewer", error)
  {
    var manifests := CameraAndViewer();
    var e := Edges(manifests);
    assert forall a, b :: (a, b) in e ==> a == "viewer" && b == "camera";
    assert Closed(e, {"viewer", "camera"});
    forall n | Reaches(e, "viewer", n)
      ensures n == "viewer" || n == "camera"
    {
      ClosedHoldsReachable(e, {"viewer", "camera"}, "viewer", n);
    }
    RankedIsAcyclic(e, map["viewer" := 0, "camera" := 1]);
  }

  lemma OnlyViewerIsLoaded(known: set<string>, registry: map<string, SemVer>, loadOrder: seq<string>)
    requires Sound(CameraAndViewer(), known, registry, loadOrder, {"camera"}) && "viewer" in registry
    ensures loadOrder == ["viewer"] && !Topological(CameraAndViewer(), loadOrder)
  {
    var manifests := CameraAndViewer();
    forall i | 0 <= i < |loadOrder|
      ensures loadOrder[i] == "viewer"
    {
      assert loadOrder[i] in registry && DependenciesMet(manifests, registry, loadOrder[i]);
    }
    assert "viewer" in loadOrder;
    var last := |loadOrder| - 1;
    assert loadOrder[last] == loadOrder[0] == "viewer";
    var d := manifests["viewer"].dependencies[0];
    assert d in manifests[loadOrder[0]].dependencies && loadOrder[..0] == [];
    assert !ComesAfter(manifests, loadOrder, {}, 0);
  }

  method LoadCamera() returns (m: Manager)
    ensures m.Valid() && m.manifests == CameraAndViewer() && m.world == FourthCallFails()
    ensures m.registry == map["camera" := SemVer(1, 0, 0)] && m.loadOrder == [] && m.failed == {"camera"} && m.clock == 4 && fresh(m)
  {
    m := new Manager(CameraAndViewer(), FourthCallFails());
    assert m.clock == 0;
    assert StageReached(m.manifests, {}, map[], m.world, 0, "camera") == Registered;
    var first := m.LoadSingle(m.manifests["camera"]);
  }

  /** After the failed start of "camera", loading "viewer" succeeds and the load order lacks its dependency. */
  method LoadAfterFailedStart() returns (m: Manager)
    ensures m.Valid() && m.loadOrder == ["viewer"] && m.failed == {"camera"}
    ensures !Topological(m.manifests, m.loadOrder)
  {
    m := LoadCamera();
    ghost var from := m.clock;
    var second := m.Load("viewer");
    if second.Err? {
      ViewerCannotFail(m.known, m.registry, from, m.clock, second.error);
    }
    assert second == Ok && m.failed == {"camera"};
    OnlyViewerIsLoaded(m.known, m.registry, m.loadOrder);
  }
}
