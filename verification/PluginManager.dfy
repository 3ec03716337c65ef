/** The plugin manager: registration, initialisation in dependency order, destruction in reverse. */
module PluginManager {
  import opened Options
  import opened DependencyOrder

  /** The depth-first search, over the three collections it keeps. */
  class DependencyWalk {
    const plugins: Graph
    var visited: set<string>
    var visiting: set<string>
    var ordered: seq<string>

    ghost predicate Valid()
      reads this
    {
      visiting <= plugins.Keys && forall n :: n in visited <==> n in ordered
    }

    constructor (plugins: Graph)
      ensures Valid() && this.plugins == plugins && visiting == {} && ordered == []
    {
      this.plugins := plugins;
      visited, visiting, ordered := {}, {}, [];
    }

    method Visit(name: string) returns (failure: Option<Failure>)
      requires Valid()
      modifies this
      ensures failure.None? ==> Valid() && visiting == old(visiting)
      ensures match Visited(plugins, name, old(visiting), old(ordered))
        case Ordered(names) => failure.None? && ordered == names
        case Failed(f) => failure == Some(f)
      decreases |plugins.Keys - visiting|
    {
      if name in visited {
        return None;
      }
      if name in visiting {
        return Some(Circular(name));
      }
      if name !in plugins {
        return Some(Unregistered(name));
      }
      Shrinks(plugins, name, visiting);
      visiting := visiting + {name};
      var deps := plugins[name];
      ghost var expected := DependenciesVisited(plugins, name, deps, visiting, ordered);
      for i := 0 to |deps|
        invariant Valid() && visiting == old(visiting) + {name}
        invariant DependenciesVisited(plugins, name, deps[i..], visiting, ordered) == expected
      {
        if deps[i] !in plugins {
          return Some(MissingDependency(name, deps[i]));
        }
        failure := Visit(deps[i]);
        if failure.Some? {
          return;
        }
        assert deps[i..][1..] == deps[i + 1..];
      }
      visiting := visiting - {name};
      visited := visited + {name};
      ordered := ordered + [name];
      failure := None;
    }
  }

  /** What a plugin has been told. */
  datatype Call = InitCalled(name: string) | DestroyCalled(name: string)

  datatype Error =
    | AfterInitialization(name: string)
    | AlreadyRegistered(name: string)
    | AlreadyInitialized
    | Unresolved(failure: Failure)
    | Threw(name: string)

  function Inits(order: seq<string>): seq<Call> {
    seq(|order|, i requires 0 <= i < |order| => InitCalled(order[i]))
  }

  /** Reverse order. */
  function Destroys(order: seq<string>): seq<Call> {
    seq(|order|, i requires 0 <= i < |order| => DestroyCalled(order[|order| - 1 - i]))
  }

  predicate FirstBroken(order: seq<string>, broken: set<string>, k: nat)
    requires k < |order|
  {
    order[k] in broken && forall j :: 0 <= j < k ==> order[j] !in broken
  }

  /** Going backwards, the plugin at k is the first that throws. */
  predicate LastBroken(order: seq<string>, broken: set<string>, k: nat)
    requires k < |order|
  {
    order[k] in broken && forall j :: k < j < |order| ==> order[j] !in broken
  }

  function Deleted(names: seq<string>, name: string): (rest: seq<string>)
    ensures forall n :: n in rest <==> n in names && n != name
  {
    if |names| == 0 then []
    else if names[0] == name then Deleted(names[1..], name)
    else [names[0]] + Deleted(names[1..], name)
  }

  lemma {:induction false} DeletedUnique(names: seq<string>, name: string)
    requires Unique(names)
    ensures Unique(Deleted(names, name))
  {
    if |names| > 0 {
      DeletedUnique(names[1..], name);
      var rest := Deleted(names[1..], name);
      forall j | 0 <= j < |rest| ensures rest[j] != names[0] {
        assert rest[j] in rest;
      }
    }
  }

  class PluginManager {
    var names: seq<string>
    var plugins: Graph
    var initialized: bool
    ghost var calls: seq<Call>
    /** The order of the last initialisation, and whether a plugin was removed since. */
    ghost var initOrder: seq<string>
    ghost var removed: bool

    /** The names are the map's keys; after initialisation the graph has no cycle, and while nothing is removed the order stands. */
    ghost predicate Valid()
      reads this
    {
      && Unique(names) && (forall n :: n in names <==> n in plugins)
      && (initialized ==> !Cyclic(plugins))
      && (initialized && !removed ==> Resolved(plugins, names) == Ordered(initOrder) && Topological(plugins, initOrder))
    }

    constructor ()
      ensures Valid() && !initialized && names == [] && calls == []
    {
      names, plugins, initialized := [], map[], false;
      calls, initOrder, removed := [], [], false;
    }

    method Register(name: string, dependencies: seq<string>) returns (r: Result<(), Error>)
      requires Valid()
      modifies this
      ensures Valid() && calls == old(calls) && initialized == old(initialized)
      ensures r.Err? <==> old(initialized) || name in old(plugins)
      ensures r.Err? ==> r.error == (if old(initialized) then AfterInitialization(name) else AlreadyRegistered(name))
      ensures r.Err? ==> names == old(names) && plugins == old(plugins)
      ensures r.Ok? ==> names == old(names) + [name] && plugins == old(plugins)[name := dependencies]
    {
      if initialized {
        return Err(AfterInitialization(name));
      }
      if name in plugins {
        return Err(AlreadyRegistered(name));
      }
      names, plugins := names + [name], plugins[name := dependencies];
      r := Ok(());
    }

    method ResolveDependencyOrder() returns (r: Outcome)
      requires Valid()
      ensures r == Resolved(plugins, names)
      ensures r.Ordered? ==> Topological(plugins, r.names) && forall n :: n in r.names <==> n in plugins
      ensures r.Failed? ==> Justified(plugins, r.failure)
      ensures r.Ordered? <==> !Incomplete(plugins) && !Cyclic(plugins)
    {
      hide Topological, Justified, Incomplete, Cyclic;
      ResolvedExactly(plugins, names);
      var walk := new DependencyWalk(plugins);
      for i := 0 to |names|
        invariant walk.Valid() && walk.visiting == {}
        invariant AllVisited(plugins, names[i..], walk.ordered) == Resolved(plugins, names)
      {
        var failure := walk.Visit(names[i]);
        if failure.Some? {
          return Failed(failure.value);
        }
        assert names[i..][1..] == names[i + 1..];
      }
      r := Ordered(walk.ordered);
    }

    /** Initialises the plugins in dependency order; `broken` are those whose own init throws. */
    method Init(broken: set<string>) returns (r: Result<(), Error>)
      requires Valid()
      modifies this
      ensures Valid() && names == old(names) && plugins == old(plugins)
      ensures old(initialized) ==> r == Err(AlreadyInitialized) && calls == old(calls) && initialized
      ensures !old(initialized) ==> match Resolved(plugins, names)
        case Failed(f) => r == Err(Unresolved(f)) && calls == old(calls) && !initialized
        case Ordered(order) =>
          if forall n :: n in order ==> n !in broken then
            r == Ok(()) && calls == old(calls) + Inits(order) && initialized && initOrder == order && !removed
          else
            && !initialized
            && exists k :: 0 <= k < |order| && FirstBroken(order, broken, k)
                           && r == Err(Threw(order[k])) && calls == old(calls) + Inits(order[..k + 1])
    {
      hide DependenciesFirst, Topological, Justified, Incomplete, Cyclic, Resolved, Unique;
      if initialized {
        return Err(AlreadyInitialized);
      }
      var outcome := ResolveDependencyOrder();
      if outcome.Failed? {
        return Err(Unresolved(outcome.failure));
      }
      var order := outcome.names;
      for i := 0 to |order|
        invariant Valid() && names == old(names) && plugins == old(plugins) && !initialized
        invariant calls == old(calls) + Inits(order[..i])
        invariant forall j :: 0 <= j < i ==> order[j] !in broken
      {
        calls := calls + [InitCalled(order[i])];
        assert Inits(order[..i + 1]) == Inits(order[..i]) + [InitCalled(order[i])];
        if order[i] in broken {
          assert FirstBroken(order, broken, i);
          return Err(Threw(order[i]));
        }
      }
      assert order[..|order|] == order;
      initialized, initOrder, removed := true, order, false;
      r := Ok(());
    }

    /** Destroys the plugins, dependents first; `broken` are those whose own destroy throws. */
    method Destroy(broken: set<string>) returns (r: Result<(), Error>)
      requires Valid()
      modifies this
      ensures Valid()
      ensures !old(initialized) ==> r == Ok(()) && calls == old(calls)
      ensures old(initialized) ==> (Resolved(old(plugins), old(names)).Failed? <==> Incomplete(old(plugins)))
      ensures old(initialized) ==> match Resolved(old(plugins), old(names))
        case Failed(f) => r == Err(Unresolved(f)) && calls == old(calls) && initialized && names == old(names) && plugins == old(plugins)
        case Ordered(order) =>
          && Topological(old(plugins), order) && (!old(removed) ==> order == old(initOrder))
          && if forall n :: n in order ==> n !in broken then
               r == Ok(()) && calls == old(calls) + Destroys(order) && !initialized && names == [] && plugins == map[]
             else
               && initialized && names == old(names) && plugins == old(plugins)
               && exists k :: 0 <= k < |order| && LastBroken(order, broken, k)
                              && r == Err(Threw(order[k])) && calls == old(calls) + Destroys(order[k..])
    {
      hide DependenciesFirst, Topological, Justified, Incomplete, Cyclic, Resolved;
      if !initialized {
        return Ok(());
      }
      var outcome := ResolveDependencyOrder();
      if outcome.Failed? {
        return Err(Unresolved(outcome.failure));
      }
      var order := outcome.names;
      var i := |order|;
      while i > 0
        invariant 0 <= i <= |order|
        invariant Valid() && initialized && names == old(names) && plugins == old(plugins)
        invariant calls == old(calls) + Destroys(order[i..])
        invariant forall j :: i <= j < |order| ==> order[j] !in broken
      {
        i := i - 1;
        calls := calls + [DestroyCalled(order[i])];
        assert Destroys(order[i..]) == Destroys(order[i + 1..]) + [DestroyCalled(order[i])];
        if order[i] in broken {
          assert LastBroken(order, broken, i);
          return Err(Threw(order[i]));
        }
      }
      assert order[0..] == order;
      names, plugins, initialized := [], map[], false;
      r := Ok(());
    }

    /** Removes one plugin, whoever depends on it. */
    method RemovePlugin(name: string, throws: bool) returns (r: Result<(), Error>)
      requires Valid()
      modifies this
      ensures Valid() && initialized == old(initialized)
      ensures name !in old(plugins) ==> r == Ok(()) && calls == old(calls) && names == old(names) && plugins == old(plugins)
      ensures name in old(plugins) ==> calls == old(calls) + [DestroyCalled(name)]
      ensures name in old(plugins) && throws ==> r == Err(Threw(name)) && names == old(names) && plugins == old(plugins)
      ensures name in old(plugins) && !throws ==>
        r == Ok(()) && names == Deleted(old(names), name) && plugins == old(plugins) - {name}
    {
      hide DependenciesFirst, Topological, Justified, Incomplete, Resolved, Unique;
      if name !in plugins {
        return Ok(());
      }
      calls := calls + [DestroyCalled(name)];
      if throws {
        return Err(Threw(name));
      }
      DeletedUnique(names, name);
      StillAcyclic(plugins, name);
      names, plugins, removed := Deleted(names, name), plugins - {name}, true;
      r := Ok(());
    }
  }

  lemma StillAcyclic(g: Graph, name: string)
    ensures Cyclic(g - {name}) ==> Cyclic(g)
  {
    forall p ensures Cycle(g - {name}, p) ==> Cycle(g, p) {
      assert forall a, b :: Edge(g - {name}, a, b) ==> Edge(g, a, b);
    }
  }

  /** After a removal the graph is incomplete, and `Destroy` stops, exactly when a remaining plugin depends on the removed one. */
  lemma RemovalLeavesGap(g: Graph, name: string)
    requires !Incomplete(g) && name in g
    ensures Incomplete(g - {name}) <==> exists a :: a in g && a != name && name in g[a]
  {
    if a :| a in g && a != name && name in g[a] {
      assert a in g - {name} && name in (g - {name})[a];
    }
  }

  /** After the removal of a plugin nobody depends on, the order can still differ: here b and c change places. */
  lemma RemovalChangesOrder(g: Graph, a: string, b: string, c: string)
    requires a != b && b != c && c != a && g == map[a := [c], b := [], c := []]
    ensures Resolved(g, [a, b, c]) == Ordered([c, a, b])
    ensures Deleted([a, b, c], a) == [b, c] && Resolved(g - {a}, [b, c]) == Ordered([b, c])
  {
    var abc, bc, last := [a, b, c], [b, c], [c];
    assert abc[1..] == bc && bc[1..] == last && last[1..] == [];
    VisitsBefore(g, a, b, c);
    assert AllVisited(g, last, [c, a, b]) == Ordered([c, a, b]);
    assert AllVisited(g, bc, [c, a]) == AllVisited(g, last, [c, a, b]);
    var h := g - {a};
    assert h == map[b := [], c := []];
    assert Deleted(last, a) == [c] && Deleted(bc, a) == [b] + Deleted(last, a);
    VisitsAfter(h, b, c);
    assert AllVisited(h, last, [b]) == Ordered([b, c]);
    assert AllVisited(h, bc, []) == AllVisited(h, last, [b]);
  }

  lemma VisitsBefore(g: Graph, a: string, b: string, c: string)
    requires a != b && b != c && c != a && g == map[a := [c], b := [], c := []]
    ensures Visited(g, a, {}, []) == Ordered([c, a]) && Visited(g, b, {}, [c, a]) == Ordered([c, a, b])
    ensures Visited(g, c, {}, [c, a, b]) == Ordered([c, a, b])
  {
    var none: set<string> := {};
    var inA := none + {a};
    assert DependenciesVisited(g, c, [], inA + {c}, []) == Ordered([]);
    assert Visited(g, c, inA, []) == Ordered([c]);
    assert DependenciesVisited(g, a, [c], inA, []) == DependenciesVisited(g, a, [], inA, [c]);
    assert DependenciesVisited(g, b, [], none + {b}, [c, a]) == Ordered([c, a]);
  }

  lemma VisitsAfter(g: Graph, b: string, c: string)
    requires b != c && b in g && g[b] == [] && c in g && g[c] == []
    ensures Visited(g, b, {}, []) == Ordered([b]) && Visited(g, c, {}, [b]) == Ordered([b, c])
  {
    var none: set<string> := {};
    assert DependenciesVisited(g, b, [], none + {b}, []) == Ordered([]);
    assert DependenciesVisited(g, c, [], none + {c}, [b]) == Ordered([b]);
  }
}
