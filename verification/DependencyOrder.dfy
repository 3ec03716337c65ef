/** Plugins with their declared dependencies, and the depth-first order that resolves them. */
module DependencyOrder {

  /** Each registered plugin's dependencies, in declaration order. */
  type Graph = map<string, seq<string>>

  datatype Failure =
    | Circular(name: string)
    | Unregistered(name: string)
    | MissingDependency(name: string, dependency: string)

  datatype Outcome = Ordered(names: seq<string>) | Failed(failure: Failure)

  // -------------------------------------------------- what is asked for

  predicate Edge(g: Graph, a: string, b: string) {
    a in g && b in g[a]
  }

  predicate Path(g: Graph, p: seq<string>) {
    forall i :: 0 <= i < |p| - 1 ==> Edge(g, p[i], p[i + 1])
  }

  predicate Cycle(g: Graph, p: seq<string>) {
    Path(g, p) && |p| >= 2 && p[0] == p[|p| - 1]
  }

  ghost predicate Cyclic(g: Graph) {
    exists p :: Cycle(g, p)
  }

  /** Some plugin names a dependency that is not registered. */
  predicate Incomplete(g: Graph) {
    exists a, d :: a in g && d in g[a] && d !in g
  }

  /** What a failure claims is so: the plugin it names lies on a cycle, or the dependency it names is missing. */
  ghost predicate Justified(g: Graph, failure: Failure) {
    match failure
    case Circular(name) => exists p :: Cycle(g, p) && p[0] == name
    case MissingDependency(name, d) => name in g && d in g[name] && d !in g
    case Unregistered(name) => false
  }

  predicate Unique(names: seq<string>) {
    forall i, j :: 0 <= i < j < |names| ==> names[i] != names[j]
  }

  /** No plugin twice, and every dependency before its dependents. */
  predicate DependenciesFirst(g: Graph, order: seq<string>) {
    && Unique(order)
    && forall i :: 0 <= i < |order| ==> order[i] in g && forall d :: d in g[order[i]] ==> d in order[..i]
  }

  predicate Topological(g: Graph, order: seq<string>) {
    DependenciesFirst(g, order) && forall n :: n in g ==> n in order
  }

  // ------------------------------------------------------ what is done

  /** The visit of one plugin: `visiting` are the plugins whose visit has begun, `done` those it has ended for. */
  function Visited(g: Graph, name: string, visiting: set<string>, done: seq<string>): Outcome
    requires visiting <= g.Keys
    decreases |g.Keys - visiting|, 0
  {
    if name in done then Ordered(done)
    else if name in visiting then Failed(Circular(name))
    else if name !in g then Failed(Unregistered(name))
    else
      Shrinks(g, name, visiting);
      var r := DependenciesVisited(g, name, g[name], visiting + {name}, done);
      if r.Failed? then r else Ordered(r.names + [name])
  }

  function DependenciesVisited(g: Graph, name: string, deps: seq<string>, visiting: set<string>, done: seq<string>): Outcome
    requires visiting <= g.Keys
    decreases |g.Keys - visiting|, 1 + |deps|
  {
    if |deps| == 0 then Ordered(done)
    else if deps[0] !in g then Failed(MissingDependency(name, deps[0]))
    else
      var r := Visited(g, deps[0], visiting, done);
      if r.Failed? then r else DependenciesVisited(g, name, deps[1..], visiting, r.names)
  }

  function AllVisited(g: Graph, names: seq<string>, done: seq<string>): Outcome {
    if |names| == 0 then Ordered(done)
    else
      var r := Visited(g, names[0], {}, done);
      if r.Failed? then r else AllVisited(g, names[1..], r.names)
  }

  function Resolved(g: Graph, names: seq<string>): Outcome {
    AllVisited(g, names, [])
  }

  /** Every nested visit has one plugin fewer to begin. */
  lemma Shrinks(g: Graph, name: string, visiting: set<string>)
    requires visiting <= g.Keys && name in g && name !in visiting
    ensures |g.Keys - (visiting + {name})| < |g.Keys - visiting|
  {
    assert g.Keys - visiting == (g.Keys - (visiting + {name})) + {name};
  }

  // ------------------------------------------------ a success is sound

  predicate Apart(visiting: set<string>, done: seq<string>) {
    forall n :: n in done ==> n !in visiting
  }

  lemma {:induction false} VisitSound(g: Graph, name: string, visiting: set<string>, done: seq<string>)
    requires visiting <= g.Keys && DependenciesFirst(g, done) && Apart(visiting, done)
    ensures var r := Visited(g, name, visiting, done);
      r.Ordered? ==> DependenciesFirst(g, r.names) && Apart(visiting, r.names) && done <= r.names && name in r.names
    decreases |g.Keys - visiting|, 0
  {
    if name !in done && name !in visiting && name in g {
      Shrinks(g, name, visiting);
      DependenciesSound(g, name, g[name], visiting + {name}, done);
      var r := DependenciesVisited(g, name, g[name], visiting + {name}, done);
      if r.Ordered? {
        Appended(g, r.names, name);
      }
    }
  }

  lemma Appended(g: Graph, order: seq<string>, name: string)
    requires DependenciesFirst(g, order) && name !in order && name in g && forall d :: d in g[name] ==> d in order
    ensures DependenciesFirst(g, order + [name])
  {
    var longer := order + [name];
    assert longer[..|order|] == order;
    forall i | 0 <= i < |order| ensures longer[..i] == order[..i] {}
  }

  lemma {:induction false} DependenciesSound(g: Graph, name: string, deps: seq<string>, visiting: set<string>, done: seq<string>)
    requires visiting <= g.Keys && DependenciesFirst(g, done) && Apart(visiting, done)
    ensures var r := DependenciesVisited(g, name, deps, visiting, done);
      r.Ordered? ==>
        DependenciesFirst(g, r.names) && Apart(visiting, r.names) && done <= r.names && forall d :: d in deps ==> d in r.names
    decreases |g.Keys - visiting|, 1 + |deps|
  {
    if |deps| > 0 && deps[0] in g {
      VisitSound(g, deps[0], visiting, done);
      var r := Visited(g, deps[0], visiting, done);
      if r.Ordered? {
        DependenciesSound(g, name, deps[1..], visiting, r.names);
      }
    }
  }

  lemma {:induction false} AllSound(g: Graph, names: seq<string>, done: seq<string>)
    requires DependenciesFirst(g, done)
    ensures var r := AllVisited(g, names, done);
      r.Ordered? ==> DependenciesFirst(g, r.names) && done <= r.names && forall n :: n in names ==> n in r.names
  {
    if |names| > 0 {
      VisitSound(g, names[0], {}, done);
      var r := Visited(g, names[0], {}, done);
      if r.Ordered? {
        AllSound(g, names[1..], r.names);
      }
    }
  }

  // ------------------------------------------- a failure has its reason

  /** The visits under way form a path, so meeting one of them again closes a cycle. */
  lemma {:induction false} VisitFails(g: Graph, name: string, path: seq<string>, visiting: set<string>, done: seq<string>)
    requires visiting <= g.Keys && name in g && Path(g, path + [name]) && forall n :: n in visiting <==> n in path
    ensures var r := Visited(g, name, visiting, done); r.Failed? ==> Justified(g, r.failure)
    decreases |g.Keys - visiting|, 0
  {
    if name in done {
    } else if name in visiting {
      var i :| 0 <= i < |path| && path[i] == name;
      var cycle := (path + [name])[i..];
      assert Cycle(g, cycle) && cycle[0] == name;
    } else {
      Shrinks(g, name, visiting);
      DependenciesFail(g, name, g[name], path + [name], visiting + {name}, done);
    }
  }

  lemma {:induction false} DependenciesFail(g: Graph, name: string, deps: seq<string>, path: seq<string>, visiting: set<string>, done: seq<string>)
    requires visiting <= g.Keys && name in g && Path(g, path) && |path| > 0 && path[|path| - 1] == name
    requires forall n :: n in visiting <==> n in path
    requires forall d :: d in deps ==> d in g[name]
    ensures var r := DependenciesVisited(g, name, deps, visiting, done); r.Failed? ==> Justified(g, r.failure)
    decreases |g.Keys - visiting|, 1 + |deps|
  {
    if |deps| > 0 && deps[0] in g {
      assert Path(g, path + [deps[0]]);
      VisitFails(g, deps[0], path, visiting, done);
      var r := Visited(g, deps[0], visiting, done);
      if r.Ordered? {
        DependenciesFail(g, name, deps[1..], path, visiting, r.names);
      }
    }
  }

  lemma {:induction false} AllFail(g: Graph, names: seq<string>, done: seq<string>)
    requires forall n :: n in names ==> n in g
    ensures var r := AllVisited(g, names, done); r.Failed? ==> Justified(g, r.failure)
  {
    if |names| > 0 {
      assert Path(g, [] + [names[0]]);
      VisitFails(g, names[0], [], {}, done);
      var r := Visited(g, names[0], {}, done);
      if r.Ordered? {
        AllFail(g, names[1..], r.names);
      }
    }
  }

  // ----------------------------------- an order leaves no room for cycles

  /** A path leads to ever earlier places of the order. */
  lemma {:induction false} PathDescends(g: Graph, order: seq<string>, p: seq<string>, i: nat) returns (j: nat)
    requires DependenciesFirst(g, order) && Path(g, p) && |p| >= 2 && i < |order| && p[0] == order[i]
    ensures j < i && p[|p| - 1] == order[j]
    decreases |p|
  {
    assert Edge(g, p[0], p[1]);
    j :| 0 <= j < i && order[j] == p[1];
    if |p| > 2 {
      forall k | 0 <= k < |p| - 2 ensures Edge(g, p[1..][k], p[1..][k + 1]) {
        assert Edge(g, p[k + 1], p[k + 1 + 1]);
      }
      j := PathDescends(g, order, p[1..], j);
    }
  }

  lemma TopologicalMeansNeither(g: Graph, order: seq<string>)
    requires Topological(g, order)
    ensures !Incomplete(g) && !Cyclic(g)
  {
    forall a, d | a in g && d in g[a] ensures d in g {
      var i :| 0 <= i < |order| && order[i] == a;
      assert d in order[..i];
    }
    if p :| Cycle(g, p) {
      assert Edge(g, p[0], p[1]);
      var i :| 0 <= i < |order| && order[i] == p[0];
      var j := PathDescends(g, order, p, i);
    }
  }

  /** The order holds every plugin once, dependencies first; there is one exactly when the graph is complete and acyclic. */
  lemma ResolvedExactly(g: Graph, names: seq<string>)
    requires forall n :: n in names <==> n in g
    ensures var r := Resolved(g, names);
      && (r.Ordered? ==> Topological(g, r.names) && forall n :: n in r.names <==> n in g)
      && (r.Failed? ==> Justified(g, r.failure))
      && (r.Ordered? <==> !Incomplete(g) && !Cyclic(g))
  {
    AllSound(g, names, []);
    AllFail(g, names, []);
    var r := Resolved(g, names);
    if r.Ordered? {
      TopologicalMeansNeither(g, r.names);
    }
  }
}
