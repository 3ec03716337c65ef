/** What removing a plugin does to the order in which the others are destroyed. */
module PluginRemoval {
  import opened DependencyOrder
  import opened PluginManager

  predicate NobodyDepends(g: Graph, name: string) {
    forall n :: n in g ==> name !in g[n]
  }

  function Without(outcome: Outcome, name: string): Outcome {
    match outcome
    case Ordered(names) => Ordered(Deleted(names, name))
    case Failed(_) => outcome
  }

  lemma {:induction false} DeletedConcat(a: seq<string>, b: seq<string>, name: string)
    ensures Deleted(a + b, name) == Deleted(a, name) + Deleted(b, name)
  {
    if |a| == 0 {
      assert a + b == b;
    } else {
      assert a + b == [a[0]] + (a[1..] + b);
      DeletedConcat(a[1..], b, name);
    }
  }

  lemma {:induction false} DeletedAbsent(names: seq<string>, name: string)
    requires name !in names
    ensures Deleted(names, name) == names
  {
    if |names| > 0 { DeletedAbsent(names[1..], name); }
  }

  lemma DeletedOnce(a: seq<string>, name: string, b: seq<string>)
    requires name !in a && name !in b
    ensures Deleted(a + [name] + b, name) == a + b
  {
    assert Deleted([name], name) == [] by { assert [name][1..] == []; }
    hide Deleted;
    DeletedConcat(a + [name], b, name);
    DeletedConcat(a, [name], name);
    DeletedAbsent(a, name);
    DeletedAbsent(b, name);
    assert a + [] == a;
  }

  // ------------------------------- the search does not see the plugin

  lemma DeletedLast(names: seq<string>, n: string, name: string)
    requires n != name
    ensures Deleted(names + [n], name) == Deleted(names, name) + [n]
  {
    DeletedConcat(names, [n], name);
    DeletedAbsent([n], name);
  }

  /** A visit of another plugin goes the same way with and without one that nobody depends on. */
  lemma {:induction false} VisitWithout(g: Graph, name: string, n: string, visiting: set<string>, done: seq<string>)
    requires visiting <= g.Keys && NobodyDepends(g, name) && n != name && name !in visiting
    ensures Visited(g - {name}, n, visiting, Deleted(done, name)) == Without(Visited(g, n, visiting, done), name)
    ensures Visited(g, n, visiting, done).Ordered? ==> (name in Visited(g, n, visiting, done).names <==> name in done)
    decreases |g.Keys - visiting|, 0
  {
    if n !in done && n !in visiting && n in g {
      Shrinks(g, n, visiting);
      DependenciesWithout(g, name, n, g[n], visiting + {n}, done);
      var r := DependenciesVisited(g, n, g[n], visiting + {n}, done);
      if r.Ordered? {
        DeletedLast(r.names, n, name);
      }
    }
  }

  lemma {:induction false} DependenciesWithout(g: Graph, name: string, n: string, deps: seq<string>, visiting: set<string>, done: seq<string>)
    requires visiting <= g.Keys && NobodyDepends(g, name) && name !in visiting && name !in deps
    ensures DependenciesVisited(g - {name}, n, deps, visiting, Deleted(done, name)) == Without(DependenciesVisited(g, n, deps, visiting, done), name)
    ensures var r := DependenciesVisited(g, n, deps, visiting, done); r.Ordered? ==> (name in r.names <==> name in done)
    decreases |g.Keys - visiting|, 1 + |deps|
  {
    if |deps| > 0 && deps[0] in g {
      assert deps[0] != name;
      VisitWithout(g, name, deps[0], visiting, done);
      var r := Visited(g, deps[0], visiting, done);
      if r.Ordered? {
        DependenciesWithout(g, name, n, deps[1..], visiting, r.names);
      }
    }
  }

  lemma {:induction false} AllWithout(g: Graph, name: string, names: seq<string>, done: seq<string>)
    requires NobodyDepends(g, name) && name !in names
    ensures AllVisited(g - {name}, names, Deleted(done, name)) == Without(AllVisited(g, names, done), name)
    ensures AllVisited(g, names, done).Ordered? ==> (name in AllVisited(g, names, done).names <==> name in done)
  {
    if |names| > 0 {
      VisitWithout(g, name, names[0], {}, done);
      var r := Visited(g, names[0], {}, done);
      if r.Ordered? {
        AllWithout(g, name, names[1..], r.names);
      }
    }
  }

  // ------------------------- starting from a part of the order it gives

  /** A visit that starts from a first part of what it would order gives the same order. */
  lemma {:induction false} VisitFromPart(g: Graph, n: string, visiting: set<string>, done: seq<string>, part: seq<string>)
    requires visiting <= g.Keys && DependenciesFirst(g, done) && Apart(visiting, done) && Visited(g, n, visiting, done).Ordered?
    requires done <= part <= Visited(g, n, visiting, done).names
    ensures Visited(g, n, visiting, part) == Visited(g, n, visiting, done)
    decreases |g.Keys - visiting|, 0
  {
    hide DependenciesFirst;
    if n !in done {
      Shrinks(g, n, visiting);
      var inside := visiting + {n};
      var r := DependenciesVisited(g, n, g[n], inside, done);
      DependenciesSound(g, n, g[n], inside, done);
      if |part| <= |r.names| {
        assert part <= r.names;
        DependenciesFromPart(g, n, g[n], inside, done, part);
      } else {
        assert part == r.names + [n];
      }
    }
  }

  lemma {:induction false} DependenciesFromPart(g: Graph, name: string, deps: seq<string>, visiting: set<string>, done: seq<string>, part: seq<string>)
    requires visiting <= g.Keys && DependenciesFirst(g, done) && Apart(visiting, done)
    requires DependenciesVisited(g, name, deps, visiting, done).Ordered?
    requires done <= part <= DependenciesVisited(g, name, deps, visiting, done).names
    ensures DependenciesVisited(g, name, deps, visiting, part) == DependenciesVisited(g, name, deps, visiting, done)
    decreases |g.Keys - visiting|, 1 + |deps|
  {
    hide DependenciesFirst;
    if |deps| > 0 {
      var r := Visited(g, deps[0], visiting, done);
      VisitSound(g, deps[0], visiting, done);
      DependenciesSound(g, name, deps[1..], visiting, r.names);
      if |part| <= |r.names| {
        assert part <= r.names;
        VisitFromPart(g, deps[0], visiting, done, part);
      } else {
        assert r.names <= part;
        DependenciesFromPart(g, name, deps[1..], visiting, r.names, part);
      }
    }
  }

  lemma {:induction false} AllFromPart(g: Graph, names: seq<string>, done: seq<string>, part: seq<string>)
    requires DependenciesFirst(g, done) && AllVisited(g, names, done).Ordered?
    requires done <= part <= AllVisited(g, names, done).names
    ensures AllVisited(g, names, part) == AllVisited(g, names, done)
  {
    hide DependenciesFirst;
    if |names| > 0 {
      var r := Visited(g, names[0], {}, done);
      VisitSound(g, names[0], {}, done);
      AllSound(g, names[1..], r.names);
      if |part| <= |r.names| {
        assert part <= r.names;
        VisitFromPart(g, names[0], {}, done, part);
      } else {
        assert r.names <= part;
        AllFromPart(g, names[1..], r.names, part);
      }
    }
  }

  // ----------------------------------------------------- the removal

  lemma {:induction false} AllConcat(g: Graph, a: seq<string>, b: seq<string>, done: seq<string>)
    ensures AllVisited(g, a + b, done) == match AllVisited(g, a, done) case Failed(f) => Failed(f) case Ordered(order) => AllVisited(g, b, order)
  {
    if |a| == 0 {
      assert a + b == b;
    } else {
      assert a + b == [a[0]] + (a[1..] + b);
      var r := Visited(g, a[0], {}, done);
      if r.Ordered? {
        AllConcat(g, a[1..], b, r.names);
      }
    }
  }

  /** What is ordered before a plugin, in the place where it was registered: the plugins registered earlier and what they need. */
  function OrderedBefore(g: Graph, earlier: seq<string>): Outcome {
    AllVisited(g, earlier, [])
  }

  /** The same and what the plugin needs itself. */
  function OrderedFor(g: Graph, name: string, before: seq<string>): Outcome
    requires name in g
  {
    DependenciesVisited(g, name, g[name], {name}, before)
  }

  ghost predicate RegisteredAround(g: Graph, earlier: seq<string>, name: string, later: seq<string>) {
    name in g && name !in earlier && name !in later && forall n :: n in earlier + [name] + later <==> n in g
  }

  /** Up to the plugin's own visit: what it finds ordered, and what its visit orders before it, none of which is the plugin. */
  lemma UpToVisit(g: Graph, earlier: seq<string>, name: string, later: seq<string>)
    requires RegisteredAround(g, earlier, name, later) && NobodyDepends(g, name)
    requires Resolved(g, earlier + [name] + later).Ordered?
    ensures OrderedBefore(g, earlier).Ordered? && name !in OrderedBefore(g, earlier).names
    ensures OrderedFor(g, name, OrderedBefore(g, earlier).names).Ordered?
    ensures name !in OrderedFor(g, name, OrderedBefore(g, earlier).names).names
    ensures OrderedBefore(g, earlier).names <= OrderedFor(g, name, OrderedBefore(g, earlier).names).names
    ensures DependenciesFirst(g, OrderedFor(g, name, OrderedBefore(g, earlier).names).names)
    ensures Resolved(g, earlier + [name] + later)
      == AllVisited(g, later, OrderedFor(g, name, OrderedBefore(g, earlier).names).names + [name])
  {
    hide AllVisited, DependenciesVisited, NobodyDepends;
    AllConcat(g, earlier + [name], later, []);
    AllConcat(g, earlier, [name], []);
    var before := OrderedBefore(g, earlier);
    AllWithout(g, name, earlier, []);
    AllSound(g, earlier, []);
    OneVisit(g, name, before.names);
    var none: set<string> := {};
    assert none + {name} == {name};
    DependenciesSound(g, name, g[name], {name}, before.names);
  }

  lemma OneVisit(g: Graph, name: string, done: seq<string>)
    ensures AllVisited(g, [name], done) == Visited(g, name, {}, done)
  {
    assert [name][1..] == [];
  }

  /** The plugin left out, the first order is the search of the later ones from there. */
  lemma OrderWithout(g: Graph, earlier: seq<string>, name: string, later: seq<string>)
    requires RegisteredAround(g, earlier, name, later) && NobodyDepends(g, name)
    requires Resolved(g, earlier + [name] + later).Ordered?
    requires OrderedBefore(g, earlier).Ordered? && OrderedFor(g, name, OrderedBefore(g, earlier).names).Ordered?
    ensures Without(Resolved(g, earlier + [name] + later), name)
      == AllVisited(g - {name}, later, OrderedFor(g, name, OrderedBefore(g, earlier).names).names)
    ensures Resolved(g - {name}, earlier + later) == AllVisited(g - {name}, later, OrderedBefore(g, earlier).names)
  {
    UpToVisit(g, earlier, name, later);
    hide AllVisited, DependenciesVisited, NobodyDepends, RegisteredAround, DependenciesFirst;
    var before := OrderedBefore(g, earlier).names;
    var needed := OrderedFor(g, name, before).names;
    assert name !in later && name !in earlier by { Around(g, earlier, name, later); }
    AllWithout(g, name, later, needed + [name]);
    DeletedOnce(needed, name, []);
    assert needed + [name] + [] == needed + [name] && needed + [] == needed;
    AllConcat(g - {name}, earlier, later, []);
    AllWithout(g, name, earlier, []);
    DeletedAbsent([], name);
    DeletedAbsent(before, name);
  }

  lemma Around(g: Graph, earlier: seq<string>, name: string, later: seq<string>)
    requires RegisteredAround(g, earlier, name, later)
    ensures name !in earlier && name !in later
    ensures Deleted(earlier + [name] + later, name) == earlier + later
    ensures forall n :: n in earlier + later <==> n in g - {name}
  {
    DeletedOnce(earlier, name, later);
  }

  lemma StillResolves(g: Graph, earlier: seq<string>, name: string, later: seq<string>)
    requires RegisteredAround(g, earlier, name, later) && NobodyDepends(g, name)
    requires Resolved(g, earlier + [name] + later).Ordered?
    ensures Resolved(g - {name}, earlier + later).Ordered?
  {
    hide Resolved, Cyclic, Topological, Justified;
    ResolvedExactly(g, earlier + [name] + later);
    Around(g, earlier, name, later);
    RemovalLeavesGap(g, name);
    StillAcyclic(g, name);
    ResolvedExactly(g - {name}, earlier + later);
  }

  /** After the removal of a plugin nobody depends on, destroy takes the others in the same order as if it were still there, exactly
      when what the plugin's visit had put in front of it is what the others would be ordered by anyway, in that order. */
  lemma OrderKeptExactly(g: Graph, earlier: seq<string>, name: string, later: seq<string>)
    requires RegisteredAround(g, earlier, name, later) && NobodyDepends(g, name)
    requires Resolved(g, earlier + [name] + later).Ordered?
    ensures OrderedBefore(g, earlier).Ordered? && OrderedFor(g, name, OrderedBefore(g, earlier).names).Ordered?
    ensures Resolved(g - {name}, earlier + later).Ordered?
    ensures Resolved(g - {name}, earlier + later) == Without(Resolved(g, earlier + [name] + later), name)
      <==> OrderedFor(g, name, OrderedBefore(g, earlier).names).names <= Resolved(g - {name}, earlier + later).names
  {
    InGraph(g, earlier, name, later);
    hide Resolved, OrderedBefore, OrderedFor, RegisteredAround, NobodyDepends, AllVisited, DependenciesFirst, Without;
    UpToVisit(g, earlier, name, later);
    StillResolves(g, earlier, name, later);
    OrderWithout(g, earlier, name, later);
    var before := OrderedBefore(g, earlier).names;
    var needed := OrderedFor(g, name, before).names;
    StillFirst(g, name, needed);
    PrefixFirst(g - {name}, before, needed);
    AllSound(g - {name}, later, needed);
    if needed <= Resolved(g - {name}, earlier + later).names {
      AllFromPart(g - {name}, later, before, needed);
    }
  }

  lemma StillFirst(g: Graph, name: string, order: seq<string>)
    requires DependenciesFirst(g, order) && name !in order
    ensures DependenciesFirst(g - {name}, order)
  {
    forall i | 0 <= i < |order| ensures order[i] in g - {name} && forall d :: d in (g - {name})[order[i]] ==> d in order[..i] {
      assert order[i] in order;
    }
  }

  lemma PrefixFirst(g: Graph, part: seq<string>, order: seq<string>)
    requires DependenciesFirst(g, order) && part <= order
    ensures DependenciesFirst(g, part)
  {
    forall i | 0 <= i < |part| ensures part[i] in g && forall d :: d in g[part[i]] ==> d in part[..i] {
      assert part[i] == order[i] && part[..i] == order[..i];
    }
  }

  lemma {:induction false} NothingNew(g: Graph, name: string, deps: seq<string>, visiting: set<string>, done: seq<string>)
    requires visiting <= g.Keys && (forall d :: d in deps ==> d in done) && (forall d :: d in done ==> d in g)
    ensures DependenciesVisited(g, name, deps, visiting, done) == Ordered(done)
    decreases |deps|
  {
    if |deps| > 0 {
      NothingNew(g, name, deps[1..], visiting, done);
    }
  }

  /** In particular the order is kept when all that the plugin needs was ordered before its own visit. */
  lemma NeedsWereOrdered(g: Graph, earlier: seq<string>, name: string, later: seq<string>)
    requires RegisteredAround(g, earlier, name, later) && NobodyDepends(g, name)
    requires Resolved(g, earlier + [name] + later).Ordered?
    requires OrderedBefore(g, earlier).Ordered? && forall d :: d in g[name] ==> d in OrderedBefore(g, earlier).names
    ensures Resolved(g - {name}, earlier + later) == Without(Resolved(g, earlier + [name] + later), name)
  {
    hide Resolved, RegisteredAround, NobodyDepends, AllVisited, Without;
    OrderKeptExactly(g, earlier, name, later);
    var before := OrderedBefore(g, earlier).names;
    UpToVisit(g, earlier, name, later);
    assert forall d :: d in before ==> d in g by {
      assert DependenciesFirst(g, []);
      AllSound(g, earlier, []);
    }
    hide DependenciesFirst;
    assert name in g by { InGraph(g, earlier, name, later); }
    NothingNew(g, name, g[name], {name}, before);
    OrderWithout(g, earlier, name, later);
    StillPrefix(g, earlier, name, later, before);
  }

  lemma InGraph(g: Graph, earlier: seq<string>, name: string, later: seq<string>)
    requires RegisteredAround(g, earlier, name, later)
    ensures name in g
  {
  }

  lemma StillPrefix(g: Graph, earlier: seq<string>, name: string, later: seq<string>, before: seq<string>)
    requires DependenciesFirst(g, before) && name !in before && AllVisited(g - {name}, later, before).Ordered?
    ensures before <= AllVisited(g - {name}, later, before).names
  {
    StillFirst(g, name, before);
    AllSound(g - {name}, later, before);
  }

  /** The plugin registered last can always be removed without changing the order. */
  lemma LastRegistered(g: Graph, earlier: seq<string>, name: string)
    requires RegisteredAround(g, earlier, name, []) && NobodyDepends(g, name)
    requires Resolved(g, earlier + [name] + []).Ordered?
    ensures Resolved(g - {name}, earlier + []) == Without(Resolved(g, earlier + [name] + []), name)
  {
    UpToVisit(g, earlier, name, []);
    hide Resolved, Cyclic, Topological, Justified, Without;
    ResolvedExactly(g, earlier + [name] + []);
    forall d | d in g[name] ensures d in earlier {
      assert d in g && d != name;
    }
    AllSound(g, earlier, []);
    NeedsWereOrdered(g, earlier, name, []);
  }
}
