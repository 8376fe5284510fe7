/** The three-colour depth-first search of validation.go, `detectCycle`. */
module Cycles {
  import opened Text
  import opened Schemas

  datatype Colour = Visiting | Visited

  /** The state the recursive `visit` closure shares. A name without a colour is unvisited. The ghost
      fields are the names on the recursion stack, the names finished so far in the order they
      finished, and every name ever expanded. */
  class Search {
    const graph: Graph
    var visitState: map<string, Colour>
    ghost var path: seq<string>
    ghost var finished: seq<string>
    ghost var expanded: seq<string>

    constructor (graph: Graph)
      requires Closed(graph)
      ensures Valid() && this.graph == graph && path == [] && finished == [] && expanded == []
    {
      this.graph := graph;
      visitState := map[];
      path, finished, expanded := [], [], [];
    }

    ghost predicate Valid()
      reads this
    {
      Consistent(graph, visitState, path, finished, expanded)
    }

    /** The next name may be expanded below the current stack. */
    ghost predicate Follows(name: string)
      reads this
    {
      Extends(graph, path, name)
    }

    method Visit(name: string) returns (err: Option<string>)
      requires Valid() && Follows(name)
      modifies this
      ensures Distinct(expanded) && forall n :: n in expanded ==> n in graph
      ensures err.None? ==> Valid() && path == old(path) && old(visitState.Keys) <= visitState.Keys
      ensures err.None? ==> (forall n :: n in old(finished) ==> n in finished) && name in finished
      ensures err.Some? ==> old(path) <= path && forall n :: n in old(finished) ==> n in finished
      ensures err.Some? ==> Stuck(graph, finished, path, err.value, |old(path)|)
      ensures err.Some? ==> NextOn(path, |old(path)|, err.value) == name
      decreases graph.Keys - visitState.Keys, 1
    {
      hide IsWalk, InDependencyOrder;
      if name in visitState && visitState[name] == Visiting {
        return Some(name);
      }
      if name in visitState && visitState[name] == Visited {
        return None;
      }
      err := Expand(name);
    }

    /** The part of `visit` after the switch on the colour. */
    method Expand(name: string) returns (err: Option<string>)
      requires Valid() && Follows(name) && name !in visitState
      modifies this
      ensures Distinct(expanded) && forall n :: n in expanded ==> n in graph
      ensures err.None? ==> Valid() && path == old(path) && old(visitState.Keys) <= visitState.Keys
      ensures err.None? ==> (forall n :: n in old(finished) ==> n in finished) && name in finished
      ensures err.Some? ==> old(path) <= path && forall n :: n in old(finished) ==> n in finished
      ensures err.Some? ==> Stuck(graph, finished, path, err.value, |old(path)|)
      ensures err.Some? ==> NextOn(path, |old(path)|, err.value) == name
      decreases graph.Keys - visitState.Keys, 0
    {
      hide Consistent, Distinct, Stuck;
      ghost var stack := path;
      Entering(graph, visitState, path, finished, expanded, name);
      visitState := visitState[name := Visiting];
      path := path + [name];
      expanded := expanded + [name];
      var dependencies := graph[name];
      for i := 0 to |dependencies|
        invariant Valid() && path == stack + [name]
        invariant old(visitState.Keys) + {name} <= visitState.Keys
        invariant forall n :: n in old(finished) ==> n in finished
        invariant forall d :: d in dependencies[..i] ==> d in finished
      {
        Descending(graph, visitState, path, finished, expanded, dependencies[i]);
        err := Visit(dependencies[i]);
        if err.Some? {
          StuckBelow(graph, finished, path, err.value, stack, name, i);
          return;
        }
        assert dependencies[..i + 1] == dependencies[..i] + [dependencies[i]];
      }
      assert dependencies[..|dependencies|] == dependencies;
      Leaving(graph, visitState, stack, finished, expanded, name);
      visitState := visitState[name := Visited];
      path := stack;
      finished := finished + [name];
      return None;
    }
  }

  // ----- which parameter is reported -----

  function NextOn(path: seq<string>, m: nat, name: string): string {
    if m < |path| then path[m] else name
  }

  /** The search went from `n` to `d` after finishing all dependencies listed before. */
  ghost predicate NextScanned(g: Graph, finished: seq<string>, n: string, d: string) {
    n in g && exists k :: 0 <= k < |g[n]| && g[n][k] == d && forall j :: 0 <= j < k ==> g[n][j] in finished
  }

  /** The search has failed with this stack, whose last name leads back to `name` on it. */
  ghost predicate Stuck(g: Graph, finished: seq<string>, path: seq<string>, name: string, from: nat) {
    && path != [] && IsWalk(g, path) && Distinct(path) && name in path
    && path[|path| - 1] in g && name in g[path[|path| - 1]]
    && InDependencyOrder(g, finished)
    && forall m :: from <= m < |path| ==> NextScanned(g, finished, path[m], NextOn(path, m + 1, name))
  }

  lemma StuckBelow(g: Graph, finished: seq<string>, path: seq<string>, name: string, stack: seq<string>,
                   n: string, i: nat)
    requires Stuck(g, finished, path, name, |stack| + 1) && stack + [n] <= path && n in g
    requires i < |g[n]| && g[n][i] == NextOn(path, |stack| + 1, name)
    requires forall d :: d in g[n][..i] ==> d in finished
    ensures Stuck(g, finished, path, name, |stack|)
  {
    assert path[|stack|] == n;
    forall j | 0 <= j < i ensures g[n][j] in finished {
      assert g[n][j] in g[n][..i];
    }
  }

  /** A cycle can be reached from the parameter. */
  ghost predicate Doomed(g: Graph, n: string) {
    Reaches(g, n, n) || exists m :: Reaches(g, n, m) && Reaches(g, m, m)
  }

  /** The first dependency from which a cycle can be reached. */
  ghost predicate FirstDoomed(g: Graph, n: string, d: string) {
    n in g && exists k :: 0 <= k < |g[n]| && g[n][k] == d && Doomed(g, d) &&
                          forall j :: 0 <= j < k ==> !Doomed(g, g[n][j])
  }

  /** Going from each name to its first dependency that leads to a cycle, `name` is the first to come twice. */
  ghost predicate Trail(g: Graph, trail: seq<string>, name: string) {
    && trail != [] && Distinct(trail) && name in trail
    && Doomed(g, trail[0])
    && forall m :: 0 <= m < |trail| ==> FirstDoomed(g, trail[m], NextOn(trail, m + 1, name))
  }

  /** The trail starts from the first declared parameter that leads to a cycle. */
  ghost predicate ReportedFrom(ps: seq<TableParameter>, i: int, trail: seq<string>, name: string) {
    && 0 <= i < |ps| && Trail(Dependencies(ps), trail, name) && trail[0] == ps[i].name
    && forall j :: 0 <= j < i ==> !Doomed(Dependencies(ps), ps[j].name)
  }

  ghost predicate ReportsCycle(ps: seq<TableParameter>, name: string) {
    exists i, trail :: ReportedFrom(ps, i, trail, name)
  }

  /** Nothing that the search has finished leads to a cycle. */
  lemma FinishedIsSafe(g: Graph, finished: seq<string>, n: string)
    requires InDependencyOrder(g, finished) && n in finished
    ensures !Doomed(g, n)
  {
    forall m | Reaches(g, n, m) ensures m in finished {
      var walk :| Connects(g, n, m, walk);
      var i :| 0 <= i < |finished| && finished[i] == n;
      WalksGoBack(g, finished, walk, i, |walk| - 1);
    }
    forall m | m in finished ensures !Reaches(g, m, m) {
      if walk :| Connects(g, m, m, walk) {
        var i :| 0 <= i < |finished| && finished[i] == m;
        WalksGoBack(g, finished, walk, i, |walk| - 1);
      }
    }
  }

  /** Every name on the stack leads to the cycle that was found. */
  lemma StackIsDoomed(g: Graph, path: seq<string>, name: string, i: nat)
    requires i < |path| && IsWalk(g, path) && name in path && name in g[path[|path| - 1]]
    ensures Doomed(g, path[i]) && Doomed(g, name)
  {
    BackEdgeIsACycle(g, path, name);
    var walk := path[i..] + [name];
    assert Connects(g, path[i], name, walk);
  }

  lemma StuckIsATrail(g: Graph, finished: seq<string>, path: seq<string>, name: string)
    requires Stuck(g, finished, path, name, 0)
    ensures Trail(g, path, name)
  {
    hide Doomed, IsWalk, InDependencyOrder;
    StackIsDoomed(g, path, name, 0);
    forall m | 0 <= m < |path| ensures FirstDoomed(g, path[m], NextOn(path, m + 1, name)) {
      var d := NextOn(path, m + 1, name);
      assert NextScanned(g, finished, path[m], d);
      var k :| 0 <= k < |g[path[m]]| && g[path[m]][k] == d && forall j :: 0 <= j < k ==> g[path[m]][j] in finished;
      StackIsDoomed(g, path, name, if m + 1 < |path| then m + 1 else m);
      forall j | 0 <= j < k ensures !Doomed(g, g[path[m]][j]) {
        FinishedIsSafe(g, finished, g[path[m]][j]);
      }
    }
  }

  lemma OneFirstDoomed(g: Graph, n: string, d: string, e: string)
    requires FirstDoomed(g, n, d) && FirstDoomed(g, n, e)
    ensures d == e
  {
    hide Doomed;
    var k :| 0 <= k < |g[n]| && g[n][k] == d && Doomed(g, d) && forall j :: 0 <= j < k ==> !Doomed(g, g[n][j]);
    var m :| 0 <= m < |g[n]| && g[n][m] == e && Doomed(g, e) && forall j :: 0 <= j < m ==> !Doomed(g, g[n][j]);
  }

  lemma TrailStep(g: Graph, trail: seq<string>, name: string, n: nat)
    requires Trail(g, trail, name) && n < |trail|
    ensures FirstDoomed(g, trail[n], NextOn(trail, n + 1, name))
  {
  }

  lemma {:induction false} TrailsAgree(g: Graph, a: seq<string>, x: string, b: seq<string>, y: string, n: nat)
    requires Trail(g, a, x) && Trail(g, b, y) && a[0] == b[0] && n < |a| && n < |b|
    ensures a[n] == b[n] && NextOn(a, n + 1, x) == NextOn(b, n + 1, y)
  {
    hide FirstDoomed, Doomed, Distinct, Trail;
    if n > 0 {
      TrailsAgree(g, a, x, b, y, n - 1);
    }
    TrailStep(g, a, x, n);
    TrailStep(g, b, y, n);
    OneFirstDoomed(g, a[n], NextOn(a, n + 1, x), NextOn(b, n + 1, y));
  }

  lemma ShorterTrail(g: Graph, a: seq<string>, x: string, b: seq<string>, y: string)
    requires Trail(g, a, x) && Trail(g, b, y) && a[0] == b[0] && |a| <= |b|
    ensures x == y
  {
    hide FirstDoomed, Doomed;
    TrailsAgree(g, a, x, b, y, |a| - 1);
    if |a| < |b| {
      var i :| 0 <= i < |a| && a[i] == x;
      TrailsAgree(g, a, x, b, y, i);
    }
  }

  /** The reported parameter is determined by the parameters and their order. */
  lemma ReportIsUnique(ps: seq<TableParameter>, x: string, y: string)
    requires ReportsCycle(ps, x) && ReportsCycle(ps, y)
    ensures x == y
  {
    hide FirstDoomed, Doomed, Distinct, Dependencies;
    var i, a :| ReportedFrom(ps, i, a, x);
    var j, b :| ReportedFrom(ps, j, b, y);
    if |a| <= |b| {
      ShorterTrail(Dependencies(ps), a, x, b, y);
    } else {
      ShorterTrail(Dependencies(ps), b, y, a, x);
    }
  }

  // ----- the invariant of the search -----

  ghost predicate Consistent(g: Graph, colours: map<string, Colour>, path: seq<string>, finished: seq<string>,
                             expanded: seq<string>) {
    && Closed(g)
    && colours.Keys <= g.Keys
    && (path != [] ==> IsWalk(g, path)) && Distinct(path)
    && (forall n :: n in path <==> n in colours && colours[n] == Visiting)
    && InDependencyOrder(g, finished)
    && (forall n :: n in finished <==> n in colours && colours[n] == Visited)
    && Distinct(expanded)
    && (forall n :: n in expanded <==> n in colours)
  }

  ghost predicate Extends(g: Graph, path: seq<string>, name: string) {
    name in g && (path != [] ==> path[|path| - 1] in g && name in g[path[|path| - 1]])
  }

  lemma Entering(g: Graph, colours: map<string, Colour>, path: seq<string>, finished: seq<string>,
                 expanded: seq<string>, name: string)
    requires Consistent(g, colours, path, finished, expanded) && Extends(g, path, name) && name !in colours
    ensures Consistent(g, colours[name := Visiting], path + [name], finished, expanded + [name])
    ensures name !in path
  {
    hide InDependencyOrder;
  }

  lemma Descending(g: Graph, colours: map<string, Colour>, path: seq<string>, finished: seq<string>,
                   expanded: seq<string>, next: string)
    requires Consistent(g, colours, path, finished, expanded) && path != [] && path[|path| - 1] in g
    requires next in g[path[|path| - 1]]
    ensures Extends(g, path, next)
  {
  }

  lemma Leaving(g: Graph, colours: map<string, Colour>, stack: seq<string>, finished: seq<string>,
                expanded: seq<string>, name: string)
    requires Consistent(g, colours, stack + [name], finished, expanded) && name !in stack && name in g
    requires forall d :: d in g[name] ==> d in finished
    ensures Consistent(g, colours[name := Visited], stack, finished + [name], expanded)
    ensures Distinct(expanded) && forall n :: n in expanded ==> n in g
  {
    hide InDependencyOrder, IsWalk;
    var path := stack + [name];
    assert name in path;
    assert forall n :: n in path <==> n in stack || n == name;
    assert forall i :: 0 <= i < |stack| ==> path[i] == stack[i];
    assert forall n :: n in finished + [name] <==> n in finished || n == name;
    OrderGrows(g, finished, name);
    if stack != [] {
      WalkPrefix(g, stack, name);
    }
  }

  lemma WalkPrefix(g: Graph, stack: seq<string>, name: string)
    requires stack != [] && IsWalk(g, stack + [name])
    ensures IsWalk(g, stack)
  {
    var path := stack + [name];
    forall i | 0 <= i < |stack| ensures stack[i] in g {
      assert path[i] in g;
    }
    forall i | 0 <= i < |stack| - 1 ensures stack[i + 1] in g[stack[i]] {
      assert path[i + 1] in g[path[i]];
    }
  }

  /** A name whose dependencies are all listed may be listed next. */
  lemma OrderGrows(g: Graph, order: seq<string>, name: string)
    requires InDependencyOrder(g, order) && name in g && name !in order
    requires forall d :: d in g[name] ==> d in order
    ensures InDependencyOrder(g, order + [name])
  {
    var more := order + [name];
    forall i, d | 0 <= i < |more| && d in g[more[i]] ensures d in more[..i] {
      if i < |order| {
        assert more[..i] == order[..i];
      } else {
        assert more[..i] == order;
      }
    }
  }

  lemma BackEdgeIsACycle(g: Graph, path: seq<string>, name: string)
    requires path != [] && IsWalk(g, path) && name in path && name in g[path[|path| - 1]]
    ensures Reaches(g, name, name)
  {
    var i :| 0 <= i < |path| && path[i] == name;
    var walk := path[i..] + [name];
    assert Connects(g, name, name, walk);
  }

  /** `detectCycle`. The caller has checked that every dependency names a parameter; otherwise the
      code would dereference a missing entry. `expanded` is the list of names whose dependencies
      were scanned, in that order: each at most once, and on success each exactly once. `order` is a
      topological order, the names in the order their search finished. */
  method DetectCycle(ps: seq<TableParameter>)
    returns (err: Option<string>, ghost order: seq<string>, ghost expanded: seq<string>)
    requires Closed(Dependencies(ps))
    ensures err.None? <==> Acyclic(Dependencies(ps))
    ensures err.None? ==> IsTopologicalOrder(Dependencies(ps), order)
    ensures err.Some? ==> Reaches(Dependencies(ps), err.value, err.value) && ReportsCycle(ps, err.value)
    ensures Distinct(expanded) && forall n :: n in expanded ==> n in Dependencies(ps)
    ensures err.None? ==> forall n :: n in Dependencies(ps) ==> n in expanded
  {
    hide Consistent, Reaches, InDependencyOrder, Distinct, ByName;
    var tableParameterByName := IndexByName(ps);
    var search := new Search(DependsOn(tableParameterByName));
    for i := 0 to |ps|
      invariant search.Valid() && search.graph == Dependencies(ps) && search.path == []
      invariant forall j :: 0 <= j < i ==> ps[j].name in search.finished
    {
      err := search.Visit(ps[i].name);
      if err.Some? {
        CycleIsReported(ps, i, search.finished, search.path, err.value);
        return err, search.finished, search.expanded;
      }
    }
    order, expanded := search.finished, search.expanded;
    AllFinished(search.graph, search.visitState, order, expanded);
    OrderedIsAcyclic(Dependencies(ps), order);
    return None, order, expanded;
  }

  lemma CycleIsReported(ps: seq<TableParameter>, i: nat, finished: seq<string>, path: seq<string>, name: string)
    requires i < |ps| && Stuck(Dependencies(ps), finished, path, name, 0) && path[0] == ps[i].name
    requires forall j :: 0 <= j < i ==> ps[j].name in finished
    ensures Reaches(Dependencies(ps), name, name) && ReportsCycle(ps, name)
  {
    hide Doomed, Reaches, Dependencies;
    var g := Dependencies(ps);
    BackEdgeIsACycle(g, path, name);
    StuckIsATrail(g, finished, path, name);
    forall j | 0 <= j < i ensures !Doomed(g, ps[j].name) {
      FinishedIsSafe(g, finished, ps[j].name);
    }
    assert ReportedFrom(ps, i, path, name);
  }

  /** With an empty stack, finishing every name leaves a topological order. */
  lemma AllFinished(g: Graph, colours: map<string, Colour>, finished: seq<string>, expanded: seq<string>)
    requires Consistent(g, colours, [], finished, expanded)
    requires forall n :: n in g ==> n in finished
    ensures IsTopologicalOrder(g, finished)
    ensures Distinct(expanded) && forall n :: n in expanded <==> n in g
  {
  }
}
