/** The graph of module dependencies: reachability, the worklist over dependents, the depth-first order. */
module ModuleGraph {
  import opened Sequences

  type Edges = map<string, seq<string>>

  function Next(edges: Edges, p: string): seq<string> {
    if p in edges then edges[p] else []
  }

  predicate Edge(edges: Edges, p: string, q: string) {
    q in Next(edges, p)
  }

  // ---------------------------------------------------------------------------------------------
  // Reachability
  // ---------------------------------------------------------------------------------------------

  predicate IsPath(edges: Edges, path: seq<string>, a: string, b: string) {
    && path != [] && path[0] == a && path[|path| - 1] == b
    && forall i :: 0 < i < |path| ==> Edge(edges, path[i - 1], path[i])
  }

  ghost predicate Reaches(edges: Edges, a: string, b: string) {
    exists path :: IsPath(edges, path, a, b)
  }

  lemma ReachesItself(edges: Edges, a: string)
    ensures Reaches(edges, a, a)
  {
    assert IsPath(edges, [a], a, a);
  }

  lemma ReachesFirst(edges: Edges, a: string, b: string, c: string)
    requires Edge(edges, a, b) && Reaches(edges, b, c)
    ensures Reaches(edges, a, c)
  {
    var path :| IsPath(edges, path, b, c);
    assert IsPath(edges, [a] + path, a, c);
  }

  lemma ReachesLast(edges: Edges, a: string, b: string, c: string)
    requires Reaches(edges, a, b) && Edge(edges, b, c)
    ensures Reaches(edges, a, c)
  {
    var path :| IsPath(edges, path, a, b);
    assert IsPath(edges, path + [c], a, c);
  }

  lemma TailOfPath(edges: Edges, path: seq<string>, a: string, b: string)
    requires IsPath(edges, path, a, b) && |path| > 1
    ensures Edge(edges, a, path[1]) && IsPath(edges, path[1..], path[1], b)
  {
  }

  /** What is closed under successors contains everything it reaches. */
  lemma {:induction false} ForwardClosed(edges: Edges, closed: set<string>, path: seq<string>, a: string, b: string)
    requires forall p, q :: p in closed && Edge(edges, p, q) ==> q in closed
    requires a in closed && IsPath(edges, path, a, b)
    ensures b in closed
    decreases |path|
  {
    if |path| > 1 {
      TailOfPath(edges, path, a, b);
      ForwardClosed(edges, closed, path[1..], path[1], b);
    }
  }

  /** What is closed under predecessors contains everything that reaches it. */
  lemma {:induction false} BackwardClosed(edges: Edges, closed: set<string>, path: seq<string>, a: string, b: string)
    requires forall p, q :: q in closed && Edge(edges, p, q) ==> p in closed
    requires b in closed && IsPath(edges, path, a, b)
    ensures a in closed
    decreases |path|
  {
    if |path| > 1 {
      TailOfPath(edges, path, a, b);
      BackwardClosed(edges, closed, path[1..], path[1], b);
    }
  }

  /** Dropping the edges out of p changes nothing about what reaches p. */
  lemma DroppingOwnEdges(edges: Edges, p: string, a: string)
    ensures Reaches(edges[p := []], a, p) <==> Reaches(edges, a, p)
  {
    if Reaches(edges, a, p) {
      var path :| IsPath(edges, path, a, p);
      DropFromPath(edges, p, path, a);
    }
    if Reaches(edges[p := []], a, p) {
      var path :| IsPath(edges[p := []], path, a, p);
      assert IsPath(edges, path, a, p);
    }
  }

  lemma {:induction false} DropFromPath(edges: Edges, p: string, path: seq<string>, a: string)
    requires IsPath(edges, path, a, p)
    ensures Reaches(edges[p := []], a, p)
    decreases |path|
  {
    if a == p {
      ReachesItself(edges[p := []], p);
    } else {
      TailOfPath(edges, path, a, p);
      DropFromPath(edges, p, path[1..], path[1]);
      ReachesFirst(edges[p := []], a, path[1], p);
    }
  }

  /** What the module at position i depends on comes before it, unless the two are on a cycle. */
  ghost predicate FirstAt(edges: Edges, ordered: seq<string>, i: nat)
    requires i < |ordered|
  {
    forall q :: Edge(edges, ordered[i], q) ==> q in ordered[..i] || Reaches(edges, q, ordered[i])
  }

  ghost predicate DependenciesFirst(edges: Edges, ordered: seq<string>) {
    forall i: nat :: i < |ordered| ==> FirstAt(edges, ordered, i)
  }

  lemma AppendKeepsOrder(edges: Edges, ordered: seq<string>, p: string)
    requires DependenciesFirst(edges, ordered)
    requires forall q :: Edge(edges, p, q) ==> q in ordered || Reaches(edges, q, p)
    ensures DependenciesFirst(edges, ordered + [p])
  {
    var longer := ordered + [p];
    forall i: nat | i < |longer| ensures FirstAt(edges, longer, i) {
      if i < |ordered| {
        assert FirstAt(edges, ordered, i) && longer[..i] == ordered[..i];
      } else {
        assert longer[..i] == ordered;
      }
    }
  }

  // ---------------------------------------------------------------------------------------------
  // The graph with its reverse edges
  // ---------------------------------------------------------------------------------------------

  ghost predicate Inverse(dependencies: Edges, dependents: Edges) {
    forall p, q :: Edge(dependencies, p, q) <==> Edge(dependents, q, p)
  }

  ghost predicate DuplicateFree(edges: Edges) {
    forall p <- edges :: Distinct(edges[p])
  }

  function Without(s: seq<string>, x: string): seq<string> {
    if s == [] then []
    else Without(s[..|s| - 1], x) + (if s[|s| - 1] == x then [] else [s[|s| - 1]])
  }

  lemma {:induction false} WithoutOnly(s: seq<string>, x: string)
    requires Distinct(s)
    ensures Distinct(Without(s, x)) && forall y :: y in Without(s, x) <==> y in s && y != x
  {
    if s != [] {
      var rest, last := s[..|s| - 1], s[|s| - 1];
      WithoutOnly(rest, x);
      assert s == rest + [last];
      if last != x {
        assert last !in rest;
        DistinctSnoc(Without(rest, x), last);
      }
    }
  }

  class Graph {
    /** The dependencies of every module on record. */
    var dependencies: Edges
    var dependents: Edges

    ghost predicate Valid()
      reads this
    {
      Inverse(dependencies, dependents) && DuplicateFree(dependencies) && DuplicateFree(dependents)
    }

    constructor ()
      ensures Valid() && dependencies == map[]
    {
      dependencies, dependents := map[], map[];
    }

    /** Puts a module on record; records are never removed. */
    method GetOrCreate(path: string)
      requires Valid()
      modifies this
      ensures Valid()
      ensures dependencies == if path in old(dependencies) then old(dependencies) else old(dependencies)[path := []]
    {
      if path !in dependencies {
        forall p, q ensures Edge(dependencies[path := []], p, q) == Edge(dependencies, p, q) {
        }
        dependencies := dependencies[path := []];
      }
    }

    method AddDependency(path: string, dependency: string)
      requires Valid() && path in dependencies
      modifies this
      ensures Valid()
      ensures dependencies.Keys == old(dependencies).Keys
      ensures forall p :: p != path ==> Next(dependencies, p) == Next(old(dependencies), p)
      ensures forall q :: Edge(dependencies, path, q) <==> Edge(old(dependencies), path, q) || q == dependency
    {
      if dependency !in dependencies[path] {
        var known := Next(dependents, dependency);
        assert !Edge(dependencies, path, dependency) && !Edge(dependents, dependency, path);
        DistinctSnoc(known, path);
        DistinctSnoc(dependencies[path], dependency);
        dependents := dependents[dependency := known + [path]];
        dependencies := dependencies[path := dependencies[path] + [dependency]];
        forall p, q ensures Edge(dependencies, p, q) <==> Edge(dependents, q, p) {
          assert Edge(old(dependencies), p, q) <==> Edge(old(dependents), q, p);
        }
      }
    }

    method ResetDependencies(path: string)
      requires Valid() && path in dependencies
      modifies this
      ensures Valid() && dependencies == old(dependencies)[path := []]
    {
      var targets := dependencies[path];
      for i := 0 to |targets|
        invariant dependencies == old(dependencies) && DuplicateFree(dependents)
        invariant forall p, q :: Edge(dependents, q, p)
                                 <==> Edge(dependencies, p, q) && !(p == path && q in targets[..i])
      {
        ghost var before := dependents;
        var target := targets[i];
        if target in dependents {
          var left := Without(dependents[target], path);
          WithoutOnly(dependents[target], path);
          dependents := if left == [] then dependents - {target} else dependents[target := left];
        }
        assert targets[..i + 1] == targets[..i] + [target];
        forall p, q
          ensures Edge(dependents, q, p) <==> Edge(dependencies, p, q) && !(p == path && q in targets[..i + 1])
        {
          assert Edge(before, q, p) <==> Edge(dependencies, p, q) && !(p == path && q in targets[..i]);
          assert q != target ==> Next(dependents, q) == Next(before, q);
          assert Edge(dependents, target, p) <==> Edge(before, target, p) && p != path;
        }
      }
      assert targets[..|targets|] == targets;
      dependencies := dependencies[path := []];
      forall p, q ensures Edge(dependencies, p, q) <==> Edge(dependents, q, p) {
        assert Edge(old(dependencies), path, q) <==> q in targets;
      }
    }

    /** The module itself and everything that depends on it, directly or not; cycles do no harm. */
    method CollectDependentClosure(path: string) returns (pending: seq<string>)
      requires Valid()
      ensures Distinct(pending)
      ensures forall m :: m in pending <==> Reaches(dependencies, m, path)
    {
      pending := [path];
      var queued := {path};
      ghost var universe := dependencies.Keys + {path};
      ReachesItself(dependencies, path);
      var index := 0;
      while index < |pending|
        invariant 0 <= index <= |pending| && Distinct(pending) && path in pending
        invariant forall m :: m in queued <==> m in pending
        invariant queued <= universe
        invariant forall m <- pending :: Reaches(dependencies, m, path)
        invariant forall k, d :: 0 <= k < index && Edge(dependencies, d, pending[k]) ==> d in pending
        decreases universe - queued, |pending| - index
      {
        var current := pending[index];
        var next := Next(dependents, current);
        ghost var queuedBefore, pendingBefore := queued, pending;
        for j := 0 to |next|
          invariant Distinct(pending) && pendingBefore <= pending
          invariant forall m :: m in queued <==> m in pending
          invariant queuedBefore <= queued <= universe && (queued == queuedBefore ==> pending == pendingBefore)
          invariant forall m <- pending :: Reaches(dependencies, m, path)
          invariant forall d <- next[..j] :: d in pending
        {
          if next[j] !in queued {
            assert Edge(dependents, current, next[j]) && Edge(dependencies, next[j], current);
            ReachesFirst(dependencies, next[j], current, path);
            DistinctSnoc(pending, next[j]);
            queued := queued + {next[j]};
            pending := pending + [next[j]];
          }
        }
        forall d | Edge(dependencies, d, current) ensures d in pending {
          assert Edge(dependents, current, d);
          assert next[..|next|] == next;
        }
        index := index + 1;
      }
      forall m | Reaches(dependencies, m, path) ensures m in pending {
        var chain :| IsPath(dependencies, chain, m, path);
        BackwardClosed(dependencies, queued, chain, m, path);
      }
    }

    /** One call of the depth-first search: `visited` grows by exactly the modules that are appended, all of
        them reachable, and what they depend on has been visited as well. */
    method CollectPostOrder(path: string, visited: set<string>, ordered: seq<string>, ghost universe: set<string>)
        returns (nowVisited: set<string>, nowOrdered: seq<string>)
      requires forall p, q :: p in universe && Edge(dependencies, p, q) ==> q in universe
      requires path in universe && visited <= universe
      requires Distinct(ordered) && forall m <- ordered :: m in visited
      requires forall m :: m in visited && m !in ordered ==> Reaches(dependencies, m, path)
      requires DependenciesFirst(dependencies, ordered)
      ensures visited + {path} <= nowVisited <= universe
      ensures forall m :: m in nowVisited && m !in visited ==> Reaches(dependencies, path, m)
      ensures forall p, q :: p in nowVisited && p !in visited && Edge(dependencies, p, q) ==> q in nowVisited
      ensures Distinct(nowOrdered)
      ensures forall m :: m in nowOrdered <==> m in ordered || (m in nowVisited && m !in visited)
      ensures DependenciesFirst(dependencies, nowOrdered)
      decreases universe - visited
    {
      if path in visited {
        return visited, ordered;
      }
      nowVisited, nowOrdered := visited + {path}, ordered;
      var next := Next(dependencies, path);
      ReachesItself(dependencies, path);
      for i := 0 to |next|
        invariant visited + {path} <= nowVisited <= universe
        invariant forall m :: m in nowVisited && m !in visited ==> Reaches(dependencies, path, m)
        invariant forall p, q :: p in nowVisited && p !in visited && p != path && Edge(dependencies, p, q)
                                 ==> q in nowVisited
        invariant forall q <- next[..i] :: q in nowVisited
        invariant Distinct(nowOrdered)
        invariant forall m :: m in nowOrdered <==> m in ordered || (m in nowVisited && m !in visited && m != path)
        invariant DependenciesFirst(dependencies, nowOrdered)
      {
        assert Edge(dependencies, path, next[i]);
        forall m | m in nowVisited && m !in nowOrdered ensures Reaches(dependencies, m, next[i]) {
          ReachesLast(dependencies, m, path, next[i]);
        }
        ghost var before := nowVisited;
        nowVisited, nowOrdered := CollectPostOrder(next[i], nowVisited, nowOrdered, universe);
        forall m | m in nowVisited && m !in before ensures Reaches(dependencies, path, m) {
          ReachesFirst(dependencies, path, next[i], m);
        }
      }
      assert next[..|next|] == next;
      DistinctSnoc(nowOrdered, path);
      AppendKeepsOrder(dependencies, nowOrdered, path);
      nowOrdered := nowOrdered + [path];
    }

    /** Everything a module on record reaches, each once, and after what it depends on as far as there is no
        cycle. */
    method PostOrderFrom(path: string) returns (ordered: seq<string>)
      ensures path !in dependencies ==> ordered == []
      ensures path in dependencies ==> Distinct(ordered)
                                       && forall m :: m in ordered <==> Reaches(dependencies, path, m)
      ensures DependenciesFirst(dependencies, ordered)
    {
      if path !in dependencies {
        return [];
      }
      ghost var universe := dependencies.Keys + set p, q | p in dependencies && q in dependencies[p] :: q;
      var visited;
      visited, ordered := CollectPostOrder(path, {}, [], universe);
      forall m | Reaches(dependencies, path, m) ensures m in ordered {
        var chain :| IsPath(dependencies, chain, path, m);
        ForwardClosed(dependencies, visited, chain, path, m);
      }
    }

    method BelongsToEntrySet(entryPaths: seq<string>, path: string) returns (r: bool)
      ensures r <==> InEntrySet(dependencies, entryPaths, path)
    {
      for i := 0 to |entryPaths|
        invariant !InEntrySet(dependencies, entryPaths[..i], path)
      {
        var reachable := PostOrderFrom(entryPaths[i]);
        assert entryPaths[..i + 1] == entryPaths[..i] + [entryPaths[i]];
        if path in reachable {
          assert entryPaths[i] in entryPaths && Reaches(dependencies, entryPaths[i], path);
          return true;
        }
      }
      assert entryPaths[..|entryPaths|] == entryPaths;
      r := false;
    }
  }

  /** Some entry that is on record reaches the module. */
  ghost predicate InEntrySet(edges: Edges, entryPaths: seq<string>, path: string) {
    exists e :: e in entryPaths && e in edges && Reaches(edges, e, path)
  }
}
