/**
 * alternativeRoute and its helpers: the route-diversity test, the choice of
 * the cheapest sufficiently different candidate, and the search for one
 * candidate per edge of the primary route with that edge excluded.
 */
module Alternatives {
  import opened RoadGraph
  import opened Frontier
  import Dijkstra
  import AStar

  /** How many entries of `shortest` (counted with repetitions) do not occur in `path`. */
  function Diff(shortest: seq<Node>, path: seq<Node>): (d: nat)
    ensures d <= |shortest|
    ensures d == 0 <==> forall i :: 0 <= i < |shortest| ==> shortest[i] in path
  {
    if |shortest| == 0 then 0
    else
      var rest := Diff(shortest[..|shortest| - 1], path);
      assert forall i :: 0 <= i < |shortest| - 1 ==> shortest[..|shortest| - 1][i] == shortest[i];
      if shortest[|shortest| - 1] in path then rest else rest + 1
  }

  /**
   * isSufficientDiff: more than a fifth of the path's length is made of
   * entries of `shortest` that the path avoids.
   */
  predicate IsSufficientDiff(shortest: seq<Node>, path: seq<Node>)
    ensures IsSufficientDiff(shortest, path) ==> exists i :: 0 <= i < |shortest| && shortest[i] !in path
    ensures Diff(shortest, path) == 0 ==> !IsSufficientDiff(shortest, path)
  {
    5 * Diff(shortest, path) > |path|
  }

  /**
   * The test is the source's comparison diff / |path| > 0.2. Over an empty
   * path that quotient is +infinity when diff > 0 and NaN (never greater)
   * when diff = 0.
   */
  lemma SufficientDiffRatio(shortest: seq<Node>, path: seq<Node>)
    ensures |path| > 0 ==>
      (IsSufficientDiff(shortest, path) <==> (Diff(shortest, path) as real) / (|path| as real) > 0.2)
    ensures |path| == 0 ==> (IsSufficientDiff(shortest, path) <==> Diff(shortest, path) > 0)
  {
    if |path| > 0 {
      QuotientAboveFifth(Diff(shortest, path) as real, |path| as real);
    }
  }

  lemma QuotientAboveFifth(d: real, n: real)
    requires n > 0.0
    ensures d / n > 0.2 <==> 5.0 * d > n
  {
    var q := d / n;
    assert q * n == d;
    if q > 0.2 {
      assert (q - 0.2) * n > 0.0;
    } else {
      assert (0.2 - q) * n >= 0.0;
    }
  }

  /** The candidates that pass the diversity test, in their original order. */
  function Sufficient(shortest: seq<Node>, paths: seq<seq<Node>>): (r: seq<seq<Node>>)
    ensures |r| <= |paths|
  {
    if |paths| == 0 then []
    else
      var rest := Sufficient(shortest, paths[..|paths| - 1]);
      if IsSufficientDiff(shortest, paths[|paths| - 1]) then rest + [paths[|paths| - 1]] else rest
  }

  /** A candidate survives exactly when it passes the diversity test. */
  lemma {:induction false} SufficientMembers(shortest: seq<Node>, paths: seq<seq<Node>>, p: seq<Node>)
    ensures p in Sufficient(shortest, paths) <==> p in paths && IsSufficientDiff(shortest, p)
    decreases |paths|
  {
    if |paths| > 0 {
      var init := paths[..|paths| - 1];
      SufficientMembers(shortest, init, p);
      assert paths == init + [paths[|paths| - 1]];
    }
  }

  /** Filtering distributes over concatenation, so the survivors keep their relative order. */
  lemma {:induction false} SufficientAppend(shortest: seq<Node>, a: seq<seq<Node>>, b: seq<seq<Node>>)
    ensures Sufficient(shortest, a + b) == Sufficient(shortest, a) + Sufficient(shortest, b)
    decreases |b|
  {
    if |b| == 0 {
      assert a + b == a;
    } else {
      SufficientAppend(shortest, a, b[..|b| - 1]);
      assert (a + b)[..|a + b| - 1] == a + b[..|b| - 1];
    }
  }

  /**
   * The index of the cheapest path, the earliest one among equally cheap
   * paths: the running minimum that is replaced only by a strictly cheaper path.
   */
  function CheapestIndex(g: Graph, paths: seq<seq<Node>>): (k: nat)
    requires |paths| > 0
    ensures k < |paths|
    ensures forall j :: 0 <= j < |paths| ==> PathCost(g, paths[k]) <= PathCost(g, paths[j])
    ensures forall j :: 0 <= j < k ==> PathCost(g, paths[j]) > PathCost(g, paths[k])
  {
    if |paths| == 1 then 0
    else
      var k := CheapestIndex(g, paths[..|paths| - 1]);
      assert forall j :: 0 <= j < |paths| - 1 ==> paths[..|paths| - 1][j] == paths[j];
      if PathCost(g, paths[|paths| - 1]) < PathCost(g, paths[k]) then |paths| - 1 else k
  }

  /** The path getBestAltPath picks from the survivors: none when there is none, else the cheapest. */
  function Best(g: Graph, survivors: seq<seq<Node>>): seq<Node>
  {
    if |survivors| == 0 then [] else survivors[CheapestIndex(g, survivors)]
  }

  /**
   * getBestAltPath: removes, in place, the candidates that fail the
   * diversity test (`survivors` is what the caller's vector holds afterwards)
   * and returns the cheapest survivor, the earliest on ties, or the empty
   * path when none survives.
   */
  method GetBestAltPath(g: Graph, alterPaths: seq<seq<Node>>, shortestPath: seq<Node>)
    returns (best: seq<Node>, survivors: seq<seq<Node>>)
    ensures survivors == Sufficient(shortestPath, alterPaths)
    ensures |survivors| == 0 ==> best == []
    ensures |survivors| > 0 ==>
      && best in survivors
      && (forall j :: 0 <= j < |survivors| ==> PathCost(g, best) <= PathCost(g, survivors[j]))
    ensures best == Best(g, survivors)
  {
    survivors := RemoveInsufficient(alterPaths, shortestPath);
    if |survivors| == 0 {
      return [], survivors;
    }
    var minCost := PathCost(g, survivors[0]);
    var minIndex := 0;
    var i := 1;
    while i < |survivors|
      invariant 1 <= i <= |survivors|
      invariant minIndex == CheapestIndex(g, survivors[..i]) && minCost == PathCost(g, survivors[minIndex])
    {
      assert survivors[..i + 1][..i] == survivors[..i];
      var cost := PathCost(g, survivors[i]);
      if cost < minCost {
        minCost := cost;
        minIndex := i;
      }
      i := i + 1;
    }
    assert survivors[..i] == survivors;
    best := survivors[minIndex];
  }

  /** The removal loop of getBestAltPath: drops each candidate that fails the test, in place. */
  method RemoveInsufficient(alterPaths: seq<seq<Node>>, shortestPath: seq<Node>) returns (survivors: seq<seq<Node>>)
    ensures survivors == Sufficient(shortestPath, alterPaths)
  {
    survivors := alterPaths;
    var i := 0;
    ghost var done := 0;
    while i < |survivors|
      invariant 0 <= i <= |survivors| && 0 <= done <= |alterPaths|
      invariant survivors[..i] == Sufficient(shortestPath, alterPaths[..done])
      invariant survivors[i..] == alterPaths[done..]
      decreases |survivors| - i
    {
      assert alterPaths[..done + 1] == alterPaths[..done] + [alterPaths[done]];
      assert alterPaths[..done + 1][..done] == alterPaths[..done];
      assert survivors[i] == alterPaths[done];
      if !IsSufficientDiff(shortestPath, survivors[i]) {
        survivors := survivors[..i] + survivors[i + 1..];
      } else {
        i := i + 1;
      }
      done := done + 1;
    }
    assert alterPaths[..done] == alterPaths;
    assert survivors == survivors[..i];
  }

  /** The candidates alternativeRoute collects: the non-empty routes found, in order. */
  function Found(routes: seq<seq<Node>>): (r: seq<seq<Node>>)
    ensures |r| <= |routes|
    ensures forall p :: p in r <==> p in routes && |p| > 0
  {
    if |routes| == 0 then []
    else
      var rest := Found(routes[..|routes| - 1]);
      assert routes == routes[..|routes| - 1] + [routes[|routes| - 1]];
      if |routes[|routes| - 1]| > 0 then rest + [routes[|routes| - 1]] else rest
  }

  /** The edge alternativeRoute excludes in its i-th search: the i-th edge of the primary route. */
  function EdgeExcluded(g: Graph, primary: seq<Node>, i: nat): Exclusion
    requires i + 1 < |primary|
  {
    Excluded(g.edge(primary[i], primary[i + 1]))
  }

  /**
   * What the search without edge i of the primary route yields: a walk from
   * `start` to `end` without repeated nodes that avoids that edge, or nothing
   * when no walk avoids it.
   */
  ghost predicate SearchedWithout(g: Graph, primary: seq<Node>, i: nat, start: Node, end: Node, route: seq<Node>)
    requires i + 1 < |primary|
  {
    && (|route| > 0 ==> WalkFromTo(g, EdgeExcluded(g, primary, i), route, start, end) && Distinct(route))
    && (|route| == 0 ==> forall w :: !WalkFromTo(g, EdgeExcluded(g, primary, i), w, start, end))
  }

  /** One more search result keeps the routes and the alternatives found so far in step. */
  lemma RouteAdded(g: Graph, primary: seq<Node>, start: Node, end: Node, routes: seq<seq<Node>>, path: seq<Node>)
    requires |routes| + 1 < |primary|
    requires forall j :: 0 <= j < |routes| ==> SearchedWithout(g, primary, j, start, end, routes[j])
    requires SearchedWithout(g, primary, |routes|, start, end, path)
    ensures Found(routes + [path]) == if |path| > 0 then Found(routes) + [path] else Found(routes)
    ensures forall j :: 0 <= j < |routes| + 1 ==> SearchedWithout(g, primary, j, start, end, (routes + [path])[j])
  {
    assert (routes + [path])[..|routes|] == routes;
  }

  /**
   * alternativeRoute, with the A* search bounded by `fuel` rounds: the
   * primary route, then one search per edge of it with that edge excluded,
   * then the cheapest sufficiently different route found. `primary` is the
   * primary route and `routes[i]` what the search without edge i found
   * (empty for none).
   */
  method AlternativeRoute(g: Graph, start: Node, end: Node, h: Node -> nat, seed: nat, fuel: nat)
    returns (r: AStar.Outcome, primary: seq<Node>, routes: seq<seq<Node>>)
    requires Valid(g) && start < |g.neighbors| && end < |g.neighbors|
    ensures r.OutOfFuel? ==> routes == []
    ensures r.Done? && |primary| > 0 ==> WalkFromTo(g, NoExclusion, primary, start, end)
    ensures r.Done? && |primary| == 0 ==> r.path == [] && forall w :: !WalkFromTo(g, NoExclusion, w, start, end)
    ensures |routes| == if |primary| > 0 then |primary| - 1 else 0
    ensures forall i :: 0 <= i < |routes| ==> SearchedWithout(g, primary, i, start, end, routes[i])
    ensures r.Done? ==> r.path == Best(g, Sufficient(primary, Found(routes)))
  {
    var outcome := AStar.AStar(g, start, end, h, seed, fuel);
    if outcome.OutOfFuel? {
      return AStar.OutOfFuel, [], [];
    }
    var shortestPath := outcome.path;
    primary := shortestPath;
    routes := [];
    var alterPaths: seq<seq<Node>> := [];
    var i := 0;
    while i + 1 < |shortestPath|
      invariant |routes| == i && (i == 0 || i + 1 <= |shortestPath|)
      invariant alterPaths == Found(routes)
      invariant forall j :: 0 <= j < |routes| ==> SearchedWithout(g, primary, j, start, end, routes[j])
    {
      var excludedEdge := g.edge(shortestPath[i], shortestPath[i + 1]);
      var path := Dijkstra.Search(g, Excluded(excludedEdge), start, end);
      RouteAdded(g, primary, start, end, routes, path);
      if |path| > 0 {
        alterPaths := alterPaths + [path];
      }
      routes := routes + [path];
      i := i + 1;
    }
    var best, _ := GetBestAltPath(g, alterPaths, shortestPath);
    return AStar.Done(best), primary, routes;
  }
}
